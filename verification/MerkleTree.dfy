/** The sparse append-only Merkle tree: a map of computed nodes over precomputed zero hashes, refined to the
    plain recursive tree over the inserted leaves padded with zeros. */
module MerkleTree {
  import opened ScalarField
  import opened Wrappers

  /** Poseidon on two inputs. */
  type Hash2 = (Fr, Fr) -> Fr

  type NodeKey = (nat, nat)

  type Update = (NodeKey, Fr)

  datatype Preview = Preview(index: nat, root: Fr, updates: seq<Update>)

  datatype Proof = Proof(elements: seq<Fr>, indices: seq<nat>)

  datatype MerkleError = TreeFull | InvalidIndex(index: nat)

  const USIZE_MAX: nat := 0xffff_ffff_ffff_ffff

  function Pow2(n: nat): (p: nat)
    ensures p >= 1
  {
    if n == 0 then 1 else 2 * Pow2(n - 1)
  }

  /** `1usize.checked_shl(depth as u32).unwrap_or(usize::MAX)` on a 64-bit machine. */
  function Capacity(depth: nat): nat {
    var shift := depth % 0x1_0000_0000;
    if shift < 64 then Pow2(shift) else USIZE_MAX
  }

  // ----- the plain tree -----

  /** The hash of the subtree at (level, j), computed from the leaves alone. */
  function NodeHash(hash: Hash2, leaves: seq<Fr>, level: nat, j: nat): Fr {
    if level == 0 then (if j < |leaves| then leaves[j] else 0)
    else hash(NodeHash(hash, leaves, level - 1, 2 * j), NodeHash(hash, leaves, level - 1, 2 * j + 1))
  }

  function RootOf(hash: Hash2, depth: nat, leaves: seq<Fr>): Fr {
    NodeHash(hash, leaves, depth, 0)
  }

  function ZeroHash(hash: Hash2, level: nat): Fr {
    if level == 0 then 0 else hash(ZeroHash(hash, level - 1), ZeroHash(hash, level - 1))
  }

  /** The index of the ancestor of leaf i at a level. */
  function Up(i: nat, level: nat): nat {
    if level == 0 then i else Up(i, level - 1) / 2
  }

  function Sibling(i: nat): nat {
    if i % 2 == 0 then i + 1 else i - 1
  }

  /** Some leaf below `n` lies under (level, j). */
  predicate Occupied(n: nat, level: nat, j: nat) {
    if level == 0 then j < n else Occupied(n, level - 1, 2 * j)
  }

  /** The textbook definition: halve the padded leaves until one is left. */
  function PlainRoot(hash: Hash2, padded: seq<Fr>, depth: nat): Fr
    requires |padded| == Pow2(depth)
  {
    if depth == 0 then padded[0]
    else
      var half := Pow2(depth - 1);
      hash(PlainRoot(hash, padded[..half], depth - 1), PlainRoot(hash, padded[half..], depth - 1))
  }

  function PadLeaves(leaves: seq<Fr>, size: nat): (padded: seq<Fr>)
    requires |leaves| <= size
    ensures |padded| == size
  {
    leaves + seq(size - |leaves|, _ => 0)
  }

  // ----- geometry -----

  lemma UpStep(i: nat, level: nat)
    ensures Up(i, 0) == i && Up(i, level + 1) == Up(i, level) / 2
  {}

  lemma {:induction false} UpMonotone(i: nat, k: nat, level: nat)
    requires i <= k
    ensures Up(i, level) <= Up(k, level)
  {
    if level > 0 {
      UpMonotone(i, k, level - 1);
    }
  }

  lemma {:induction false} UpAtTop(i: nat, depth: nat, level: nat)
    requires i < Pow2(depth) && level <= depth
    ensures Up(i, level) < Pow2(depth - level)
  {
    if level > 0 {
      UpAtTop(i, depth, level - 1);
    }
  }

  lemma {:induction false} OccupiedExactly(n: nat, level: nat, j: nat)
    ensures Occupied(n, level, j) <==> j * Pow2(level) < n
  {
    if level > 0 {
      OccupiedExactly(n, level - 1, 2 * j);
      assert 2 * j * Pow2(level - 1) == j * Pow2(level);
    }
  }

  lemma {:induction false} OccupiedLeft(n: nat, level: nat, j: nat)
    requires Occupied(n, level, j + 1)
    ensures Occupied(n, level, j)
  {
    if level > 0 {
      OccupiedLeft(n, level - 1, 2 * j + 1);
      OccupiedLeft(n, level - 1, 2 * j);
    }
  }

  lemma {:induction false} LeftOfPathOccupied(n: nat, level: nat, j: nat)
    requires j < Up(n, level)
    ensures Occupied(n, level, j)
  {
    if level > 0 {
      LeftOfPathOccupied(n, level - 1, 2 * j);
    }
  }

  /** Appending leaf n newly occupies exactly the nodes on its path. */
  lemma {:induction false} OccupiedAfterInsert(n: nat, level: nat, j: nat)
    ensures Occupied(n + 1, level, j) <==> Occupied(n, level, j) || j == Up(n, level)
  {
    if level > 0 {
      OccupiedAfterInsert(n, level - 1, 2 * j);
      if Up(n, level - 1) == 2 * j + 1 {
        LeftOfPathOccupied(n, level - 1, 2 * j);
      }
    }
  }

  lemma {:induction false} NothingOccupied(level: nat, j: nat)
    ensures !Occupied(0, level, j)
  {
    if level > 0 {
      NothingOccupied(level - 1, 2 * j);
    }
  }

  lemma {:induction false} EmptySubtree(hash: Hash2, leaves: seq<Fr>, level: nat, j: nat)
    requires !Occupied(|leaves|, level, j)
    ensures NodeHash(hash, leaves, level, j) == ZeroHash(hash, level)
  {
    if level > 0 {
      if Occupied(|leaves|, level - 1, 2 * j + 1) {
        OccupiedLeft(|leaves|, level - 1, 2 * j);
      }
      EmptySubtree(hash, leaves, level - 1, 2 * j);
      EmptySubtree(hash, leaves, level - 1, 2 * j + 1);
    }
  }

  /** Appending a leaf leaves every subtree off its path as it was. */
  lemma {:induction false} OffPathUnchanged(hash: Hash2, leaves: seq<Fr>, leaf: Fr, level: nat, j: nat)
    requires j != Up(|leaves|, level)
    ensures NodeHash(hash, leaves + [leaf], level, j) == NodeHash(hash, leaves, level, j)
  {
    if level > 0 {
      OffPathUnchanged(hash, leaves, leaf, level - 1, 2 * j);
      OffPathUnchanged(hash, leaves, leaf, level - 1, 2 * j + 1);
    }
  }

  lemma {:induction false} CapacityFits(depth: nat)
    ensures Capacity(depth) <= Pow2(depth)
  {
    var shift := depth % 0x1_0000_0000;
    if shift < 64 {
      Pow2Monotone(shift, depth);
    } else {
      Pow2Of64();
      Pow2Monotone(64, depth);
    }
  }

  /** There is room for another leaf below 2^depth leaves. From depth 64 on the shift overflows and all but one
      of the word's values are allowed; a depth beyond 32 bits loses its high bits first. */
  lemma RoomExactly(depth: nat, n: nat)
    ensures depth < 64 ==> (n < Capacity(depth) <==> n < Pow2(depth))
    ensures 64 <= depth < 0x1_0000_0000 ==> (n < Capacity(depth) <==> n < 0xffff_ffff_ffff_ffff)
    ensures depth >= 0x1_0000_0000 ==> Capacity(depth) == Capacity(depth % 0x1_0000_0000)
  {
    hide Pow2, Capacity;
    CapacityOf(depth);
    CapacityOf(depth % 0x1_0000_0000);
  }

  lemma CapacityOf(depth: nat)
    ensures depth < 0x1_0000_0000 ==> Capacity(depth) == if depth < 64 then Pow2(depth) else 0xffff_ffff_ffff_ffff
    ensures Capacity(depth) == Capacity(depth % 0x1_0000_0000)
  {
    hide Pow2;
    assert depth % 0x1_0000_0000 % 0x1_0000_0000 == depth % 0x1_0000_0000 by {
      hide *;
    }
  }

  lemma {:induction false} Pow2Monotone(m: nat, n: nat)
    requires m <= n
    ensures Pow2(m) <= Pow2(n)
    decreases n - m
  {
    if m < n {
      Pow2Monotone(m, n - 1);
    }
  }

  lemma Pow2Of64()
    ensures Pow2(64) == USIZE_MAX + 1
  {
    assert Pow2(2) == 4;
    hide Pow2;
    Pow2Add(2, 2);
    Pow2Add(4, 4);
    assert Pow2(8) == 256;
    Pow2Add(8, 8);
    assert Pow2(16) == 0x1_0000;
    Pow2Add(16, 16);
    assert Pow2(32) == 0x1_0000_0000;
    Pow2Add(32, 32);
  }

  lemma {:induction false} Pow2Add(m: nat, n: nat)
    ensures Pow2(m + n) == Pow2(m) * Pow2(n)
  {
    if m > 0 {
      Pow2Add(m - 1, n);
    }
  }

  /** The first leaf under (level, j). */
  function First(level: nat, j: nat): nat {
    if level == 0 then j else First(level - 1, 2 * j)
  }

  lemma {:induction false} FirstStep(level: nat, j: nat)
    ensures First(level, j + 1) == First(level, j) + Pow2(level)
  {
    if level > 0 {
      FirstStep(level - 1, 2 * j);
      FirstStep(level - 1, 2 * j + 1);
    }
  }

  lemma {:induction false} FirstZero(level: nat)
    ensures First(level, 0) == 0
  {
    if level > 0 {
      FirstZero(level - 1);
    }
  }

  /** The recursive node hash is the textbook root of the leaves padded with zeros to 2^depth. */
  lemma RootIsPlainRoot(hash: Hash2, depth: nat, leaves: seq<Fr>)
    requires |leaves| <= Pow2(depth)
    ensures RootOf(hash, depth, leaves) == PlainRoot(hash, PadLeaves(leaves, Pow2(depth)), depth)
  {
    var padded := PadLeaves(leaves, Pow2(depth));
    FirstZero(depth);
    SubtreeIsPlainRoot(hash, leaves, padded, depth, 0);
    assert padded[0..Pow2(depth)] == padded;
  }

  lemma {:induction false} SubtreeIsPlainRoot(hash: Hash2, leaves: seq<Fr>, padded: seq<Fr>, level: nat, j: nat)
    requires |leaves| <= |padded| && padded == PadLeaves(leaves, |padded|)
    requires First(level, j) + Pow2(level) <= |padded|
    ensures NodeHash(hash, leaves, level, j)
      == PlainRoot(hash, padded[First(level, j)..First(level, j) + Pow2(level)], level)
  {
    if level > 0 {
      var low, half := First(level, j), Pow2(level - 1);
      FirstStep(level - 1, 2 * j);
      assert First(level - 1, 2 * j) == low && Pow2(level) == 2 * half;
      hide First, Pow2, PadLeaves;
      SubtreeIsPlainRoot(hash, leaves, padded, level - 1, 2 * j);
      SubtreeIsPlainRoot(hash, leaves, padded, level - 1, 2 * j + 1);
      SplitSlice(padded, low, half);
    }
  }

  lemma SplitSlice<T>(s: seq<T>, low: nat, half: nat)
    requires low + 2 * half <= |s|
    ensures s[low..low + 2 * half][..half] == s[low..low + half]
    ensures s[low..low + 2 * half][half..] == s[low + half..low + half + half]
  {}

  // ----- proofs -----

  /** The siblings along the path of leaf slot i, over the first `depth` levels. */
  function ProofElements(hash: Hash2, depth: nat, leaves: seq<Fr>, i: nat): (elements: seq<Fr>)
    ensures |elements| == depth
  {
    if depth == 0 then []
    else ProofElements(hash, depth - 1, leaves, i) + [NodeHash(hash, leaves, depth - 1, Sibling(Up(i, depth - 1)))]
  }

  function ProofIndices(depth: nat, i: nat): (indices: seq<nat>)
    ensures |indices| == depth
  {
    if depth == 0 then [] else ProofIndices(depth - 1, i) + [Up(i, depth - 1) % 2]
  }

  function ProofOf(hash: Hash2, depth: nat, leaves: seq<Fr>, i: nat): Proof {
    Proof(ProofElements(hash, depth, leaves, i), ProofIndices(depth, i))
  }

  /** The two inputs of the hash at one level of a verification. */
  function Inputs(current: Fr, element: Fr, index: nat): (Fr, Fr) {
    if index == 0 then (current, element) else (element, current)
  }

  /** The verifier's fold: the value reached after the first `n` levels. */
  function Climb(hash: Hash2, v: Fr, elements: seq<Fr>, indices: seq<nat>, n: nat): Fr
    requires n <= |elements| && n <= |indices|
  {
    if n == 0 then v
    else
      var (left, right) := Inputs(Climb(hash, v, elements, indices, n - 1), elements[n - 1], indices[n - 1]);
      hash(left, right)
  }

  /** The tree's own children at the ancestor of leaf i. */
  function Children(hash: Hash2, leaves: seq<Fr>, i: nat, level: nat): (Fr, Fr) {
    (NodeHash(hash, leaves, level, 2 * Up(i, level + 1)), NodeHash(hash, leaves, level, 2 * Up(i, level + 1) + 1))
  }

  lemma ChildrenAreInputs(hash: Hash2, leaves: seq<Fr>, i: nat, level: nat)
    ensures Children(hash, leaves, i, level)
      == Inputs(NodeHash(hash, leaves, level, Up(i, level)),
                NodeHash(hash, leaves, level, Sibling(Up(i, level))),
                Up(i, level) % 2)
    ensures hash(Children(hash, leaves, i, level).0, Children(hash, leaves, i, level).1)
      == NodeHash(hash, leaves, level + 1, Up(i, level + 1))
  {}

  lemma {:induction false} IndicesAt(depth: nat, i: nat, level: nat)
    requires level < depth
    ensures ProofIndices(depth, i)[level] == Up(i, level) % 2
  {
    hide Up;
    if level < depth - 1 {
      IndicesAt(depth - 1, i, level);
    }
  }

  lemma {:induction false} ProofAt(hash: Hash2, depth: nat, leaves: seq<Fr>, i: nat, level: nat)
    requires level < depth
    ensures ProofElements(hash, depth, leaves, i)[level] == NodeHash(hash, leaves, level, Sibling(Up(i, level)))
    ensures ProofIndices(depth, i)[level] == Up(i, level) % 2
  {
    IndicesAt(depth, i, level);
    hide NodeHash, Up, Sibling, ProofIndices;
    if level < depth - 1 {
      ProofAt(hash, depth - 1, leaves, i, level);
    }
  }

  /** Climbing a leaf's own proof passes through the tree's nodes. */
  lemma {:induction false} ClimbFollowsTree(hash: Hash2, depth: nat, leaves: seq<Fr>, i: nat, n: nat)
    requires n <= depth
    ensures Climb(hash, NodeHash(hash, leaves, 0, i), ProofElements(hash, depth, leaves, i), ProofIndices(depth, i), n)
      == NodeHash(hash, leaves, n, Up(i, n))
  {
    hide NodeHash, Sibling, ProofElements, ProofIndices, Children, Inputs;
    assert Up(i, 0) == i;
    hide Up;
    if n > 0 {
      ClimbFollowsTree(hash, depth, leaves, i, n - 1);
      ProofAt(hash, depth, leaves, i, n - 1);
      ChildrenAreInputs(hash, leaves, i, n - 1);
    }
  }

  /** The value of little-endian binary digits. */
  function BitsValue(bits: seq<nat>): nat {
    if bits == [] then 0 else bits[0] + 2 * BitsValue(bits[1..])
  }

  lemma {:induction false} UpShift(i: nat, level: nat)
    ensures Up(i, level + 1) == Up(i / 2, level)
  {
    if level > 0 {
      UpShift(i, level - 1);
    }
  }

  lemma {:induction false} IndicesAreBits(depth: nat, i: nat)
    requires i < Pow2(depth)
    ensures BitsValue(ProofIndices(depth, i)) == i
    ensures forall l :: 0 <= l < depth ==> ProofIndices(depth, i)[l] < 2
  {
    if depth > 0 {
      var bits := ProofIndices(depth, i);
      forall l | 0 <= l < depth
        ensures bits[l] < 2
        ensures l > 0 ==> bits[l] == ProofIndices(depth - 1, i / 2)[l - 1]
      {
        IndicesAt(depth, i, l);
        if l > 0 {
          IndicesAt(depth - 1, i / 2, l - 1);
          UpShift(i, l - 1);
        }
      }
      IndicesAt(depth, i, 0);
      assert bits[1..] == ProofIndices(depth - 1, i / 2);
      IndicesAreBits(depth - 1, i / 2);
    }
  }

  /** Completeness: the proof of any leaf slot climbs to the root, has one element per level, and its
      direction bits are the little-endian binary digits of the index. */
  lemma ProofComplete(hash: Hash2, depth: nat, leaves: seq<Fr>, i: nat)
    requires i < |leaves| <= Pow2(depth)
    ensures var proof := ProofOf(hash, depth, leaves, i);
      && Climb(hash, leaves[i], proof.elements, proof.indices, depth) == RootOf(hash, depth, leaves)
      && BitsValue(proof.indices) == i
  {
    ClimbFollowsTree(hash, depth, leaves, i, depth);
    UpAtTop(i, depth, depth);
    IndicesAreBits(depth, i);
  }

  /** At `level` the verifier hashes other inputs than the tree does, to the same output. */
  ghost predicate CollisionAt(
    hash: Hash2, leaves: seq<Fr>, i: nat, v: Fr, elements: seq<Fr>, indices: seq<nat>, level: nat)
    requires level < |elements| && level < |indices|
  {
    var mine := Inputs(Climb(hash, v, elements, indices, level), elements[level], indices[level]);
    var tree := Children(hash, leaves, i, level);
    mine != tree && hash(mine.0, mine.1) == hash(tree.0, tree.1)
  }

  /** Soundness: whatever climbs along the bits of i to the root is the leaf in slot i (zero when the slot
      is still empty) with exactly the elements that `get_proof` gives, or it exhibits, at a level of the
      climb, two different inputs with the same hash. */
  lemma ProofSound(hash: Hash2, depth: nat, leaves: seq<Fr>, i: nat, v: Fr, elements: seq<Fr>)
    requires i < Pow2(depth) && |elements| == depth
    requires Climb(hash, v, elements, ProofIndices(depth, i), depth) == RootOf(hash, depth, leaves)
    ensures (v == NodeHash(hash, leaves, 0, i) && elements == ProofElements(hash, depth, leaves, i))
      || exists level :: 0 <= level < depth && CollisionAt(hash, leaves, i, v, elements, ProofIndices(depth, i), level)
  {
    UpAtTop(i, depth, depth);
    DescendClimb(hash, depth, leaves, i, v, elements, depth);
  }

  lemma InputsInjective(v: Fr, e: Fr, w: Fr, f: Fr, index: nat)
    requires Inputs(v, e, index) == Inputs(w, f, index)
    ensures v == w && e == f
  {}

  lemma {:induction false} DescendClimb(
    hash: Hash2, depth: nat, leaves: seq<Fr>, i: nat, v: Fr, elements: seq<Fr>, n: nat)
    requires |elements| == depth && n <= depth
    requires Climb(hash, v, elements, ProofIndices(depth, i), n) == NodeHash(hash, leaves, n, Up(i, n))
    requires forall l :: n <= l < depth ==> elements[l] == ProofElements(hash, depth, leaves, i)[l]
    ensures (v == NodeHash(hash, leaves, 0, i) && elements == ProofElements(hash, depth, leaves, i))
      || exists level :: 0 <= level < depth && CollisionAt(hash, leaves, i, v, elements, ProofIndices(depth, i), level)
  {
    hide NodeHash, Sibling, ProofElements, ProofIndices, Children, Inputs;
    assert Up(i, 0) == i;
    hide Up;
    if n > 0 {
      var indices := ProofIndices(depth, i);
      var mine := Inputs(Climb(hash, v, elements, indices, n - 1), elements[n - 1], indices[n - 1]);
      ProofAt(hash, depth, leaves, i, n - 1);
      ChildrenAreInputs(hash, leaves, i, n - 1);
      if mine == Children(hash, leaves, i, n - 1) {
        InputsInjective(
          Climb(hash, v, elements, indices, n - 1), elements[n - 1],
          NodeHash(hash, leaves, n - 1, Up(i, n - 1)), NodeHash(hash, leaves, n - 1, Sibling(Up(i, n - 1))),
          indices[n - 1]);
        DescendClimb(hash, depth, leaves, i, v, elements, n - 1);
      } else {
        assert CollisionAt(hash, leaves, i, v, elements, indices, n - 1);
      }
    }
  }

  // ----- witness update -----

  /** The level at which the paths of two leaf slots become siblings: the highest bit where i and j differ. */
  function Divergence(i: nat, j: nat, depth: nat): (level: nat)
    requires Up(i, depth) == Up(j, depth) && i != j
    ensures level < depth
    ensures Up(i, level) != Up(j, level)
    ensures forall l :: level < l <= depth ==> Up(i, l) == Up(j, l)
  {
    if Up(i, depth - 1) != Up(j, depth - 1) then depth - 1 else Divergence(i, j, depth - 1)
  }

  lemma {:induction false} UpStaysApart(i: nat, j: nat, l: nat, m: nat)
    requires l <= m && Up(i, m) != Up(j, m)
    ensures Up(i, l) != Up(j, l)
    decreases m - l
  {
    if l < m {
      UpStaysApart(i, j, l, m - 1);
    }
  }

  /** Witness update: inserting leaf n changes the proof of an earlier leaf j in one element only, at the
      highest bit where n and j differ, where it becomes the insert's own update for that level; patched
      so, j's old proof climbs to the new root. */
  lemma WitnessUpdate(hash: Hash2, depth: nat, leaves: seq<Fr>, leaf: Fr, j: nat)
    requires j < |leaves| < Pow2(depth)
    ensures Up(|leaves|, depth) == Up(j, depth)
    ensures var n := |leaves|;
      var m := Divergence(n, j, depth);
      var before := ProofElements(hash, depth, leaves, j);
      var after := ProofElements(hash, depth, leaves + [leaf], j);
      var patched := before[m := PathUpdates(hash, leaves, leaf, depth + 1)[m].1];
      && after == patched
      && Climb(hash, leaves[j], patched, ProofIndices(depth, j), depth) == RootOf(hash, depth, leaves + [leaf])
  {
    var n, longer := |leaves|, leaves + [leaf];
    UpAtTop(n, depth, depth);
    UpAtTop(j, depth, depth);
    var m := Divergence(n, j, depth);
    var before, after := ProofElements(hash, depth, leaves, j), ProofElements(hash, depth, longer, j);
    hide NodeHash, ProofElements, ProofIndices, Climb;
    forall l | 0 <= l < depth
      ensures after[l] == if l == m then NodeHash(hash, longer, m, Up(n, m)) else before[l]
    {
      SiblingOnPath(n, j, depth, l);
      ProofAt(hash, depth, leaves, j, l);
      ProofAt(hash, depth, longer, j, l);
      if l != m {
        OffPathUnchanged(hash, leaves, leaf, l, Sibling(Up(j, l)));
      }
    }
    assert PathUpdates(hash, leaves, leaf, depth + 1)[m].1 == NodeHash(hash, longer, m, Up(n, m));
    assert after == before[m := NodeHash(hash, longer, m, Up(n, m))];
    ProofComplete(hash, depth, longer, j);
  }

  /** j's sibling at a level lies on n's path exactly at the level where the paths become siblings. */
  lemma SiblingOnPath(n: nat, j: nat, depth: nat, l: nat)
    requires Up(n, depth) == Up(j, depth) && n != j && l < depth
    ensures Sibling(Up(j, l)) == Up(n, l) <==> l == Divergence(n, j, depth)
  {
    var m := Divergence(n, j, depth);
    assert Up(n, l + 1) == Up(n, l) / 2 && Up(j, l + 1) == Up(j, l) / 2;
    if l < m {
      UpStaysApart(n, j, l + 1, m);
    }
    hide Up, Divergence;
    SameParent(Up(n, l), Up(j, l));
  }

  lemma SameParent(a: nat, b: nat)
    ensures a / 2 == b / 2 <==> a == b || Sibling(b) == a
    ensures Sibling(b) != b
  {}

  // ----- the sparse representation -----

  type NodeMap = map<NodeKey, Fr>

  /** The map holds exactly the occupied nodes, each with the hash of its subtree. */
  ghost predicate Represents(hash: Hash2, depth: nat, leaves: seq<Fr>, nodes: NodeMap) {
    && (forall level: nat, j: nat :: (level, j) in nodes <==> level <= depth && Occupied(|leaves|, level, j))
    && (forall level: nat, j: nat :: (level, j) in nodes ==> nodes[(level, j)] == NodeHash(hash, leaves, level, j))
  }

  /** The path of a new leaf with the hashes of the tree that contains it. */
  function PathUpdates(hash: Hash2, leaves: seq<Fr>, leaf: Fr, n: nat): (updates: seq<Update>)
    ensures |updates| == n
  {
    seq(n, level requires 0 <= level < n =>
      ((level, Up(|leaves|, level)), NodeHash(hash, leaves + [leaf], level, Up(|leaves|, level))))
  }

  /** One level of a previewed insert: the parent on the path hashes the new node with its old sibling. */
  lemma PathStep(hash: Hash2, leaves: seq<Fr>, leaf: Fr, level: nat)
    ensures var longer, current := leaves + [leaf], Up(|leaves|, level);
      var (left, right) := Inputs(
        NodeHash(hash, longer, level, current), NodeHash(hash, leaves, level, Sibling(current)), current % 2);
      NodeHash(hash, longer, level + 1, current / 2) == hash(left, right)
  {
    UpStep(|leaves|, level);
    OffPathUnchanged(hash, leaves, leaf, level, Sibling(Up(|leaves|, level)));
    ChildrenAreInputs(hash, leaves + [leaf], |leaves|, level);
    hide NodeHash, Up, Inputs, Children;
  }

  lemma PathUpdatesStep(hash: Hash2, leaves: seq<Fr>, leaf: Fr, n: nat)
    ensures PathUpdates(hash, leaves, leaf, n + 1) == PathUpdates(hash, leaves, leaf, n)
      + [((n, Up(|leaves|, n)), NodeHash(hash, leaves + [leaf], n, Up(|leaves|, n)))]
  {
    hide NodeHash, Up;
  }

  lemma PathBottom(hash: Hash2, leaves: seq<Fr>, leaf: Fr)
    ensures PathUpdates(hash, leaves, leaf, 1) == [((0, |leaves|), leaf)]
    ensures NodeHash(hash, leaves + [leaf], 0, |leaves|) == leaf && Up(|leaves|, 0) == |leaves|
  {}

  lemma PathTop(index: nat, depth: nat)
    requires index < Capacity(depth)
    ensures Up(index, depth) == 0
  {
    CapacityFits(depth);
    UpAtTop(index, depth, depth);
    hide Capacity;
  }

  function PreviewSpec(hash: Hash2, depth: nat, leaves: seq<Fr>, leaf: Fr): Result<Preview, MerkleError> {
    if |leaves| >= Capacity(depth) then Err(TreeFull)
    else Ok(Preview(|leaves|, RootOf(hash, depth, leaves + [leaf]), PathUpdates(hash, leaves, leaf, depth + 1)))
  }

  function Overlay(nodes: NodeMap, updates: seq<Update>): NodeMap {
    if updates == [] then nodes
    else Overlay(nodes, updates[..|updates| - 1])[updates[|updates| - 1].0 := updates[|updates| - 1].1]
  }

  lemma {:induction false} OverlayPath(
    hash: Hash2, leaves: seq<Fr>, leaf: Fr, nodes: NodeMap, n: nat, level: nat, j: nat)
    ensures PathEntry(hash, leaves, leaf, nodes, n, Overlay(nodes, PathUpdates(hash, leaves, leaf, n)), level, j)
  {
    PathEntryNone(hash, leaves, leaf, nodes, level, j);
    hide NodeHash, Up, PathUpdates, Overlay, PathEntry;
    if n > 0 {
      PathUpdatesStep(hash, leaves, leaf, n - 1);
      OverlayStep(nodes, PathUpdates(hash, leaves, leaf, n - 1),
        ((n - 1, Up(|leaves|, n - 1)), NodeHash(hash, leaves + [leaf], n - 1, Up(|leaves|, n - 1))));
      OverlayPath(hash, leaves, leaf, nodes, n - 1, level, j);
      PathEntryStep(hash, leaves, leaf, nodes, n - 1, Overlay(nodes, PathUpdates(hash, leaves, leaf, n - 1)), level, j);
    }
  }

  lemma PathEntryNone(hash: Hash2, leaves: seq<Fr>, leaf: Fr, nodes: NodeMap, level: nat, j: nat)
    ensures PathEntry(hash, leaves, leaf, nodes, 0, Overlay(nodes, PathUpdates(hash, leaves, leaf, 0)), level, j)
  {
    hide NodeHash, Up;
    assert PathUpdates(hash, leaves, leaf, 0) == [];
  }

  lemma PathEntryStep(
    hash: Hash2, leaves: seq<Fr>, leaf: Fr, nodes: NodeMap, n: nat, before: NodeMap, level: nat, j: nat)
    requires PathEntry(hash, leaves, leaf, nodes, n, before, level, j)
    ensures PathEntry(hash, leaves, leaf, nodes, n + 1,
      before[(n, Up(|leaves|, n)) := NodeHash(hash, leaves + [leaf], n, Up(|leaves|, n))], level, j)
  {
    hide Up, NodeHash;
    assert (level, j) == (n, Up(|leaves|, n)) <==> level == n && j == Up(|leaves|, n);
  }

  lemma OverlayStep(nodes: NodeMap, updates: seq<Update>, last: Update)
    ensures Overlay(nodes, updates + [last]) == Overlay(nodes, updates)[last.0 := last.1]
  {
    assert (updates + [last])[..|updates|] == updates;
  }

  /** After the first `n` updates, (level, j) holds the new hash on the path and the old entry elsewhere. */
  ghost predicate PathEntry(
    hash: Hash2, leaves: seq<Fr>, leaf: Fr, nodes: NodeMap, n: nat, after: NodeMap, level: nat, j: nat)
  {
    var key := (level, j);
    if level < n && j == Up(|leaves|, level)
    then key in after && after[key] == NodeHash(hash, leaves + [leaf], level, j)
    else (key in after <==> key in nodes) && (key in nodes ==> after[key] == nodes[key])
  }

  /** Applying a previewed insert turns the map of a tree into the map of the longer tree. */
  lemma OverlayRepresents(hash: Hash2, depth: nat, leaves: seq<Fr>, leaf: Fr, nodes: NodeMap)
    requires Represents(hash, depth, leaves, nodes)
    ensures Represents(hash, depth, leaves + [leaf], Overlay(nodes, PathUpdates(hash, leaves, leaf, depth + 1)))
  {
    hide Overlay, PathUpdates, NodeHash, Up, Occupied;
    var n := |leaves|;
    var after := Overlay(nodes, PathUpdates(hash, leaves, leaf, depth + 1));
    forall level: nat, j: nat
      ensures (level, j) in after <==> level <= depth && Occupied(n + 1, level, j)
      ensures (level, j) in after ==> after[(level, j)] == NodeHash(hash, leaves + [leaf], level, j)
    {
      OverlayPath(hash, leaves, leaf, nodes, depth + 1, level, j);
      OccupiedAfterInsert(n, level, j);
      if j != Up(n, level) {
        OffPathUnchanged(hash, leaves, leaf, level, j);
      }
    }
  }

  /** The leaves determine the map: two trees over the same leaves hold the same nodes. */
  lemma RepresentationUnique(hash: Hash2, depth: nat, leaves: seq<Fr>, a: NodeMap, b: NodeMap)
    requires Represents(hash, depth, leaves, a) && Represents(hash, depth, leaves, b)
    ensures a == b
  {
    forall key: NodeKey
      ensures key in a <==> key in b
      ensures key in a ==> a[key] == b[key]
    {
      var (level, j) := key;
      assert (level, j) in a <==> (level, j) in b;
    }
  }

  class Tree {
    const hash: Hash2
    const depth: nat
    const zeros: seq<Fr>
    var nextIndex: nat
    var nodes: NodeMap
    ghost var leaves: seq<Fr>

    ghost predicate Valid()
      reads this
    {
      && nextIndex == |leaves| <= Capacity(depth)
      && |zeros| == depth + 1
      && (forall level :: 0 <= level <= depth ==> zeros[level] == ZeroHash(hash, level))
      && Represents(hash, depth, leaves, nodes)
    }

    constructor (hash: Hash2, depth: nat)
      ensures Valid() && leaves == []
      ensures this.hash == hash && this.depth == depth
    {
      var zeroHashes: seq<Fr> := [0];
      for i := 0 to depth
        invariant |zeroHashes| == i + 1
        invariant forall level :: 0 <= level <= i ==> zeroHashes[level] == ZeroHash(hash, level)
      {
        var zero := zeroHashes[i];
        zeroHashes := zeroHashes + [hash(zero, zero)];
      }
      this.hash := hash;
      this.depth := depth;
      this.zeros := zeroHashes;
      this.nextIndex := 0;
      this.nodes := map[];
      this.leaves := [];
      new;
      forall level: nat, j: nat
        ensures !Occupied(0, level, j)
      {
        NothingOccupied(level, j);
      }
    }

    /** A stored node, or the zero hash of its level: always the hash of the subtree. */
    function NodeAt(level: nat, j: nat): (value: Fr)
      requires Valid() && level <= depth
      reads this
      ensures value == NodeHash(hash, leaves, level, j)
    {
      if (level, j) in nodes then nodes[(level, j)]
      else
        EmptySubtree(hash, leaves, level, j);
        zeros[level]
    }

    function Root(): (root: Fr)
      requires Valid()
      reads this
      ensures root == RootOf(hash, depth, leaves)
    {
      NodeAt(depth, 0)
    }

    method PreviewInsert(leaf: Fr) returns (r: Result<Preview, MerkleError>)
      requires Valid()
      ensures r == PreviewSpec(hash, depth, leaves, leaf)
      ensures depth < 64 ==> (r.Ok? <==> |leaves| < Pow2(depth))
      ensures 64 <= depth < 0x1_0000_0000 ==> (r.Ok? <==> |leaves| < 0xffff_ffff_ffff_ffff)
      ensures r.Err? ==> r.error == TreeFull
      ensures r.Ok? ==> r.value.index == |leaves| && r.value.root == RootOf(hash, depth, leaves + [leaf])
    {
      hide Up, NodeHash, PathUpdates, Sibling, Represents, Capacity, Pow2, Occupied;
      RoomExactly(depth, |leaves|);
      if nextIndex >= Capacity(depth) {
        return Err(TreeFull);
      }
      var index := nextIndex;
      PathTop(index, depth);
      PathBottom(hash, leaves, leaf);
      var currentIdx, currentVal := index, leaf;
      ghost var longer := leaves + [leaf];
      var updates: seq<Update> := [((0, currentIdx), currentVal)];
      for level := 0 to depth
        invariant currentIdx == Up(index, level)
        invariant currentVal == NodeHash(hash, longer, level, currentIdx)
        invariant updates == PathUpdates(hash, leaves, leaf, level + 1)
      {
        var siblingVal := NodeAt(level, Sibling(currentIdx));
        PathStep(hash, leaves, leaf, level);
        UpStep(index, level);
        PathUpdatesStep(hash, leaves, leaf, level + 1);
        var parentVal;
        if currentIdx % 2 == 0 {
          parentVal := hash(currentVal, siblingVal);
        } else {
          parentVal := hash(siblingVal, currentVal);
        }
        currentIdx := currentIdx / 2;
        currentVal := parentVal;
        updates := updates + [((level + 1, currentIdx), currentVal)];
      }
      r := Ok(Preview(index, currentVal, updates));
    }

    /** Overwrites nodes in the order given; the updates must be those previewed for `leaf`. */
    method ApplyUpdates(next: nat, updates: seq<Update>, ghost leaf: Fr)
      requires Valid()
      requires var preview := PreviewSpec(hash, depth, leaves, leaf);
        preview.Ok? && updates == preview.value.updates && next == preview.value.index + 1
      modifies this
      ensures Valid() && leaves == old(leaves) + [leaf]
    {
      hide NodeHash, Up, Represents;
      nextIndex := next;
      for i := 0 to |updates|
        invariant nextIndex == next && leaves == old(leaves)
        invariant nodes == Overlay(old(nodes), updates[..i])
      {
        assert updates[..i + 1][..i] == updates[..i];
        nodes := nodes[updates[i].0 := updates[i].1];
      }
      assert updates[..|updates|] == updates;
      OverlayRepresents(hash, depth, leaves, leaf, old(nodes));
      leaves := leaves + [leaf];
    }

    method Insert(leaf: Fr) returns (r: Result<nat, MerkleError>)
      requires Valid()
      modifies this
      ensures Valid()
      ensures depth < 64 ==> (r.Ok? <==> |old(leaves)| < Pow2(depth))
      ensures 64 <= depth < 0x1_0000_0000 ==> (r.Ok? <==> |old(leaves)| < 0xffff_ffff_ffff_ffff)
      ensures r == if |old(leaves)| >= Capacity(depth) then Err(TreeFull) else Ok(|old(leaves)|)
      ensures leaves == if r.Ok? then old(leaves) + [leaf] else old(leaves)
    {
      hide Represents, Capacity;
      var preview := PreviewInsert(leaf);
      if preview.Err? {
        return Err(preview.error);
      }
      ApplyUpdates(preview.value.index + 1, preview.value.updates, leaf);
      r := Ok(preview.value.index);
    }

    method GetProof(index: nat) returns (r: Result<Proof, MerkleError>)
      requires Valid()
      ensures r == if index >= |leaves| then Err(InvalidIndex(index)) else Ok(ProofOf(hash, depth, leaves, index))
    {
      if index >= nextIndex {
        return Err(InvalidIndex(index));
      }
      UpStep(index, 0);
      assert index < |leaves|;
      hide Valid, Up, NodeHash, Sibling, Capacity;
      var elements: seq<Fr>, indices: seq<nat> := [], [];
      var currentIdx := index;
      for level := 0 to depth
        invariant currentIdx == Up(index, level)
        invariant elements == ProofElements(hash, level, leaves, index)
        invariant indices == ProofIndices(level, index)
      {
        var siblingVal := NodeAt(level, Sibling(currentIdx));
        UpStep(index, level);
        elements := elements + [siblingVal];
        indices := indices + [currentIdx % 2];
        currentIdx := currentIdx / 2;
      }
      r := Ok(Proof(elements, indices));
    }
  }

  /** Two valid trees over the same leaves are the same in every field, however they came about. */
  lemma TreesAgree(a: Tree, b: Tree)
    requires a.Valid() && b.Valid()
    requires a.hash == b.hash && a.depth == b.depth && a.leaves == b.leaves
    ensures a.nextIndex == b.nextIndex && a.nodes == b.nodes && a.zeros == b.zeros
  {
    RepresentationUnique(a.hash, a.depth, a.leaves, a.nodes, b.nodes);
    hide Represents, Capacity, ZeroHash;
    assert forall i :: 0 <= i < |a.zeros| ==> a.zeros[i] == b.zeros[i];
  }
}
