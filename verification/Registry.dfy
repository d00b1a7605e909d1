/** Registration of identities: previewed on the tree, persisted in one transaction, applied to the tree
    only after the commit; and restoring the tree from the tables.

    A table is the sequence of its rows in primary-key order, a transaction a copy of the tables that
    replaces them at the commit. `Fault` chooses the point at which a SQL call fails or the process dies. */
module Registry {
  import opened ByteInts
  import opened HexText
  import opened MerkleTree
  import opened ScalarField
  import opened Wrappers

  datatype IdentityRow = IdentityRow(commitmentHex: string, roleCode: nat, nodeId: int)

  datatype LeafRow = LeafRow(index: nat, commitmentHex: string)

  datatype RootRow = RootRow(rootHex: string, active: bool)

  datatype Tables = Tables(identities: seq<IdentityRow>, leaves: seq<LeafRow>, roots: seq<RootRow>)

  const EMPTY_TABLES := Tables([], [], [])

  datatype Registration =
    Registration(leafIndex: nat, rootHex: string, pathElements: seq<string>, pathIndices: seq<nat>)

  datatype IdentityError =
    | InvalidCommitmentFormat
    | InvalidHex
    | DuplicateCommitment
    | CommitmentNotFound
    | MerkleRootMismatch(stored: string, computed: string)
    | TreeError(error: MerkleError)
    | DatabaseError
    | Crashed  // the process died: no caller sees a result

  datatype Point = Begin | IdentityInsert | LeafInsert | RootDeactivate | RootInsert | Commit | Apply

  datatype Fault = NoFault | Fail(point: Point) | Crash(point: Point)

  /** What stops the code at a point; applying updates in memory cannot fail. */
  function Interrupt(fault: Fault, point: Point): Option<IdentityError> {
    if fault == Crash(point) then Some(Crashed)
    else if fault == Fail(point) && point != Apply then Some(DatabaseError)
    else None
  }

  // ----- statements on the tables -----

  predicate HasIdentity(rows: seq<IdentityRow>, commitmentHex: string) {
    exists i :: 0 <= i < |rows| && rows[i].commitmentHex == commitmentHex
  }

  predicate HasLeaf(rows: seq<LeafRow>, index: nat) {
    exists i :: 0 <= i < |rows| && rows[i].index == index
  }

  /** Inserts a row at its place in primary-key order. */
  function InsertLeaf(rows: seq<LeafRow>, row: LeafRow): seq<LeafRow> {
    if rows == [] || rows[|rows| - 1].index < row.index then rows + [row]
    else InsertLeaf(rows[..|rows| - 1], row) + [rows[|rows| - 1]]
  }

  function Deactivate(rows: seq<RootRow>): (r: seq<RootRow>)
    ensures |r| == |rows|
  {
    seq(|rows|, i requires 0 <= i < |rows| => rows[i].(active := false))
  }

  predicate NoneActiveAfter(rows: seq<RootRow>, i: nat) {
    forall j :: i < j < |rows| ==> !rows[j].active
  }

  /** The newest active root. */
  function ActiveRoot(rows: seq<RootRow>): (root: Option<string>)
    ensures root.None? <==> forall i :: 0 <= i < |rows| ==> !rows[i].active
    ensures root.Some? ==>
      exists i :: 0 <= i < |rows| && rows[i] == RootRow(root.value, true) && NoneActiveAfter(rows, i)
  {
    if rows == [] then None
    else if rows[|rows| - 1].active then Some(rows[|rows| - 1].rootHex)
    else ActiveRoot(rows[..|rows| - 1])
  }

  function PersistSpec(tables: Tables, index: nat, leaf: Fr, root: Fr, fault: Fault): Result<Tables, IdentityError> {
    if Interrupt(fault, LeafInsert).Some? then Err(Interrupt(fault, LeafInsert).value)
    else if HasLeaf(tables.leaves, index) then Err(DatabaseError)
    else if Interrupt(fault, RootDeactivate).Some? then Err(Interrupt(fault, RootDeactivate).value)
    else if Interrupt(fault, RootInsert).Some? then Err(Interrupt(fault, RootInsert).value)
    else Ok(tables.(
      leaves := InsertLeaf(tables.leaves, LeafRow(index, ToHex(leaf))),
      roots := Deactivate(tables.roots) + [RootRow(ToHex(root), true)]))
  }

  ghost predicate InKeyOrder(rows: seq<LeafRow>) {
    forall i, j :: 0 <= i < j < |rows| ==> rows[i].index < rows[j].index
  }

  lemma {:induction false} InsertLeafBelow(rows: seq<LeafRow>, row: LeafRow, bound: nat)
    requires row.index < bound && forall i :: 0 <= i < |rows| ==> rows[i].index < bound
    ensures forall i :: 0 <= i < |InsertLeaf(rows, row)| ==> InsertLeaf(rows, row)[i].index < bound
  {
    if rows != [] && rows[|rows| - 1].index >= row.index {
      InsertLeafBelow(rows[..|rows| - 1], row, bound);
    }
  }

  lemma {:induction false} InsertLeafOrdered(rows: seq<LeafRow>, row: LeafRow)
    requires InKeyOrder(rows) && !HasLeaf(rows, row.index)
    ensures InKeyOrder(InsertLeaf(rows, row))
  {
    if rows != [] && rows[|rows| - 1].index >= row.index {
      var n := |rows| - 1;
      assert rows[n].index != row.index;
      InsertLeafOrdered(rows[..n], row);
      InsertLeafBelow(rows[..n], row, rows[n].index);
    }
  }

  /** An insert adds the row, keeps every other, and keeps the primary key's order. */
  lemma {:induction false} InsertLeafKeeps(rows: seq<LeafRow>, row: LeafRow)
    ensures multiset(InsertLeaf(rows, row)) == multiset(rows) + multiset{row}
    ensures InKeyOrder(rows) && !HasLeaf(rows, row.index) ==> InKeyOrder(InsertLeaf(rows, row))
  {
    hide InKeyOrder, HasLeaf;
    if rows != [] && rows[|rows| - 1].index >= row.index {
      var n := |rows| - 1;
      InsertLeafKeeps(rows[..n], row);
      assert rows == rows[..n] + [rows[n]];
    }
    if InKeyOrder(rows) && !HasLeaf(rows, row.index) {
      InsertLeafOrdered(rows, row);
    }
  }

  /** Without a fault the only thing that stops the three statements is a row with the same key. */
  lemma PersistConflicts(tables: Tables, index: nat, leaf: Fr, root: Fr)
    ensures PersistSpec(tables, index, leaf, root, NoFault).Err? <==>
      exists i :: 0 <= i < |tables.leaves| && tables.leaves[i].index == index
    ensures PersistSpec(tables, index, leaf, root, NoFault).Err? ==>
      PersistSpec(tables, index, leaf, root, NoFault).error == DatabaseError
  {
    hide ToHex, InsertLeaf;
    if i :| 0 <= i < |tables.leaves| && tables.leaves[i].index == index {
      assert HasLeaf(tables.leaves, index);
    }
  }

  method PersistLeafAndRoot(tx: Tables, index: nat, leaf: Fr, root: Fr, fault: Fault)
    returns (r: Result<Tables, IdentityError>)
    ensures r == PersistSpec(tx, index, leaf, root, fault)
  {
    hide ToHex, InsertLeaf;
    var leafHex, rootHex := ToHex(leaf), ToHex(root);
    var stop := Interrupt(fault, LeafInsert);
    if stop.Some? {
      return Err(stop.value);
    }
    if HasLeaf(tx.leaves, index) {
      return Err(DatabaseError);
    }
    var tables := tx.(leaves := InsertLeaf(tx.leaves, LeafRow(index, leafHex)));
    stop := Interrupt(fault, RootDeactivate);
    if stop.Some? {
      return Err(stop.value);
    }
    tables := tables.(roots := Deactivate(tables.roots));
    stop := Interrupt(fault, RootInsert);
    if stop.Some? {
      return Err(stop.value);
    }
    tables := tables.(roots := tables.roots + [RootRow(rootHex, true)]);
    r := Ok(tables);
  }

  // ----- inserting and registering -----

  /** What a call returns, and the leaves of the tree and the tables it leaves behind. */
  datatype Effect<T> = Effect(outcome: Result<T, IdentityError>, leaves: seq<Fr>, tables: Tables)

  /** The transaction's last step: all its statements take effect, or none. */
  function CommitSpec(persisted: Result<Tables, IdentityError>, fault: Fault): Result<Tables, IdentityError> {
    if persisted.Err? then persisted
    else if Interrupt(fault, Commit).Some? then Err(Interrupt(fault, Commit).value)
    else persisted
  }

  function InsertSpec(hash: Hash2, depth: nat, leaves: seq<Fr>, tables: Tables, leaf: Fr, fault: Fault): Effect<nat> {
    if |leaves| >= Capacity(depth) then Effect(Err(TreeError(TreeFull)), leaves, tables)
    else if Interrupt(fault, Begin).Some? then Effect(Err(Interrupt(fault, Begin).value), leaves, tables)
    else
      var persisted := PersistSpec(tables, |leaves|, leaf, RootOf(hash, depth, leaves + [leaf]), fault);
      match CommitSpec(persisted, fault)
      case Err(e) => Effect(Err(e), leaves, tables)
      case Ok(after) =>
        if Interrupt(fault, Apply).Some? then Effect(Err(Interrupt(fault, Apply).value), leaves, after)
        else Effect(Ok(|leaves|), leaves + [leaf], after)
  }

  function LeafOf(commitmentHex: string): Fr
    requires Decode(commitmentHex).Ok?
  {
    FromBytesModOrder(Decode(commitmentHex).value)
  }

  lemma LeafOfValue(commitmentHex: string)
    requires Decode(commitmentHex).Ok?
    ensures IsHex(commitmentHex) && LeafOf(commitmentHex) == HexValue(commitmentHex) % MODULUS
  {
    DecodedValue(commitmentHex);
  }

  predicate WellFormed(commitmentHex: string) {
    |commitmentHex| == 64 && IsHex(commitmentHex)
  }

  function HexAll(xs: seq<Fr>): (texts: seq<string>)
    ensures |texts| == |xs|
  {
    seq(|xs|, i requires 0 <= i < |xs| => ToHex(xs[i]))
  }

  function RegistrationOf(hash: Hash2, depth: nat, leaves: seq<Fr>, index: nat): Registration {
    Registration(
      index,
      ToHex(RootOf(hash, depth, leaves)),
      HexAll(ProofElements(hash, depth, leaves, index)),
      ProofIndices(depth, index))
  }

  lemma LowerIsWellFormed(commitmentHex: string)
    requires WellFormed(commitmentHex)
    ensures WellFormed(ToLower(commitmentHex)) && IsLowerHex(ToLower(commitmentHex))
    ensures Decode(ToLower(commitmentHex)).Ok?
  {}

  function RegisterSpec(
    hash: Hash2, depth: nat, leaves: seq<Fr>, tables: Tables,
    commitmentHex: string, roleCode: nat, nodeId: int, fault: Fault): Effect<Registration>
  {
    if !WellFormed(commitmentHex) then Effect(Err(InvalidCommitmentFormat), leaves, tables)
    else
      LowerIsWellFormed(commitmentHex);
      var lower := ToLower(commitmentHex);
      var leaf := LeafOf(lower);
      if |leaves| >= Capacity(depth) then Effect(Err(TreeError(TreeFull)), leaves, tables)
      else if Interrupt(fault, Begin).Some? then Effect(Err(Interrupt(fault, Begin).value), leaves, tables)
      else if Interrupt(fault, IdentityInsert).Some? then
        Effect(Err(Interrupt(fault, IdentityInsert).value), leaves, tables)
      else if HasIdentity(tables.identities, lower) then Effect(Err(DuplicateCommitment), leaves, tables)
      else
        var tx := tables.(identities := tables.identities + [IdentityRow(lower, roleCode, nodeId)]);
        var persisted := PersistSpec(tx, |leaves|, leaf, RootOf(hash, depth, leaves + [leaf]), fault);
        match CommitSpec(persisted, fault)
        case Err(e) => Effect(Err(e), leaves, tables)
        case Ok(after) =>
          if Interrupt(fault, Apply).Some? then Effect(Err(Interrupt(fault, Apply).value), leaves, after)
          else Effect(Ok(RegistrationOf(hash, depth, leaves + [leaf], |leaves|)), leaves + [leaf], after)
  }

  class Database {
    var tables: Tables

    constructor ()
      ensures tables == EMPTY_TABLES
    {
      tables := EMPTY_TABLES;
    }
  }

  method InsertAndPersist(tree: Tree, db: Database, leaf: Fr, fault: Fault) returns (r: Result<nat, IdentityError>)
    requires tree.Valid()
    modifies tree, db
    ensures tree.Valid()
    ensures Effect(r, tree.leaves, db.tables)
      == InsertSpec(tree.hash, tree.depth, old(tree.leaves), old(db.tables), leaf, fault)
  {
    hide Capacity, PersistSpec, RootOf, PathUpdates, Represents;
    var preview := tree.PreviewInsert(leaf);
    if preview.Err? {
      return Err(TreeError(preview.error));
    }
    var Preview(index, newRoot, updates) := preview.value;
    var stop := Interrupt(fault, Begin);
    if stop.Some? {
      return Err(stop.value);
    }
    var tx := PersistLeafAndRoot(db.tables, index, leaf, newRoot, fault);
    if tx.Err? {
      return Err(tx.error);
    }
    stop := Interrupt(fault, Commit);
    if stop.Some? {
      return Err(stop.value);
    }
    db.tables := tx.value;
    stop := Interrupt(fault, Apply);
    if stop.Some? {
      return Err(stop.value);
    }
    tree.ApplyUpdates(index + 1, updates, leaf);
    r := Ok(index);
  }

  method RegisterIdentity(
    tree: Tree, db: Database, commitmentHex: string, roleCode: nat, nodeId: int, fault: Fault)
    returns (r: Result<Registration, IdentityError>)
    requires tree.Valid()
    modifies tree, db
    ensures tree.Valid()
    ensures Effect(r, tree.leaves, db.tables)
      == RegisterSpec(tree.hash, tree.depth, old(tree.leaves), old(db.tables), commitmentHex, roleCode, nodeId, fault)
  {
    if |commitmentHex| != 64 || !IsHex(commitmentHex) {
      return Err(InvalidCommitmentFormat);
    }
    var lower := ToLower(commitmentHex);
    LowerIsWellFormed(commitmentHex);
    var leaf := FromBytesModOrder(Decode(lower).value);
    hide Capacity, PersistSpec, RootOf, PathUpdates, Represents, ToHex, Decode, FromBytesModOrder;
    var preview := tree.PreviewInsert(leaf);
    if preview.Err? {
      return Err(TreeError(preview.error));
    }
    var Preview(leafIndex, newRoot, updates) := preview.value;
    var stop := Interrupt(fault, Begin);
    if stop.Some? {
      return Err(stop.value);
    }
    var tx := db.tables;
    stop := Interrupt(fault, IdentityInsert);
    if stop.Some? {
      return Err(stop.value);
    }
    if HasIdentity(tx.identities, lower) {
      return Err(DuplicateCommitment);
    }
    tx := tx.(identities := tx.identities + [IdentityRow(lower, roleCode, nodeId)]);
    var persisted := PersistLeafAndRoot(tx, leafIndex, leaf, newRoot, fault);
    if persisted.Err? {
      return Err(persisted.error);
    }
    stop := Interrupt(fault, Commit);
    if stop.Some? {
      return Err(stop.value);
    }
    db.tables := persisted.value;
    stop := Interrupt(fault, Apply);
    if stop.Some? {
      return Err(stop.value);
    }
    tree.ApplyUpdates(leafIndex + 1, updates, leaf);
    var proof := tree.GetProof(leafIndex);
    r := Ok(Registration(leafIndex, ToHex(newRoot), HexAll(proof.value.elements), proof.value.indices));
  }

  // ----- restoring -----

  /** The leaves a fresh tree holds after inserting the stored rows in order. */
  function RestoreLeaves(depth: nat, rows: seq<LeafRow>): (r: Result<seq<Fr>, IdentityError>)
    ensures r.Ok? ==> |r.value| == |rows|
  {
    if rows == [] then Ok([])
    else
      match RestoreLeaves(depth, rows[..|rows| - 1])
      case Err(e) => Err(e)
      case Ok(leaves) =>
        match Decode(rows[|rows| - 1].commitmentHex)
        case Err(_) => Err(IdentityError.InvalidHex)
        case Ok(bytes) =>
          if |leaves| >= Capacity(depth) then Err(TreeError(TreeFull)) else Ok(leaves + [FromBytesModOrder(bytes)])
  }

  function RestoreSpec(hash: Hash2, depth: nat, tables: Tables): Result<seq<Fr>, IdentityError> {
    match RestoreLeaves(depth, tables.leaves)
    case Err(e) => Err(e)
    case Ok(leaves) =>
      var computed := ToHex(RootOf(hash, depth, leaves));
      match ActiveRoot(tables.roots)
      case None => Ok(leaves)
      case Some(stored) => if computed != stored then Err(MerkleRootMismatch(stored, computed)) else Ok(leaves)
  }

  method Restore(hash: Hash2, db: Database, depth: nat) returns (tree: Tree, r: Result<(), IdentityError>)
    ensures fresh(tree) && tree.Valid() && tree.hash == hash && tree.depth == depth
    ensures r.Ok? ==> RestoreSpec(hash, depth, db.tables) == Ok(tree.leaves)
    ensures r.Err? ==> RestoreSpec(hash, depth, db.tables) == Err(r.error)
  {
    hide Capacity, Represents, RootOf, ToHex, Decode, FromBytesModOrder;
    tree := new Tree(hash, depth);
    var rows := db.tables.leaves;
    for i := 0 to |rows|
      invariant fresh(tree) && tree.Valid() && tree.hash == hash && tree.depth == depth
      invariant RestoreLeaves(depth, rows[..i]) == Ok(tree.leaves)
    {
      assert rows[..i + 1][..i] == rows[..i];
      var bytes := Decode(rows[i].commitmentHex);
      if bytes.Err? {
        RestoreLeavesFails(depth, rows, i + 1, IdentityError.InvalidHex);
        return tree, Err(IdentityError.InvalidHex);
      }
      var inserted := tree.Insert(FromBytesModOrder(bytes.value));
      if inserted.Err? {
        RestoreLeavesFails(depth, rows, i + 1, TreeError(TreeFull));
        return tree, Err(TreeError(inserted.error));
      }
    }
    assert rows[..|rows|] == rows;
    var stored := ActiveRoot(db.tables.roots);
    if stored.Some? {
      var computed := ToHex(tree.Root());
      if computed != stored.value {
        return tree, Err(MerkleRootMismatch(stored.value, computed));
      }
    }
    r := Ok(());
  }

  lemma {:induction false} RestoreLeavesFails(depth: nat, rows: seq<LeafRow>, n: nat, e: IdentityError)
    requires n <= |rows| && RestoreLeaves(depth, rows[..n]) == Err(e)
    ensures RestoreLeaves(depth, rows) == Err(e)
    decreases |rows| - n
  {
    hide Capacity, Decode, FromBytesModOrder;
    if n < |rows| {
      assert rows[..n + 1][..n] == rows[..n];
      RestoreLeavesFails(depth, rows, n + 1, e);
    } else {
      assert rows[..n] == rows;
    }
  }

  lemma {:induction false} RestoreLeavesExactly(depth: nat, rows: seq<LeafRow>, leaves: seq<Fr>)
    ensures RestoreLeaves(depth, rows) == Ok(leaves) <==>
      && |leaves| == |rows| && (rows == [] || |rows| <= Capacity(depth))
      && forall i :: 0 <= i < |rows| ==>
        Decode(rows[i].commitmentHex).Ok? && leaves[i] == LeafOf(rows[i].commitmentHex)
  {
    hide Capacity, Decode, FromBytesModOrder;
    if rows != [] {
      var n := |rows| - 1;
      if |leaves| == |rows| {
        RestoreLeavesExactly(depth, rows[..n], leaves[..n]);
        assert leaves == leaves[..n] + [leaves[n]];
      }
    }
  }

  /** Restoring succeeds with exactly these leaves when every row decodes to its leaf, the rows fit, and the
      active root, if there is one, is the root of those leaves. */
  lemma RestoresExactly(hash: Hash2, depth: nat, tables: Tables, leaves: seq<Fr>)
    ensures RestoreSpec(hash, depth, tables) == Ok(leaves) <==>
      && |leaves| == |tables.leaves| && (leaves == [] || |leaves| <= Capacity(depth))
      && (forall i :: 0 <= i < |leaves| ==>
            var text := tables.leaves[i].commitmentHex;
            Decode(text).Ok? && leaves[i] == LeafOf(text))
      && ActiveRoot(tables.roots) in {None, Some(ToHex(RootOf(hash, depth, leaves)))}
  {
    hide Capacity, Decode, LeafOf, ToHex, RootOf, RestoreLeaves;
    RestoreLeavesExactly(depth, tables.leaves, leaves);
  }

  predicate Decodes(rows: seq<LeafRow>, i: nat)
    requires i < |rows|
  {
    Decode(rows[i].commitmentHex).Ok?
  }

  ghost predicate DecodeUpto(rows: seq<LeafRow>, n: nat)
    requires n <= |rows|
  {
    forall i :: 0 <= i < n ==> Decodes(rows, i)
  }

  /** Row n is the first whose text is malformed. */
  ghost predicate FirstMalformed(rows: seq<LeafRow>, n: nat) {
    n < |rows| && !Decodes(rows, n) && DecodeUpto(rows, n)
  }

  lemma DecodePrefix(rows: seq<LeafRow>, k: nat)
    requires k <= |rows|
    ensures forall n :: 0 <= n <= k ==> (DecodeUpto(rows[..k], n) <==> DecodeUpto(rows, n))
    ensures forall n :: 0 <= n < k ==> (FirstMalformed(rows[..k], n) <==> FirstMalformed(rows, n))
  {
    hide Decode;
    assert forall i :: 0 <= i < k ==> (Decodes(rows[..k], i) <==> Decodes(rows, i));
  }

  /** A malformed text is reported when it comes before the tree is over-full, a full tree when it comes first. */
  lemma {:induction false} RestoreLeavesErrors(depth: nat, rows: seq<LeafRow>)
    ensures RestoreLeaves(depth, rows) == Err(IdentityError.InvalidHex) <==>
      exists n: nat :: FirstMalformed(rows, n) && n <= Capacity(depth)
    ensures RestoreLeaves(depth, rows) == Err(TreeError(TreeFull)) <==>
      |rows| > Capacity(depth) && DecodeUpto(rows, Capacity(depth) + 1)
    ensures RestoreLeaves(depth, rows).Ok? <==> DecodeUpto(rows, |rows|) && (rows == [] || |rows| <= Capacity(depth))
    ensures RestoreLeaves(depth, rows).Err? ==>
      RestoreLeaves(depth, rows).error in {IdentityError.InvalidHex, TreeError(TreeFull)}
  {
    hide Capacity, Decode, FromBytesModOrder;
    if rows != [] {
      var n := |rows| - 1;
      RestoreLeavesErrors(depth, rows[..n]);
      DecodePrefix(rows, n);
      assert DecodeUpto(rows, n + 1) <==> DecodeUpto(rows, n) && Decodes(rows, n);
      assert FirstMalformed(rows, n) <==> DecodeUpto(rows, n) && !Decodes(rows, n);
      assert forall m: nat :: FirstMalformed(rows, m) && m < n ==> !DecodeUpto(rows, n);
    }
  }

  /** The stored values, where the texts are well formed. */
  function StoredLeaves(rows: seq<LeafRow>): (leaves: seq<Fr>)
    ensures |leaves| == |rows|
  {
    seq(|rows|, i requires 0 <= i < |rows| => if Decodes(rows, i) then LeafOf(rows[i].commitmentHex) else 0)
  }

  /** Restoring fails in three ways: at the first malformed text unless the tree is over-full before it; in a tree
      too small for the rows; and when the active root is not the root of the stored leaves, reporting both. */
  lemma RestoreFailsExactly(hash: Hash2, depth: nat, tables: Tables, stored: string, computed: string)
    ensures var r := RestoreSpec(hash, depth, tables); var rows := tables.leaves;
      && (r == Err(IdentityError.InvalidHex) <==> exists n: nat :: FirstMalformed(rows, n) && n <= Capacity(depth))
      && (r == Err(TreeError(TreeFull)) <==> |rows| > Capacity(depth) && DecodeUpto(rows, Capacity(depth) + 1))
      && (r == Err(MerkleRootMismatch(stored, computed)) <==>
            && DecodeUpto(rows, |rows|) && (rows == [] || |rows| <= Capacity(depth))
            && ActiveRoot(tables.roots) == Some(stored) && stored != computed
            && computed == ToHex(RootOf(hash, depth, StoredLeaves(rows))))
  {
    RestoreLeavesErrors(depth, tables.leaves);
    if RestoreLeaves(depth, tables.leaves).Ok? {
      RestoredAreStored(depth, tables.leaves);
    }
    hide Capacity, Decode, LeafOf, ToHex, RootOf, RestoreLeaves, FirstMalformed, DecodeUpto, StoredLeaves;
  }

  lemma RestoredAreStored(depth: nat, rows: seq<LeafRow>)
    requires RestoreLeaves(depth, rows).Ok?
    ensures RestoreLeaves(depth, rows).value == StoredLeaves(rows)
  {
    RestoreLeavesExactly(depth, rows, RestoreLeaves(depth, rows).value);
    hide Capacity, Decode, LeafOf, RestoreLeaves;
  }

  // ----- paths -----

  function PathAt(hash: Hash2, depth: nat, leaves: seq<Fr>, index: nat): Result<Registration, IdentityError> {
    if index >= |leaves| then Err(TreeError(InvalidIndex(index))) else Ok(RegistrationOf(hash, depth, leaves, index))
  }

  /** The path for a stored commitment text; the text is compared as it is, without lower-casing. */
  method GetPathForCommitment(tree: Tree, db: Database, commitmentHex: string)
    returns (r: Result<Registration, IdentityError>)
    requires tree.Valid()
    ensures (forall i :: 0 <= i < |db.tables.leaves| ==> db.tables.leaves[i].commitmentHex != commitmentHex) <==>
      r == Err(CommitmentNotFound)
    ensures r != Err(CommitmentNotFound) ==>
      exists i :: 0 <= i < |db.tables.leaves|
        && db.tables.leaves[i].commitmentHex == commitmentHex
        && r == PathAt(tree.hash, tree.depth, tree.leaves, db.tables.leaves[i].index)
  {
    hide Capacity, Represents, RootOf, ToHex;
    var rows := db.tables.leaves;
    for i := 0 to |rows|
      invariant forall k :: 0 <= k < i ==> rows[k].commitmentHex != commitmentHex
    {
      if rows[i].commitmentHex == commitmentHex {
        var proof := tree.GetProof(rows[i].index);
        if proof.Err? {
          return Err(TreeError(proof.error));
        }
        return Ok(Registration(
          rows[i].index, ToHex(tree.Root()), HexAll(proof.value.elements), proof.value.indices));
      }
    }
    r := Err(CommitmentNotFound);
  }

  /** The field elements a client reads back from a path. */
  function ReadAll(texts: seq<string>): (xs: seq<Fr>)
    requires forall i :: 0 <= i < |texts| ==> Decode(texts[i]).Ok?
    ensures |xs| == |texts|
  {
    seq(|texts|, i requires 0 <= i < |texts| => LeafOf(texts[i]))
  }

  /** The path handed out for leaf slot i, read back from its text, verifies the leaf against the root
      handed out with it. */
  lemma PathVerifies(hash: Hash2, depth: nat, leaves: seq<Fr>, i: nat)
    requires i < |leaves| <= Pow2(depth)
    ensures var path := RegistrationOf(hash, depth, leaves, i);
      && |path.pathElements| == |path.pathIndices| == depth
      && (forall l :: 0 <= l < depth ==> Decode(path.pathElements[l]).Ok?)
      && Decode(path.rootHex).Ok?
      && Climb(hash, leaves[i], ReadAll(path.pathElements), path.pathIndices, depth) == LeafOf(path.rootHex)
      && BitsValue(path.pathIndices) == path.leafIndex == i
  {
    hide ToHex, Decode, FromBytesModOrder, ProofElements, ProofIndices, RootOf, Climb;
    var path, elements := RegistrationOf(hash, depth, leaves, i), ProofElements(hash, depth, leaves, i);
    forall l | 0 <= l < depth
      ensures Decode(path.pathElements[l]).Ok? && LeafOf(path.pathElements[l]) == elements[l]
    {
      HexRoundTrip(elements[l]);
    }
    assert ReadAll(path.pathElements) == elements;
    HexRoundTrip(RootOf(hash, depth, leaves));
    ProofComplete(hash, depth, leaves, i);
  }
}
