/** Whole runs of the registry: any order of registrations, inserts, faults, crashes and restarts. */
module RegistryRuns {
  import opened ByteInts
  import opened HexText
  import opened MerkleTree
  import opened Registry
  import opened ScalarField
  import opened Wrappers

  /** `memory` is the leaves of the live tree; none while the process is down. */
  datatype World = World(memory: Option<seq<Fr>>, tables: Tables)

  datatype Event =
    | Register(commitmentHex: string, roleCode: nat, nodeId: int, fault: Fault)
    | Insert(leaf: Fr, fault: Fault)
    | Kill
    | Restart

  const START := World(None, EMPTY_TABLES)

  function After<T>(effect: Effect<T>): World {
    World(if effect.outcome == Err(Crashed) then None else Some(effect.leaves), effect.tables)
  }

  function Step(hash: Hash2, depth: nat, w: World, event: Event): World {
    match event
    case Register(commitmentHex, roleCode, nodeId, fault) =>
      if w.memory.None? then w
      else After(RegisterSpec(hash, depth, w.memory.value, w.tables, commitmentHex, roleCode, nodeId, fault))
    case Insert(leaf, fault) =>
      if w.memory.None? then w
      else After(InsertSpec(hash, depth, w.memory.value, w.tables, leaf, fault))
    case Kill => w.(memory := None)
    case Restart =>
      match RestoreSpec(hash, depth, w.tables)
      case Err(_) => w.(memory := None)
      case Ok(leaves) => w.(memory := Some(leaves))
  }

  function Run(hash: Hash2, depth: nat, w: World, events: seq<Event>): World {
    if events == [] then w
    else Step(hash, depth, Run(hash, depth, w, events[..|events| - 1]), events[|events| - 1])
  }

  /** The root after leaf i was inserted. */
  function PrefixRoot(hash: Hash2, depth: nat, leaves: seq<Fr>, i: nat): Fr
    requires i < |leaves|
  {
    RootOf(hash, depth, leaves[..i + 1])
  }

  /** Leaf i is in row i, and the roots table is the history of the roots with only the last one active. */
  ghost predicate InStep(hash: Hash2, depth: nat, leaves: seq<Fr>, tables: Tables) {
    && |tables.leaves| == |tables.roots| == |leaves| <= Capacity(depth)
    && (forall i :: 0 <= i < |leaves| ==> tables.leaves[i] == LeafRow(i, ToHex(leaves[i])))
    && (forall i :: 0 <= i < |leaves| ==>
          tables.roots[i] == RootRow(ToHex(PrefixRoot(hash, depth, leaves, i)), i == |leaves| - 1))
  }

  ghost predicate Consistent(hash: Hash2, depth: nat, w: World) {
    var restored := RestoreSpec(hash, depth, w.tables);
    && restored.Ok?
    && InStep(hash, depth, restored.value, w.tables)
    && (w.memory.Some? ==> w.memory.value == restored.value)
  }

  lemma {:induction false} InsertLeafAtEnd(rows: seq<LeafRow>, row: LeafRow)
    requires forall i :: 0 <= i < |rows| ==> rows[i].index == i
    requires row.index == |rows|
    ensures InsertLeaf(rows, row) == rows + [row]
    ensures !HasLeaf(rows, row.index)
  {}

  /** Persisting the next leaf never conflicts and keeps the tables in step with the longer tree. */
  lemma PersistKeepsStep(hash: Hash2, depth: nat, leaves: seq<Fr>, tables: Tables, leaf: Fr, fault: Fault)
    requires InStep(hash, depth, leaves, tables) && |leaves| < Capacity(depth)
    ensures var r := PersistSpec(tables, |leaves|, leaf, RootOf(hash, depth, leaves + [leaf]), fault);
      && (r.Ok? <==> fault == NoFault || fault.point !in {LeafInsert, RootDeactivate, RootInsert})
      && (r.Err? ==> r.error in {Crashed, DatabaseError})
      && (r.Ok? ==> InStep(hash, depth, leaves + [leaf], r.value) && r.value.identities == tables.identities)
  {
    hide Capacity, ToHex, RootOf, InsertLeaf;
    var n, longer := |leaves|, leaves + [leaf];
    InsertLeafAtEnd(tables.leaves, LeafRow(n, ToHex(leaf)));
    forall i | 0 <= i < n
      ensures PrefixRoot(hash, depth, longer, i) == PrefixRoot(hash, depth, leaves, i)
    {
      assert longer[..i + 1] == leaves[..i + 1];
    }
    assert longer[..n + 1] == longer;
  }

  lemma {:induction false} RestoreLeavesRecovers(depth: nat, leaves: seq<Fr>, rows: seq<LeafRow>)
    requires |rows| == |leaves| <= Capacity(depth)
    requires forall i :: 0 <= i < |leaves| ==> rows[i].commitmentHex == ToHex(leaves[i])
    ensures RestoreLeaves(depth, rows) == Ok(leaves)
  {
    hide Capacity, ToHex, Decode, FromBytesModOrder;
    if rows != [] {
      var n := |rows| - 1;
      RestoreLeavesRecovers(depth, leaves[..n], rows[..n]);
      HexRoundTrip(leaves[n]);
      assert leaves == leaves[..n] + [leaves[n]];
    }
  }

  /** Tables in step restore to their leaves: no malformed text, no full tree, no root mismatch. */
  lemma RestoreRecovers(hash: Hash2, depth: nat, leaves: seq<Fr>, tables: Tables)
    requires InStep(hash, depth, leaves, tables)
    ensures RestoreSpec(hash, depth, tables) == Ok(leaves)
  {
    RestoreLeavesRecovers(depth, leaves, tables.leaves);
    hide Capacity, ToHex, RootOf, RestoreLeaves;
    if leaves != [] {
      assert leaves[..|leaves|] == leaves;
    }
  }

  // ----- every outcome -----

  /** The fault strikes at one of the points. */
  predicate At(fault: Fault, points: set<Point>) {
    !fault.NoFault? && fault.point in points
  }

  function ErrorOf(fault: Fault): IdentityError {
    if fault.Crash? then Crashed else DatabaseError
  }

  /** The tables with one more leaf: its row last, its root the only active one, earlier roots kept. */
  function WithLeaf(tables: Tables, leaf: Fr, root: Fr): Tables {
    tables.(
      leaves := tables.leaves + [LeafRow(|tables.leaves|, ToHex(leaf))],
      roots := seq(|tables.roots|, i requires 0 <= i < |tables.roots| => RootRow(tables.roots[i].rootHex, false))
        + [RootRow(ToHex(root), true)])
  }

  lemma PersistExactly(hash: Hash2, depth: nat, leaves: seq<Fr>, tables: Tables, leaf: Fr, root: Fr, fault: Fault)
    requires InStep(hash, depth, leaves, tables)
    ensures PersistSpec(tables, |leaves|, leaf, root, fault) ==
      if At(fault, {LeafInsert, RootDeactivate, RootInsert}) then Err(ErrorOf(fault))
      else Ok(WithLeaf(tables, leaf, root))
  {
    hide ToHex, RootOf, Capacity, InsertLeaf;
    InsertLeafAtEnd(tables.leaves, LeafRow(|leaves|, ToHex(leaf)));
    assert Deactivate(tables.roots) ==
      seq(|tables.roots|, i requires 0 <= i < |tables.roots| => RootRow(tables.roots[i].rootHex, false));
  }

  /** Committing and applying, after the statements of the transaction. */
  lemma CommitExactly(persisted: Result<Tables, IdentityError>, fault: Fault)
    ensures persisted.Ok? ==>
      CommitSpec(persisted, fault) == (if At(fault, {Point.Commit}) then Err(ErrorOf(fault)) else persisted)
    ensures persisted.Err? ==> CommitSpec(persisted, fault) == persisted
    ensures Interrupt(fault, Apply).Some? <==> fault == Crash(Apply)
    ensures Interrupt(fault, Begin).Some? <==> At(fault, {Begin})
    ensures Interrupt(fault, IdentityInsert).Some? <==> At(fault, {IdentityInsert})
    ensures forall point :: Interrupt(fault, point).Some? ==> Interrupt(fault, point).value == ErrorOf(fault)
  {}

  /** An insert over tables in step, for every fault. */
  lemma InsertExactly(hash: Hash2, depth: nat, leaves: seq<Fr>, tables: Tables, leaf: Fr, fault: Fault)
    requires InStep(hash, depth, leaves, tables)
    ensures InsertSpec(hash, depth, leaves, tables, leaf, fault) ==
      if |leaves| >= Capacity(depth) then Effect(Err(TreeError(TreeFull)), leaves, tables)
      else if At(fault, {Begin, LeafInsert, RootDeactivate, RootInsert, Point.Commit}) then
        Effect(Err(ErrorOf(fault)), leaves, tables)
      else
        var stored := WithLeaf(tables, leaf, RootOf(hash, depth, leaves + [leaf]));
        if fault == Crash(Apply) then Effect(Err(Crashed), leaves, stored)
        else Effect(Ok(|leaves|), leaves + [leaf], stored)
  {
    var root := RootOf(hash, depth, leaves + [leaf]);
    PersistExactly(hash, depth, leaves, tables, leaf, root, fault);
    CommitExactly(PersistSpec(tables, |leaves|, leaf, root, fault), fault);
    hide InStep, PersistSpec, CommitSpec, Interrupt, RootOf, Capacity, WithLeaf;
  }

  const HEX_DIGITS := "0123456789abcdefABCDEF"

  /** 64 hexadecimal digits of either case. */
  predicate IsCommitment(text: string) {
    |text| == 64 && forall i :: 0 <= i < 64 ==> text[i] in HEX_DIGITS
  }

  lemma IsCommitmentExactly(text: string)
    ensures IsCommitment(text) <==> WellFormed(text)
  {
    forall c: char
      ensures c in HEX_DIGITS <==> DigitOf(c) >= 0
    {
      HexDigitExactly(c);
    }
  }

  lemma HexDigitExactly(c: char)
    ensures c in HEX_DIGITS <==> DigitOf(c) >= 0
  {
    assert c in HEX_DIGITS <==> '0' <= c <= '9' || 'a' <= c <= 'f' || 'A' <= c <= 'F' by {
      if '0' <= c <= '9' {
        assert HEX_DIGITS[c as int - '0' as int] == c;
      } else if 'a' <= c <= 'f' {
        assert HEX_DIGITS[c as int - 'a' as int + 10] == c;
      } else if 'A' <= c <= 'F' {
        assert HEX_DIGITS[c as int - 'A' as int + 16] == c;
      }
    }
  }

  /** Some identity row has the text. */
  ghost predicate Taken(tables: Tables, text: string) {
    exists i :: 0 <= i < |tables.identities| && tables.identities[i].commitmentHex == text
  }

  /** A registration over tables in step, for every text and every fault, in the order of its checks. */
  lemma RegisterExactly(
    hash: Hash2, depth: nat, leaves: seq<Fr>, tables: Tables,
    commitmentHex: string, roleCode: nat, nodeId: int, fault: Fault)
    requires InStep(hash, depth, leaves, tables)
    ensures IsCommitment(commitmentHex) ==> Decode(ToLower(commitmentHex)).Ok?
    ensures RegisterSpec(hash, depth, leaves, tables, commitmentHex, roleCode, nodeId, fault) ==
      if !IsCommitment(commitmentHex) then Effect(Err(InvalidCommitmentFormat), leaves, tables)
      else if |leaves| >= Capacity(depth) then Effect(Err(TreeError(TreeFull)), leaves, tables)
      else if At(fault, {Begin, IdentityInsert}) then Effect(Err(ErrorOf(fault)), leaves, tables)
      else if Taken(tables, ToLower(commitmentHex)) then Effect(Err(DuplicateCommitment), leaves, tables)
      else if At(fault, {LeafInsert, RootDeactivate, RootInsert, Point.Commit}) then
        Effect(Err(ErrorOf(fault)), leaves, tables)
      else
        var lower := ToLower(commitmentHex);
        var longer := leaves + [LeafOf(lower)];
        var identified := tables.(identities := tables.identities + [IdentityRow(lower, roleCode, nodeId)]);
        var stored := WithLeaf(identified, LeafOf(lower), RootOf(hash, depth, longer));
        if fault == Crash(Apply) then Effect(Err(Crashed), leaves, stored)
        else Effect(Ok(RegistrationOf(hash, depth, longer, |leaves|)), longer, stored)
  {
    IsCommitmentExactly(commitmentHex);
    if WellFormed(commitmentHex) {
      LowerIsWellFormed(commitmentHex);
      var lower := ToLower(commitmentHex);
      var longer := leaves + [LeafOf(lower)];
      var identified := tables.(identities := tables.identities + [IdentityRow(lower, roleCode, nodeId)]);
      assert InStep(hash, depth, leaves, identified);
      PersistExactly(hash, depth, leaves, identified, LeafOf(lower), RootOf(hash, depth, longer), fault);
      CommitExactly(PersistSpec(identified, |leaves|, LeafOf(lower), RootOf(hash, depth, longer), fault), fault);
      TakenIsHas(tables, lower);
    }
    hide InStep, PersistSpec, CommitSpec, Interrupt, RootOf, Capacity, WithLeaf, HasIdentity, Taken, WellFormed,
      IsCommitment, RegistrationOf, LeafOf, Decode, ToLower;
  }

  lemma TakenIsHas(tables: Tables, text: string)
    ensures Taken(tables, text) <==> HasIdentity(tables.identities, text)
  {}

  /** Without a fault, a commitment is registered exactly when it is well formed, the tree has room and no
      identity has its lower-case text, and refused as a duplicate exactly when one has. */
  lemma RegistersExactly(
    hash: Hash2, depth: nat, leaves: seq<Fr>, tables: Tables, commitmentHex: string, roleCode: nat, nodeId: int)
    requires InStep(hash, depth, leaves, tables)
    ensures var r := RegisterSpec(hash, depth, leaves, tables, commitmentHex, roleCode, nodeId, NoFault).outcome;
      var lower := ToLower(commitmentHex);
      && (r.Ok? <==>
            && IsCommitment(commitmentHex) && |leaves| < Capacity(depth)
            && (forall i :: 0 <= i < |tables.identities| ==> tables.identities[i].commitmentHex != lower))
      && (r == Err(DuplicateCommitment) <==>
            && IsCommitment(commitmentHex) && |leaves| < Capacity(depth)
            && (exists i :: 0 <= i < |tables.identities| && tables.identities[i].commitmentHex == lower))
  {
    RegisterExactly(hash, depth, leaves, tables, commitmentHex, roleCode, nodeId, NoFault);
    hide InStep, RegisterSpec, RootOf, Capacity, WithLeaf, IsCommitment, RegistrationOf, LeafOf, Decode, ToLower;
  }

  /** Nothing was stored and the call failed. */
  ghost predicate Unchanged<T>(hash: Hash2, depth: nat, before: seq<Fr>, effect: Effect<T>) {
    InStep(hash, depth, before, effect.tables) && effect.leaves == before && effect.outcome.Err?
  }

  /** One leaf was stored, and it is in the tree too unless the process died in between. */
  ghost predicate Appended<T>(hash: Hash2, depth: nat, before: seq<Fr>, effect: Effect<T>, leaf: Fr) {
    && InStep(hash, depth, before + [leaf], effect.tables)
    && if effect.outcome.Ok? then effect.leaves == before + [leaf] else effect.outcome == Err(Crashed)
  }

  ghost predicate KeepsStep<T>(hash: Hash2, depth: nat, before: seq<Fr>, effect: Effect<T>) {
    Unchanged(hash, depth, before, effect) || exists leaf :: Appended(hash, depth, before, effect, leaf)
  }

  lemma InsertKeepsStep(hash: Hash2, depth: nat, leaves: seq<Fr>, tables: Tables, leaf: Fr, fault: Fault)
    requires InStep(hash, depth, leaves, tables)
    ensures KeepsStep(hash, depth, leaves, InsertSpec(hash, depth, leaves, tables, leaf, fault))
  {
    var effect := InsertSpec(hash, depth, leaves, tables, leaf, fault);
    if |leaves| < Capacity(depth) {
      PersistKeepsStep(hash, depth, leaves, tables, leaf, fault);
    }
    assert Unchanged(hash, depth, leaves, effect) || Appended(hash, depth, leaves, effect, leaf);
    hide InStep, PersistSpec, RootOf, Capacity;
  }

  lemma RegisterKeepsStep(
    hash: Hash2, depth: nat, leaves: seq<Fr>, tables: Tables,
    commitmentHex: string, roleCode: nat, nodeId: int, fault: Fault)
    requires InStep(hash, depth, leaves, tables)
    ensures KeepsStep(hash, depth, leaves,
      RegisterSpec(hash, depth, leaves, tables, commitmentHex, roleCode, nodeId, fault))
  {
    var effect := RegisterSpec(hash, depth, leaves, tables, commitmentHex, roleCode, nodeId, fault);
    RegisterOutcomes(hash, depth, leaves, tables, commitmentHex, roleCode, nodeId, fault);
    if Stores(effect, leaves, tables) {
      LowerIsWellFormed(commitmentHex);
      var lower := ToLower(commitmentHex);
      var tx := tables.(identities := tables.identities + [IdentityRow(lower, roleCode, nodeId)]);
      assert InStep(hash, depth, leaves, tx);
      PersistKeepsStep(hash, depth, leaves, tx, LeafOf(lower), fault);
      hide InStep, PersistSpec, RootOf, Capacity, LeafOf, RegisterSpec;
      assert Appended(hash, depth, leaves, effect, LeafOf(lower));
    } else {
      hide RegisterSpec;
      assert Unchanged(hash, depth, leaves, effect);
    }
  }

  /** The call reached its commit. */
  ghost predicate Stores<T>(effect: Effect<T>, leaves: seq<Fr>, tables: Tables) {
    !(effect.tables == tables && effect.leaves == leaves && effect.outcome.Err?)
  }

  lemma RegisterOutcomes(
    hash: Hash2, depth: nat, leaves: seq<Fr>, tables: Tables,
    commitmentHex: string, roleCode: nat, nodeId: int, fault: Fault)
    ensures var effect := RegisterSpec(hash, depth, leaves, tables, commitmentHex, roleCode, nodeId, fault);
      Stores(effect, leaves, tables) ==>
        && WellFormed(commitmentHex) && |leaves| < Capacity(depth)
        && var lower := ToLower(commitmentHex);
        && Decode(lower).Ok?
        && !HasIdentity(tables.identities, lower)
        && var leaf := LeafOf(lower);
        && var tx := tables.(identities := tables.identities + [IdentityRow(lower, roleCode, nodeId)]);
        && PersistSpec(tx, |leaves|, leaf, RootOf(hash, depth, leaves + [leaf]), fault) == Ok(effect.tables)
        && if effect.outcome.Ok? then effect.leaves == leaves + [leaf] else effect.outcome == Err(Crashed)
  {
    if WellFormed(commitmentHex) {
      LowerIsWellFormed(commitmentHex);
    }
    hide Stores, PersistSpec, RootOf, Capacity, RegistrationOf, HasIdentity, FromBytesModOrder;
    StoresUnfold(RegisterSpec(hash, depth, leaves, tables, commitmentHex, roleCode, nodeId, fault), leaves, tables);
  }

  lemma StoresUnfold<T>(effect: Effect<T>, leaves: seq<Fr>, tables: Tables)
    ensures Stores(effect, leaves, tables) <==>
      !(effect.tables == tables && effect.leaves == leaves && effect.outcome.Err?)
  {}

  lemma StepKeepsConsistent(hash: Hash2, depth: nat, w: World, event: Event)
    requires Consistent(hash, depth, w)
    ensures Consistent(hash, depth, Step(hash, depth, w, event))
    ensures RestoreSpec(hash, depth, w.tables).value
      <= RestoreSpec(hash, depth, Step(hash, depth, w, event).tables).value
  {
    hide InStep, RestoreSpec, RegisterSpec, InsertSpec;
    var leaves := RestoreSpec(hash, depth, w.tables).value;
    match event
    case Register(commitmentHex, roleCode, nodeId, fault) =>
      if w.memory.Some? {
        RegisterKeepsStep(hash, depth, leaves, w.tables, commitmentHex, roleCode, nodeId, fault);
        EffectKeepsConsistent(hash, depth, leaves,
          RegisterSpec(hash, depth, leaves, w.tables, commitmentHex, roleCode, nodeId, fault));
      }
    case Insert(leaf, fault) =>
      if w.memory.Some? {
        InsertKeepsStep(hash, depth, leaves, w.tables, leaf, fault);
        EffectKeepsConsistent(hash, depth, leaves, InsertSpec(hash, depth, leaves, w.tables, leaf, fault));
      }
    case Kill =>
    case Restart =>
  }

  lemma EffectKeepsConsistent<T>(hash: Hash2, depth: nat, leaves: seq<Fr>, effect: Effect<T>)
    requires KeepsStep(hash, depth, leaves, effect)
    ensures Consistent(hash, depth, After(effect))
    ensures leaves <= RestoreSpec(hash, depth, effect.tables).value
  {
    hide InStep, RestoreSpec;
    if Unchanged(hash, depth, leaves, effect) {
      RestoreRecovers(hash, depth, leaves, effect.tables);
    } else {
      var leaf :| Appended(hash, depth, leaves, effect, leaf);
      RestoreRecovers(hash, depth, leaves + [leaf], effect.tables);
    }
  }

  /** The path, read back from its text, verifies the commitment's value against the active root. */
  ghost predicate Verifies(hash: Hash2, depth: nat, tables: Tables, text: string, path: Registration) {
    && |path.pathElements| == |path.pathIndices| == depth
    && (forall l :: 0 <= l < depth ==> Decode(path.pathElements[l]).Ok?)
    && Decode(text).Ok? && Decode(path.rootHex).Ok?
    && ActiveRoot(tables.roots) == Some(path.rootHex)
    && Climb(hash, LeafOf(text), ReadAll(path.pathElements), path.pathIndices, depth) == LeafOf(path.rootHex)
  }

  /** An acknowledged registration took the next leaf slot, its root is the active one, and the path it
      returned verifies the commitment's value against that root. */
  lemma RegisteredPathVerifies(
    hash: Hash2, depth: nat, leaves: seq<Fr>, tables: Tables,
    commitmentHex: string, roleCode: nat, nodeId: int, fault: Fault)
    requires InStep(hash, depth, leaves, tables)
    ensures var effect := RegisterSpec(hash, depth, leaves, tables, commitmentHex, roleCode, nodeId, fault);
      effect.outcome.Ok? ==>
        var path := effect.outcome.value;
        && path.leafIndex == BitsValue(path.pathIndices) == |leaves|
        && Verifies(hash, depth, effect.tables, ToLower(commitmentHex), path)
  {
    var effect := RegisterSpec(hash, depth, leaves, tables, commitmentHex, roleCode, nodeId, fault);
    if effect.outcome.Ok? {
      RegisterOutcomes(hash, depth, leaves, tables, commitmentHex, roleCode, nodeId, fault);
      RegisterReturns(hash, depth, leaves, tables, commitmentHex, roleCode, nodeId, fault);
      CapacityFits(depth);
      var longer := leaves + [LeafOf(ToLower(commitmentHex))];
      PathVerifies(hash, depth, longer, |leaves|);
      hide RegisterSpec, InStep, Capacity, ToHex, RootOf, Decode, Climb, HexAll, ToLower;
      PersistActivates(
        tables.(identities := tables.identities + [IdentityRow(ToLower(commitmentHex), roleCode, nodeId)]),
        |leaves|, LeafOf(ToLower(commitmentHex)), RootOf(hash, depth, longer), fault);
    }
  }

  /** The path looked up for any stored text verifies the text's value against the active root. */
  lemma LookedUpPathVerifies(hash: Hash2, depth: nat, leaves: seq<Fr>, tables: Tables, k: nat)
    requires InStep(hash, depth, leaves, tables) && k < |leaves|
    ensures var text := tables.leaves[k].commitmentHex;
      var path := RegistrationOf(hash, depth, leaves, k);
      && PathAt(hash, depth, leaves, tables.leaves[k].index) == Ok(path)
      && Verifies(hash, depth, tables, text, path)
  {
    hide Capacity, ToHex, Decode, FromBytesModOrder, RootOf, Climb, HexAll, ProofIndices;
    CapacityFits(depth);
    PathVerifies(hash, depth, leaves, k);
    HexRoundTrip(leaves[k]);
    assert leaves[..|leaves|] == leaves;
  }

  lemma PersistActivates(tables: Tables, index: nat, leaf: Fr, root: Fr, fault: Fault)
    ensures var r := PersistSpec(tables, index, leaf, root, fault);
      r.Ok? ==> ActiveRoot(r.value.roots) == Some(ToHex(root))
  {
    hide ToHex, InsertLeaf;
  }

  lemma RegisterReturns(
    hash: Hash2, depth: nat, leaves: seq<Fr>, tables: Tables,
    commitmentHex: string, roleCode: nat, nodeId: int, fault: Fault)
    ensures var effect := RegisterSpec(hash, depth, leaves, tables, commitmentHex, roleCode, nodeId, fault);
      effect.outcome.Ok? ==>
        effect.outcome.value == RegistrationOf(hash, depth, effect.leaves, |leaves|) && effect.leaves != leaves
  {
    hide PersistSpec, RootOf, Capacity, RegistrationOf, HasIdentity, LeafOf, Decode;
  }

  /** Over any run from an empty database, `restore` succeeds on the tables and gives exactly the live tree's
      leaves; rows are numbered 0..n-1; and at most one root is active, the root of all stored leaves. */
  lemma {:induction false} RunsStayConsistent(hash: Hash2, depth: nat, events: seq<Event>)
    ensures var w := Run(hash, depth, START, events);
      var restored := RestoreSpec(hash, depth, w.tables);
      && Consistent(hash, depth, w)
      && restored.Ok?
      && (w.memory.Some? ==> restored == Ok(w.memory.value))
      && (forall i :: 0 <= i < |w.tables.leaves| ==> w.tables.leaves[i].index == i)
      && (forall i, j :: 0 <= i < j < |w.tables.roots| ==> !(w.tables.roots[i].active && w.tables.roots[j].active))
      && ActiveRoot(w.tables.roots)
        == if restored.value == [] then None else Some(ToHex(RootOf(hash, depth, restored.value)))
  {
    hide ToHex, RootOf;
    var w := Run(hash, depth, START, events);
    if events == [] {
      assert InStep(hash, depth, [], EMPTY_TABLES);
      RestoreRecovers(hash, depth, [], EMPTY_TABLES);
    } else {
      hide InStep, RestoreSpec, Step;
      RunsStayConsistent(hash, depth, events[..|events| - 1]);
      StepKeepsConsistent(hash, depth, Run(hash, depth, START, events[..|events| - 1]), events[|events| - 1]);
    }
    ConsistentTables(hash, depth, w);
  }

  lemma ConsistentTables(hash: Hash2, depth: nat, w: World)
    requires Consistent(hash, depth, w)
    ensures forall i :: 0 <= i < |w.tables.leaves| ==> w.tables.leaves[i].index == i
    ensures forall i, j :: 0 <= i < j < |w.tables.roots| ==> !(w.tables.roots[i].active && w.tables.roots[j].active)
    ensures var leaves := RestoreSpec(hash, depth, w.tables).value;
      ActiveRoot(w.tables.roots) == if leaves == [] then None else Some(ToHex(RootOf(hash, depth, leaves)))
  {
    hide ToHex, RootOf, RestoreSpec, Capacity;
    var leaves := RestoreSpec(hash, depth, w.tables).value;
    if leaves != [] {
      assert leaves[..|leaves|] == leaves;
    }
  }

  lemma {:induction false} RunsOnlyAppend(hash: Hash2, depth: nat, w: World, events: seq<Event>)
    requires Consistent(hash, depth, w)
    ensures Consistent(hash, depth, Run(hash, depth, w, events))
    ensures RestoreSpec(hash, depth, w.tables).value
      <= RestoreSpec(hash, depth, Run(hash, depth, w, events).tables).value
  {
    hide Consistent, RestoreSpec, Step;
    if events != [] {
      var before := Run(hash, depth, w, events[..|events| - 1]);
      RunsOnlyAppend(hash, depth, w, events[..|events| - 1]);
      StepKeepsConsistent(hash, depth, before, events[|events| - 1]);
      ConsistentRestores(hash, depth, w);
      ConsistentRestores(hash, depth, before);
      ConsistentRestores(hash, depth, Step(hash, depth, before, events[|events| - 1]));
    }
  }

  lemma ConsistentRestores(hash: Hash2, depth: nat, w: World)
    requires Consistent(hash, depth, w)
    ensures RestoreSpec(hash, depth, w.tables).Ok?
  {
    hide InStep, RestoreSpec;
  }

  // ----- identities and leaves -----

  /** Identity row i is a distinct lower-case commitment, and leaf row i is its value, reduced. */
  ghost predicate Matched(tables: Tables) {
    && |tables.identities| == |tables.leaves|
    && (forall i :: 0 <= i < |tables.identities| ==>
          var text := tables.identities[i].commitmentHex;
          WellFormed(text) && IsLowerHex(text) && tables.leaves[i].commitmentHex == ToHex(LeafOf(text)))
    && (forall i, j :: 0 <= i < j < |tables.identities| ==>
          tables.identities[i].commitmentHex != tables.identities[j].commitmentHex)
  }

  lemma RegisterKeepsMatched(
    hash: Hash2, depth: nat, leaves: seq<Fr>, tables: Tables,
    commitmentHex: string, roleCode: nat, nodeId: int, fault: Fault)
    requires InStep(hash, depth, leaves, tables) && Matched(tables)
    ensures Matched(RegisterSpec(hash, depth, leaves, tables, commitmentHex, roleCode, nodeId, fault).tables)
  {
    var effect := RegisterSpec(hash, depth, leaves, tables, commitmentHex, roleCode, nodeId, fault);
    RegisterOutcomes(hash, depth, leaves, tables, commitmentHex, roleCode, nodeId, fault);
    hide RegisterSpec, ToHex, LeafOf, RootOf, Decode, Capacity, IsHex, ToLower;
    if Stores(effect, leaves, tables) {
      LowerIsWellFormed(commitmentHex);
      var lower := ToLower(commitmentHex);
      InsertLeafAtEnd(tables.leaves, LeafRow(|leaves|, ToHex(LeafOf(lower))));
      assert effect.tables.leaves == tables.leaves + [LeafRow(|leaves|, ToHex(LeafOf(lower)))];
      assert effect.tables.identities == tables.identities + [IdentityRow(lower, roleCode, nodeId)];
    }
  }

  /** In a run whose leaves all come from registrations, identities and leaves correspond row by row. */
  lemma {:induction false} RunsStayMatched(hash: Hash2, depth: nat, events: seq<Event>)
    requires forall e :: e in events ==> !e.Insert?
    ensures Matched(Run(hash, depth, START, events).tables)
  {
    if events == [] {
      assert Run(hash, depth, START, events) == START;
    } else {
      var n := |events| - 1;
      var before := Run(hash, depth, START, events[..n]);
      RunsStayMatched(hash, depth, events[..n]);
      RunsStayConsistent(hash, depth, events[..n]);
      hide Matched, InStep, RegisterSpec, RestoreSpec, ToHex, RootOf;
      if events[n].Register? && before.memory.Some? {
        RegisterKeepsMatched(hash, depth, before.memory.value, before.tables,
          events[n].commitmentHex, events[n].roleCode, events[n].nodeId, events[n].fault);
      }
      assert !events[n].Insert?;
    }
  }

  /** Lower case and below the field modulus. */
  predicate Canonical(text: string) {
    IsLowerHex(text) && Decode(text).Ok? && BigEndian(Decode(text).value) < MODULUS
  }

  /** `get_path_for_commitment` finds the text in the leaves table. */
  ghost predicate Found(tables: Tables, text: string) {
    exists k :: 0 <= k < |tables.leaves| && tables.leaves[k].commitmentHex == text
  }

  /** Any spelling of a registered commitment is found again exactly when it is written in lower case and its
      value is below the field modulus: registration lower-cases and reduces, the lookup does neither. */
  lemma LookupFindsExactly(tables: Tables, i: nat, text: string)
    requires Matched(tables) && i < |tables.identities|
    requires WellFormed(text) && ToLower(text) == tables.identities[i].commitmentHex
    ensures Found(tables, text) <==> Canonical(text)
  {
    LowerIsFixed(text);
    CanonicalIsLower(text);
    hide Canonical, ToHex, LeafOf, Decode, WellFormed;
    if Found(tables, text) {
      var k :| 0 <= k < |tables.leaves| && tables.leaves[k].commitmentHex == text;
      var value := LeafOf(tables.identities[k].commitmentHex);
      assert text == ToHex(value);
      CanonicalOfValue(value);
    }
    if Canonical(text) {
      CanonicalText(text);
      assert tables.leaves[i].commitmentHex == text;
    }
  }

  /** Lower-case text of 32 bytes below the modulus is the text of its own field element. */
  lemma CanonicalText(text: string)
    requires WellFormed(text) && Canonical(text)
    ensures ToHex(LeafOf(text)) == text
  {
    var bytes := Decode(text).value;
    LowerIsFixed(text);
    EncodeDecode(text);
    ToBigEndianOfBigEndian(bytes);
    ReducedExactly(bytes);
    assert |bytes| == 32;
    hide BigEndian, ToBigEndian, Encode, Decode, FromBytesModOrder;
    ToBytesUnfold(LeafOf(text));
  }

  // ----- duplicates over whole runs -----

  /** Event n is a registration that added an identity, acknowledged or not. */
  ghost predicate StoredAt(hash: Hash2, depth: nat, events: seq<Event>, n: nat)
    requires n < |events|
  {
    && events[n].Register?
    && Run(hash, depth, START, events[..n]).tables.identities
      != Run(hash, depth, START, events[..n + 1]).tables.identities
  }

  /** Some event of the run stored a registration whose text reads `lower` in lower case. */
  ghost predicate StoredBefore(hash: Hash2, depth: nat, events: seq<Event>, lower: string) {
    exists n :: 0 <= n < |events| && StoredAt(hash, depth, events, n) && ToLower(events[n].commitmentHex) == lower
  }

  lemma StoredBeforeStep(hash: Hash2, depth: nat, events: seq<Event>, lower: string)
    requires events != []
    ensures var n := |events| - 1;
      StoredBefore(hash, depth, events, lower) <==>
        || StoredBefore(hash, depth, events[..n], lower)
        || (StoredAt(hash, depth, events, n) && ToLower(events[n].commitmentHex) == lower)
  {
    hide Run, ToLower;
    var n := |events| - 1;
    forall i | 0 <= i < n
      ensures StoredAt(hash, depth, events[..n], i) <==> StoredAt(hash, depth, events, i)
    {
      assert events[..n][..i] == events[..i] && events[..n][..i + 1] == events[..i + 1];
    }
  }

  /** A step leaves the identities alone, or is a registration that adds its own lower-case text. */
  lemma StepIdentities(hash: Hash2, depth: nat, w: World, event: Event)
    requires Consistent(hash, depth, w)
    ensures var before, after := w.tables.identities, Step(hash, depth, w, event).tables.identities;
      after == before || (event.Register?
        && after == before + [IdentityRow(ToLower(event.commitmentHex), event.roleCode, event.nodeId)])
  {
    hide InStep, RestoreSpec, RegisterSpec, InsertSpec, ToHex, RootOf, Capacity, IsCommitment, LeafOf, RegistrationOf,
      ToLower, Decode;
    if w.memory.Some? {
      var leaves := w.memory.value;
      match event
      case Register(commitmentHex, roleCode, nodeId, fault) =>
        RegisterExactly(hash, depth, leaves, w.tables, commitmentHex, roleCode, nodeId, fault);
      case Insert(leaf, fault) => InsertExactly(hash, depth, leaves, w.tables, leaf, fault);
      case Kill =>
      case Restart =>
    }
  }

  /** The identities of a run are the registrations it stored, in lower case. */
  lemma {:induction false} IdentitiesAreStored(hash: Hash2, depth: nat, events: seq<Event>, lower: string)
    ensures Taken(Run(hash, depth, START, events).tables, lower) <==> StoredBefore(hash, depth, events, lower)
  {
    hide Step, ToLower, StoredBefore;
    if events == [] {
      NothingStored(hash, depth, lower);
    } else {
      var n := |events| - 1;
      var before := Run(hash, depth, START, events[..n]);
      IdentitiesAreStored(hash, depth, events[..n], lower);
      StoredBeforeStep(hash, depth, events, lower);
      RunConsistent(hash, depth, events[..n]);
      hide Consistent;
      StepIdentities(hash, depth, before, events[n]);
      assert events[..n + 1] == events;
      TakenStep(before.tables, Step(hash, depth, before, events[n]).tables, lower);
    }
  }

  lemma NothingStored(hash: Hash2, depth: nat, lower: string)
    ensures !StoredBefore(hash, depth, [], lower)
  {}

  lemma TakenStep(before: Tables, after: Tables, lower: string)
    ensures before.identities == after.identities ==> (Taken(before, lower) <==> Taken(after, lower))
    ensures forall row :: after.identities == before.identities + [row] ==>
      (Taken(after, lower) <==> Taken(before, lower) || row.commitmentHex == lower)
  {
    forall row | after.identities == before.identities + [row]
      ensures Taken(after, lower) <==> Taken(before, lower) || row.commitmentHex == lower
    {
      var n := |before.identities|;
      assert after.identities[n] == row;
      assert forall i :: 0 <= i < n ==> after.identities[i] == before.identities[i];
    }
  }

  /** After any run with any faults, crashes and restarts, while the process is up: a commitment is refused as a
      duplicate exactly when an earlier stored registration spelled it alike up to letter case, and otherwise,
      well formed and with room in the tree, it is registered. */
  lemma RefusedExactly(
    hash: Hash2, depth: nat, events: seq<Event>, commitmentHex: string, roleCode: nat, nodeId: int)
    requires Run(hash, depth, START, events).memory.Some?
    ensures var w := Run(hash, depth, START, events);
      var r := RegisterSpec(hash, depth, w.memory.value, w.tables, commitmentHex, roleCode, nodeId, NoFault).outcome;
      var fits := IsCommitment(commitmentHex) && |w.tables.leaves| < Capacity(depth);
      var stored := StoredBefore(hash, depth, events, ToLower(commitmentHex));
      && (r == Err(DuplicateCommitment) <==> fits && stored)
      && (r.Ok? <==> fits && !stored)
  {
    hide RestoreSpec, RegisterSpec, IsCommitment, ToLower, Capacity, StoredBefore, Run, RootOf, ToHex;
    var w := Run(hash, depth, START, events);
    RunConsistent(hash, depth, events);
    RegistersExactly(hash, depth, w.memory.value, w.tables, commitmentHex, roleCode, nodeId);
    IdentitiesAreStored(hash, depth, events, ToLower(commitmentHex));
  }

  /** A restart always brings the process up, with the leaves of the tables. */
  lemma RestartRecovers(hash: Hash2, depth: nat, events: seq<Event>)
    ensures var w := Run(hash, depth, START, events);
      var up := Run(hash, depth, START, events + [Restart]);
      && up.memory.Some? && up.tables == w.tables && |up.memory.value| == |w.tables.leaves|
      && (forall i :: 0 <= i < |w.tables.leaves| ==>
            w.tables.leaves[i].commitmentHex == ToHex(up.memory.value[i]))
  {
    hide RestoreSpec, ToHex, RootOf, Capacity;
    RunConsistent(hash, depth, events);
    assert (events + [Restart])[..|events|] == events;
  }

  // ----- from an acknowledged registration to any later lookup -----

  lemma {:induction false} RunConcat(hash: Hash2, depth: nat, w: World, first: seq<Event>, rest: seq<Event>)
    ensures Run(hash, depth, w, first + rest) == Run(hash, depth, Run(hash, depth, w, first), rest)
  {
    hide Step;
    if rest == [] {
      assert first + rest == first;
    } else {
      var n := |rest| - 1;
      RunConcat(hash, depth, w, first, rest[..n]);
      assert (first + rest)[..|first + rest| - 1] == first + rest[..n];
    }
  }

  /** Event n is a registration that the caller saw succeed. */
  ghost predicate Acknowledged(hash: Hash2, depth: nat, events: seq<Event>, n: nat)
    requires n < |events|
  {
    && events[n].Register?
    && var w := Run(hash, depth, START, events[..n]);
    && w.memory.Some?
    && RegisterSpec(hash, depth, w.memory.value, w.tables, events[n].commitmentHex, events[n].roleCode,
         events[n].nodeId, events[n].fault).outcome.Ok?
  }

  /** The leaf slot an acknowledged registration took. */
  ghost function SlotOf(hash: Hash2, depth: nat, events: seq<Event>, n: nat): nat
    requires n < |events| && Acknowledged(hash, depth, events, n)
  {
    |Run(hash, depth, START, events[..n]).memory.value|
  }

  /** Right after the registration its value is in the slot it took. */
  lemma AcknowledgedIsStored(hash: Hash2, depth: nat, events: seq<Event>, n: nat)
    requires n < |events| && Acknowledged(hash, depth, events, n)
    ensures WellFormed(events[n].commitmentHex) && Decode(ToLower(events[n].commitmentHex)).Ok?
    ensures var w := Run(hash, depth, START, events[..n + 1]);
      var slot := SlotOf(hash, depth, events, n);
      && w.memory.Some? && slot < |w.memory.value|
      && w.memory.value[slot] == LeafOf(ToLower(events[n].commitmentHex))
  {
    var before, e := Run(hash, depth, START, events[..n]), events[n];
    RegisterOutcomes(hash, depth, before.memory.value, before.tables, e.commitmentHex, e.roleCode, e.nodeId, e.fault);
    RegisterReturns(hash, depth, before.memory.value, before.tables, e.commitmentHex, e.roleCode, e.nodeId, e.fault);
    hide RegisterSpec, RootOf, PersistSpec, Decode, Capacity, HasIdentity, RegistrationOf;
    assert events[..n + 1][..n] == events[..n] && events[..n + 1][n] == e;
  }

  /** Later events leave a stored leaf in its slot, in the tables and in the live tree. */
  lemma SlotStays(hash: Hash2, depth: nat, w: World, events: seq<Event>, slot: nat)
    requires Consistent(hash, depth, w) && w.memory.Some? && slot < |w.memory.value|
    ensures var later := Run(hash, depth, w, events);
      && slot < |later.tables.leaves|
      && later.tables.leaves[slot] == LeafRow(slot, ToHex(w.memory.value[slot]))
      && (later.memory.Some? ==>
            slot < |later.memory.value| && later.memory.value[slot] == w.memory.value[slot])
  {
    hide Run, RestoreSpec, ToHex, RootOf, Capacity;
    RunsOnlyAppend(hash, depth, w, events);
    var leaves := RestoreSpec(hash, depth, Run(hash, depth, w, events).tables).value;
    assert leaves[slot] == w.memory.value[slot];
  }

  lemma RunConsistent(hash: Hash2, depth: nat, events: seq<Event>)
    ensures Consistent(hash, depth, Run(hash, depth, START, events))
  {
    hide *;
    RunsStayConsistent(hash, depth, events);
  }

  /** Its value stays in that slot, in the tables and in every later live tree. */
  lemma AcknowledgedStays(hash: Hash2, depth: nat, events: seq<Event>, n: nat)
    requires n < |events| && Acknowledged(hash, depth, events, n)
    ensures WellFormed(events[n].commitmentHex) && Decode(ToLower(events[n].commitmentHex)).Ok?
    ensures var w := Run(hash, depth, START, events);
      var leaf, slot := LeafOf(ToLower(events[n].commitmentHex)), SlotOf(hash, depth, events, n);
      && slot < |w.tables.leaves|
      && w.tables.leaves[slot] == LeafRow(slot, ToHex(leaf))
      && (w.memory.Some? ==> slot < |w.memory.value| && w.memory.value[slot] == leaf)
  {
    hide *;
    AcknowledgedIsStored(hash, depth, events, n);
    RunConsistent(hash, depth, events[..n + 1]);
    assert events == events[..n + 1] + events[n + 1..];
    RunConcat(hash, depth, START, events[..n + 1], events[n + 1..]);
    var acked := Run(hash, depth, START, events[..n + 1]);
    SlotStays(hash, depth, acked, events[n + 1..], SlotOf(hash, depth, events, n));
  }

  /** The text of a stored leaf is lower case and below the modulus. */
  lemma StoredTextCanonical(hash: Hash2, depth: nat, leaves: seq<Fr>, tables: Tables, k: nat)
    requires InStep(hash, depth, leaves, tables) && k < |tables.leaves|
    ensures Canonical(tables.leaves[k].commitmentHex)
  {
    hide RootOf, Capacity, Canonical, ToHex;
    CanonicalOfValue(leaves[k]);
  }

  lemma CanonicalOfValue(value: Fr)
    ensures Canonical(ToHex(value))
  {
    EncodeIsLowerHex(ToBytes(value));
    HexRoundTrip(value);
    BytesRoundTrip(value);
  }

  /** Whichever row with the text the lookup picks, while the process is up the path it returns verifies. */
  ghost predicate Served(hash: Hash2, depth: nat, w: World, text: string) {
    w.memory.Some? ==>
      forall k :: 0 <= k < |w.tables.leaves| && w.tables.leaves[k].commitmentHex == text ==>
        var r := PathAt(hash, depth, w.memory.value, w.tables.leaves[k].index);
        r.Ok? && Verifies(hash, depth, w.tables, text, r.value)
  }

  /** In a consistent world every found text is canonical, and is served. */
  lemma FoundIsServed(hash: Hash2, depth: nat, w: World, text: string)
    requires Consistent(hash, depth, w)
    ensures Found(w.tables, text) ==> Canonical(text)
    ensures Served(hash, depth, w, text)
  {
    hide InStep, RestoreSpec, Verifies, PathAt, Canonical;
    var leaves := RestoreSpec(hash, depth, w.tables).value;
    forall k | 0 <= k < |w.tables.leaves| && w.tables.leaves[k].commitmentHex == text
      ensures Canonical(text)
      ensures var r := PathAt(hash, depth, leaves, w.tables.leaves[k].index);
        r.Ok? && Verifies(hash, depth, w.tables, text, r.value)
    {
      StoredTextCanonical(hash, depth, leaves, w.tables, k);
      InStepLengths(hash, depth, leaves, w.tables);
      LookedUpPathVerifies(hash, depth, leaves, w.tables, k);
    }
  }

  /** Over any run with any faults, crashes and restarts: once a registration was acknowledged, any spelling of
      its commitment is found by every later lookup exactly when it is lower case and below the field modulus,
      and the path returned for it verifies the commitment's value against the active root. */
  lemma AcknowledgedIsServed(hash: Hash2, depth: nat, events: seq<Event>, n: nat, text: string)
    requires n < |events| && Acknowledged(hash, depth, events, n)
    requires WellFormed(text) && ToLower(text) == ToLower(events[n].commitmentHex)
    ensures Found(Run(hash, depth, START, events).tables, text) <==> Canonical(text)
    ensures Served(hash, depth, Run(hash, depth, START, events), text)
  {
    AcknowledgedStays(hash, depth, events, n);
    LowerIsFixed(text);
    CanonicalIsLower(text);
    hide Acknowledged, SlotOf, Run, Consistent, RestoreSpec, ToHex, LeafOf, Served, Canonical, Decode, WellFormed;
    RunsStayConsistent(hash, depth, events);
    var w := Run(hash, depth, START, events);
    FoundIsServed(hash, depth, w, text);
    if Canonical(text) {
      CanonicalText(text);
      assert w.tables.leaves[SlotOf(hash, depth, events, n)].commitmentHex == text;
    }
  }

  lemma CanonicalIsLower(text: string)
    ensures Canonical(text) ==> IsLowerHex(text) && Decode(text).Ok?
  {}

  lemma InStepLengths(hash: Hash2, depth: nat, leaves: seq<Fr>, tables: Tables)
    requires InStep(hash, depth, leaves, tables)
    ensures |leaves| == |tables.leaves|
  {
    hide RootOf, Capacity;
  }

  lemma FirstRegistration(hash: Hash2, depth: nat, text: string)
    requires WellFormed(text) && ToLower(text) == text
    ensures Run(hash, depth, START, [Restart, Register(text, 1, 0, NoFault)]).tables.identities
      == [IdentityRow(text, 1, 0)]
  {
    RunTwo(hash, depth, Restart, Register(text, 1, 0, NoFault));
    FirstRestart(hash, depth);
    RegisterInEmpty(hash, depth, text);
    hide Run, RegisterSpec, RestoreSpec;
  }

  lemma FirstRestart(hash: Hash2, depth: nat)
    ensures Step(hash, depth, START, Restart) == World(Some([]), EMPTY_TABLES)
  {
    hide ToHex, RootOf, Capacity;
  }

  lemma RegisterInEmpty(hash: Hash2, depth: nat, text: string)
    requires WellFormed(text) && ToLower(text) == text
    ensures RegisterSpec(hash, depth, [], EMPTY_TABLES, text, 1, 0, NoFault).tables.identities
      == [IdentityRow(text, 1, 0)]
  {
    LowerIsWellFormed(text);
    CapacityPositive(depth);
    var tx := EMPTY_TABLES.(identities := [IdentityRow(text, 1, 0)]);
    assert InStep(hash, depth, [], tx);
    PersistKeepsStep(hash, depth, [], tx, LeafOf(text), NoFault);
    hide LeafOf, RootOf, Capacity, ToLower, Decode, RegistrationOf, PersistSpec, InStep, WellFormed;
    assert EMPTY_TABLES.identities + [IdentityRow(text, 1, 0)] == [IdentityRow(text, 1, 0)];
  }

  lemma RunTwo(hash: Hash2, depth: nat, first: Event, second: Event)
    ensures Run(hash, depth, START, [first, second]) == Step(hash, depth, Step(hash, depth, START, first), second)
  {
    hide Step;
    assert [first, second][..1] == [first] && [first][..0] == [];
    assert Run(hash, depth, START, [first]) == Step(hash, depth, START, first);
  }

  /** The modulus as a commitment: 64 lower-case digits. */
  function ModulusText(): string {
    Encode(ToBigEndian(MODULUS, 32))
  }

  lemma ModulusTextValue()
    ensures WellFormed(ModulusText()) && IsLowerHex(ModulusText()) && ToLower(ModulusText()) == ModulusText()
    ensures Decode(ModulusText()).Ok? && BigEndian(Decode(ModulusText()).value) == MODULUS
    ensures !Canonical(ModulusText())
  {
    ModulusFits();
    BigEndianOfToBigEndian(MODULUS, 32);
    hide ToBigEndian, Encode, Decode, BigEndian;
    var bytes := ToBigEndian(MODULUS, 32);
    EncodeIsLowerHex(bytes);
    LowerIsFixed(Encode(bytes));
    DecodeEncode(bytes);
  }

  /** A commitment that registers and is never found again. */
  lemma RegisteredButLost(hash: Hash2, depth: nat)
    ensures var w := Run(hash, depth, START, [Restart, Register(ModulusText(), 1, 0, NoFault)]);
      && w.tables.identities == [IdentityRow(ModulusText(), 1, 0)]
      && !Found(w.tables, ModulusText())
  {
    hide *;
    ModulusTextValue();
    FirstRegistration(hash, depth, ModulusText());
    var events := [Restart, Register(ModulusText(), 1, 0, NoFault)];
    RunsStayMatched(hash, depth, events);
    LookupFindsExactly(Run(hash, depth, START, events).tables, 0, ModulusText());
  }

  lemma CapacityPositive(depth: nat)
    ensures Capacity(depth) >= 1
  {}
}
