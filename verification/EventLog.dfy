/** The public event log: sequence numbers assigned on insert, and the query built clause by clause with
    numbered placeholders. */
module EventLog {
  import opened Sorting
  import opened Wrappers

  datatype EventDomain = Identity | Presence | Federation | Agent | Moderation

  datatype PublicEvent = PublicEvent(
    id: int, serverId: int, domain: string, eventType: string, entityType: string, entityId: string,
    seqNo: int, payloadJson: string, occurredAt: string)

  datatype ObserveError = Database | Serialization

  function DomainText(domain: EventDomain): string {
    match domain
    case Identity => "IDENTITY"
    case Presence => "PRESENCE"
    case Federation => "FEDERATION"
    case Agent => "AGENT"
    case Moderation => "MODERATION"
  }

  lemma DomainTexts()
    ensures DomainText(Identity) == "IDENTITY" && DomainText(Presence) == "PRESENCE"
    ensures DomainText(Federation) == "FEDERATION" && DomainText(Agent) == "AGENT"
    ensures DomainText(Moderation) == "MODERATION"
  {}

  // ----- sequence numbers -----

  /** `SELECT COALESCE(MAX(seq), 0) ... WHERE server_id = ?1` */
  function MaxSeq(rows: seq<PublicEvent>, serverId: int): (max: Option<int>)
    ensures max.None? <==> forall i :: 0 <= i < |rows| ==> rows[i].serverId != serverId
    ensures max.Some? ==>
      && (exists i :: 0 <= i < |rows| && rows[i].serverId == serverId && rows[i].seqNo == max.value)
      && (forall i :: 0 <= i < |rows| && rows[i].serverId == serverId ==> rows[i].seqNo <= max.value)
  {
    if rows == [] then None
    else
      assert rows == rows[..|rows| - 1] + [rows[|rows| - 1]];
      var last := rows[|rows| - 1];
      var before := MaxSeq(rows[..|rows| - 1], serverId);
      if last.serverId != serverId then before
      else if before.Some? && before.value > last.seqNo then before
      else Some(last.seqNo)
  }

  function NextSeqSpec(rows: seq<PublicEvent>, serverId: int): int {
    var max := MaxSeq(rows, serverId);
    (if max.Some? then max.value else 0) + 1
  }

  function CountServer(rows: seq<PublicEvent>, serverId: int): nat {
    if rows == [] then 0
    else CountServer(rows[..|rows| - 1], serverId) + if rows[|rows| - 1].serverId == serverId then 1 else 0
  }

  class Log {
    var rows: seq<PublicEvent>

    constructor ()
      ensures rows == []
    {
      rows := [];
    }

    /** `payloadJson` is None when the payload does not serialise; `fails` is the insert failing. */
    method EmitEvent(
      serverId: int, domain: EventDomain, eventType: string, entityType: string, entityId: string,
      payloadJson: Option<string>, now: string, fails: bool)
      returns (r: Result<PublicEvent, ObserveError>)
      modifies this
      ensures r.Ok? <==> payloadJson.Some? && !fails
      ensures r.Err? ==> rows == old(rows) && r.error == if payloadJson.None? then Serialization else Database
      ensures r.Ok? ==>
        && rows == old(rows) + [r.value]
        && r.value == PublicEvent(
             |old(rows)| + 1, serverId, DomainText(domain), eventType, entityType, entityId,
             NextSeqSpec(old(rows), serverId), payloadJson.value, now)
    {
      if payloadJson.None? {
        return Err(Serialization);
      }
      if fails {
        return Err(Database);
      }
      var max := MaxSeq(rows, serverId);
      var event := PublicEvent(
        |rows| + 1, serverId, DomainText(domain), eventType, entityType, entityId,
        (if max.Some? then max.value else 0) + 1, payloadJson.value, now);
      rows := rows + [event];
      r := Ok(event);
    }

    method NextSeq(serverId: int) returns (next: int)
      ensures next == NextSeqSpec(rows, serverId)
      ensures forall i :: 0 <= i < |rows| && rows[i].serverId == serverId ==> rows[i].seqNo < next
      ensures (exists i :: 0 <= i < |rows| && rows[i].serverId == serverId && rows[i].seqNo == next - 1)
        || (next == 1 && forall i :: 0 <= i < |rows| ==> rows[i].serverId != serverId)
    {
      var max := MaxSeq(rows, serverId);
      next := (if max.Some? then max.value else 0) + 1;
    }
  }

  /** Built by `emit_event` alone: every row got the number that was next for its server. */
  ghost predicate Emitted(rows: seq<PublicEvent>) {
    forall i :: 0 <= i < |rows| ==> EmittedAt(rows, i)
  }

  ghost predicate EmittedAt(rows: seq<PublicEvent>, i: nat)
    requires i < |rows|
  {
    rows[i].seqNo == NextSeqSpec(rows[..i], rows[i].serverId)
  }

  lemma EmitKeepsEmitted(rows: seq<PublicEvent>, event: PublicEvent)
    requires Emitted(rows) && event.seqNo == NextSeqSpec(rows, event.serverId)
    ensures Emitted(rows + [event])
  {
    hide NextSeqSpec;
    var longer := rows + [event];
    forall i | 0 <= i < |longer|
      ensures EmittedAt(longer, i)
    {
      if i < |rows| {
        assert EmittedAt(rows, i);
      }
      assert longer[..i] == rows[..i];
    }
    assert longer[..|rows|] == rows;
  }

  lemma EmittedPrefix(rows: seq<PublicEvent>, n: nat)
    requires Emitted(rows) && n <= |rows|
    ensures Emitted(rows[..n])
  {
    hide NextSeqSpec;
    forall i | 0 <= i < n
      ensures EmittedAt(rows[..n], i)
    {
      assert EmittedAt(rows, i);
      assert rows[..n][..i] == rows[..i];
    }
  }

  /** In a log built by emitting, the numbers of one server are 1, 2, ... without gaps: a row's number counts
      the rows of its server up to it, and the next number is one more than there are. */
  lemma {:induction false} SequenceHasNoGaps(rows: seq<PublicEvent>, serverId: int)
    requires Emitted(rows)
    ensures NextSeqSpec(rows, serverId) == CountServer(rows, serverId) + 1
    ensures forall i :: 0 <= i < |rows| && rows[i].serverId == serverId ==>
      rows[i].seqNo == CountServer(rows[..i], serverId) + 1
  {
    hide NextSeqSpec, Emitted;
    if rows == [] {
      FirstSeq(serverId);
    } else {
      var n := |rows| - 1;
      EmittedPrefix(rows, n);
      SequenceHasNoGaps(rows[..n], serverId);
      EmittedRow(rows, n);
      NextSeqStep(rows, serverId);
      forall i | 0 <= i < n && rows[i].serverId == serverId
        ensures rows[i].seqNo == CountServer(rows[..i], serverId) + 1
      {
        assert rows[..n][i] == rows[i] && rows[..n][..i] == rows[..i];
      }
    }
  }

  lemma FirstSeq(serverId: int)
    ensures NextSeqSpec([], serverId) == 1
  {}

  lemma EmittedRow(rows: seq<PublicEvent>, i: nat)
    requires Emitted(rows) && i < |rows|
    ensures rows[i].seqNo == NextSeqSpec(rows[..i], rows[i].serverId)
  {
    hide NextSeqSpec;
    assert EmittedAt(rows, i);
  }

  /** Another server's row leaves the next number alone; one of the server's own, numbered next, raises it by one. */
  lemma NextSeqStep(rows: seq<PublicEvent>, serverId: int)
    requires rows != []
    ensures var n := |rows| - 1; var next := NextSeqSpec(rows[..n], serverId);
      && (rows[n].serverId != serverId ==> NextSeqSpec(rows, serverId) == next)
      && (rows[n].serverId == serverId && rows[n].seqNo == next ==> NextSeqSpec(rows, serverId) == next + 1)
  {}

  lemma {:induction false} CountGrows(rows: seq<PublicEvent>, serverId: int, m: nat, n: nat)
    requires m <= n <= |rows|
    ensures CountServer(rows[..m], serverId) <= CountServer(rows[..n], serverId)
    decreases n - m
  {
    if m < n {
      CountGrows(rows, serverId, m, n - 1);
      assert rows[..n][..n - 1] == rows[..n - 1];
    }
  }

  /** Later rows of one server have larger numbers. */
  lemma EmittedInOrder(rows: seq<PublicEvent>, i: nat, j: nat)
    requires Emitted(rows) && i < j < |rows| && rows[i].serverId == rows[j].serverId
    ensures rows[i].seqNo < rows[j].seqNo
  {
    var serverId := rows[i].serverId;
    SequenceHasNoGaps(rows, serverId);
    assert rows[..i + 1][..i] == rows[..i];
    CountGrows(rows, serverId, i + 1, j);
  }

  // ----- the query builder -----

  datatype EventFilter = EventFilter(
    domain: Option<EventDomain>, eventType: Option<string>, entityType: Option<string>,
    entityId: Option<string>, since: Option<string>, limit: Option<int>)

  datatype Column = ServerId | Domain | EventType | EntityType | EntityId | OccurredAt

  datatype Comparison = Equals | AtLeast

  /** `column = ?placeholder` or `column >= ?placeholder` */
  datatype Clause = Clause(column: Column, comparison: Comparison, placeholder: nat)

  datatype Value = IntValue(n: int) | TextValue(s: string)

  /** WHERE the clauses joined by AND, ORDER BY seq, LIMIT ?limitPlaceholder; parameters are bound from 1. */
  datatype Query = Query(clauses: seq<Clause>, limitPlaceholder: nat, params: seq<Value>)

  function Cell(row: PublicEvent, column: Column): Value {
    match column
    case ServerId => IntValue(row.serverId)
    case Domain => TextValue(row.domain)
    case EventType => TextValue(row.eventType)
    case EntityType => TextValue(row.entityType)
    case EntityId => TextValue(row.entityId)
    case OccurredAt => TextValue(row.occurredAt)
  }

  /** Text in the order of its characters' codes, as the BINARY collation compares it. */
  predicate TextAtLeast(a: string, b: string) {
    b == "" || (a != "" && (a[0] > b[0] || (a[0] == b[0] && TextAtLeast(a[1..], b[1..]))))
  }

  predicate Compare(comparison: Comparison, a: Value, b: Value) {
    match comparison
    case Equals => a == b
    case AtLeast =>
      match (a, b) {
        case (IntValue(m), IntValue(n)) => m >= n
        case (TextValue(s), TextValue(t)) => TextAtLeast(s, t)
        case (TextValue(_), IntValue(_)) => true  // text sorts after numbers
        case (IntValue(_), TextValue(_)) => false
      }
  }

  /** A placeholder without a parameter is NULL, and no comparison with NULL holds. */
  predicate Holds(clause: Clause, params: seq<Value>, row: PublicEvent) {
    && 1 <= clause.placeholder <= |params|
    && Compare(clause.comparison, Cell(row, clause.column), params[clause.placeholder - 1])
  }

  predicate AllHold(clauses: seq<Clause>, params: seq<Value>, row: PublicEvent) {
    forall i :: 0 <= i < |clauses| ==> Holds(clauses[i], params, row)
  }

  /** What the filter asks for, field by field. */
  predicate Matches(filter: EventFilter, serverId: int, row: PublicEvent) {
    && row.serverId == serverId
    && (filter.domain.Some? ==> row.domain == DomainText(filter.domain.value))
    && (filter.eventType.Some? ==> row.eventType == filter.eventType.value)
    && (filter.entityType.Some? ==> row.entityType == filter.entityType.value)
    && (filter.entityId.Some? ==> row.entityId == filter.entityId.value)
    && (filter.since.Some? ==> TextAtLeast(row.occurredAt, filter.since.value))
  }

  /** The fields already turned into clauses, in the builder's order. */
  function Upto(filter: EventFilter, n: nat): EventFilter {
    EventFilter(
      if n >= 1 then filter.domain else None,
      if n >= 2 then filter.eventType else None,
      if n >= 3 then filter.entityType else None,
      if n >= 4 then filter.entityId else None,
      if n >= 5 then filter.since else None,
      filter.limit)
  }

  /** So far, clause i uses placeholder i + 1, and the clauses select what the first n fields ask for. */
  ghost predicate Building(
    clauses: seq<Clause>, params: seq<Value>, idx: nat, filter: EventFilter, serverId: int, n: nat)
  {
    && |clauses| == |params| == idx - 1
    && (forall i :: 0 <= i < |clauses| ==> clauses[i].placeholder == i + 1)
    && forall row :: AllHold(clauses, params, row) <==> Matches(Upto(filter, n), serverId, row)
  }

  lemma AddClause(
    clauses: seq<Clause>, params: seq<Value>, idx: nat, filter: EventFilter, serverId: int, n: nat,
    column: Column, comparison: Comparison, value: Value)
    requires Building(clauses, params, idx, filter, serverId, n)
    requires forall row :: Matches(Upto(filter, n + 1), serverId, row) <==>
      Matches(Upto(filter, n), serverId, row) && Compare(comparison, Cell(row, column), value)
    ensures Building(clauses + [Clause(column, comparison, idx)], params + [value], idx + 1, filter, serverId, n + 1)
  {
    hide Matches, Compare, Cell, Upto;
    var longer, bound := clauses + [Clause(column, comparison, idx)], params + [value];
    forall row
      ensures AllHold(longer, bound, row) <==> Matches(Upto(filter, n + 1), serverId, row)
    {
      assert forall i :: 0 <= i < |clauses| ==> (Holds(longer[i], bound, row) <==> Holds(clauses[i], params, row));
      assert Holds(longer[|clauses|], bound, row) <==> Compare(comparison, Cell(row, column), value);
      assert AllHold(longer, bound, row) <==>
        AllHold(clauses, params, row) && Holds(longer[|clauses|], bound, row);
    }
  }

  lemma SkipField(clauses: seq<Clause>, params: seq<Value>, idx: nat, filter: EventFilter, serverId: int, n: nat)
    requires Building(clauses, params, idx, filter, serverId, n)
    requires Upto(filter, n + 1) == Upto(filter, n)
    ensures Building(clauses, params, idx, filter, serverId, n + 1)
  {
    hide Matches, AllHold, Upto;
  }

  /** The builder's block for one field: nothing when it is not set, else a clause, its parameter and the next
      placeholder number. */
  method PushField(
    clauses: seq<Clause>, params: seq<Value>, idx: nat, column: Column, comparison: Comparison, value: Option<Value>,
    ghost filter: EventFilter, ghost serverId: int, ghost n: nat)
    returns (longer: seq<Clause>, bound: seq<Value>, next: nat)
    requires Building(clauses, params, idx, filter, serverId, n)
    requires value.Some? ==> Asks(filter, n, column, comparison, value.value)
    requires value.None? ==> Upto(filter, n + 1) == Upto(filter, n)
    ensures Building(longer, bound, next, filter, serverId, n + 1)
  {
    hide Building, Asks, Upto;
    longer, bound, next := clauses, params, idx;
    if value.Some? {
      AddField(clauses, params, idx, filter, serverId, n, column, comparison, value.value);
      longer := longer + [Clause(column, comparison, idx)];
      bound := bound + [value.value];
      next := next + 1;
    } else {
      SkipField(clauses, params, idx, filter, serverId, n);
    }
  }

  function TextOf(field: Option<string>): Option<Value> {
    match field
    case None => None
    case Some(text) => Some(TextValue(text))
  }

  /** The generated clauses select exactly the rows the filter asks for, and the limit's placeholder, bound
      last, has the filter's limit or 100. */
  method BuildQuery(serverId: int, filter: EventFilter) returns (q: Query)
    ensures forall row :: AllHold(q.clauses, q.params, row) <==> Matches(filter, serverId, row)
    ensures forall i :: 0 <= i < |q.clauses| ==> q.clauses[i].placeholder == i + 1
    ensures q.limitPlaceholder == |q.params| == |q.clauses| + 1
    ensures q.params[|q.params| - 1] == IntValue(LimitOf(filter))
  {
    hide AllHold, Matches, Building, DomainText;
    var clauses := [Clause(ServerId, Equals, 1)];
    var params := [IntValue(serverId)];
    var idx: nat := 2;
    FirstClause(filter, serverId);
    var domain := if filter.domain.Some? then Some(TextValue(DomainText(filter.domain.value))) else None;
    clauses, params, idx := PushField(clauses, params, idx, Domain, Equals, domain, filter, serverId, 0);
    clauses, params, idx :=
      PushField(clauses, params, idx, EventType, Equals, TextOf(filter.eventType), filter, serverId, 1);
    clauses, params, idx :=
      PushField(clauses, params, idx, EntityType, Equals, TextOf(filter.entityType), filter, serverId, 2);
    clauses, params, idx :=
      PushField(clauses, params, idx, EntityId, Equals, TextOf(filter.entityId), filter, serverId, 3);
    clauses, params, idx :=
      PushField(clauses, params, idx, OccurredAt, AtLeast, TextOf(filter.since), filter, serverId, 4);
    var limit := LimitOf(filter);
    LastParam(clauses, params, idx, filter, serverId, IntValue(limit));
    q := Query(clauses, idx, params + [IntValue(limit)]);
  }

  lemma FirstClause(filter: EventFilter, serverId: int)
    ensures Building([Clause(ServerId, Equals, 1)], [IntValue(serverId)], 2, filter, serverId, 0)
  {
    var clauses, params := [Clause(ServerId, Equals, 1)], [IntValue(serverId)];
    forall row
      ensures AllHold(clauses, params, row) <==> Matches(Upto(filter, 0), serverId, row)
    {
      assert Holds(clauses[0], params, row) <==> row.serverId == serverId;
    }
  }

  /** Field n + 1 of the filter is set, and this is the comparison the builder writes for it. */
  ghost predicate Asks(filter: EventFilter, n: nat, column: Column, comparison: Comparison, value: Value) {
    match n
    case 0 => filter.domain.Some? && column == Domain && comparison == Equals
      && value == TextValue(DomainText(filter.domain.value))
    case 1 => filter.eventType.Some? && column == EventType && comparison == Equals
      && value == TextValue(filter.eventType.value)
    case 2 => filter.entityType.Some? && column == EntityType && comparison == Equals
      && value == TextValue(filter.entityType.value)
    case 3 => filter.entityId.Some? && column == EntityId && comparison == Equals
      && value == TextValue(filter.entityId.value)
    case 4 => filter.since.Some? && column == OccurredAt && comparison == AtLeast
      && value == TextValue(filter.since.value)
    case _ => false
  }

  lemma AddField(
    clauses: seq<Clause>, params: seq<Value>, idx: nat, filter: EventFilter, serverId: int, n: nat,
    column: Column, comparison: Comparison, value: Value)
    requires Building(clauses, params, idx, filter, serverId, n) && Asks(filter, n, column, comparison, value)
    ensures Building(clauses + [Clause(column, comparison, idx)], params + [value], idx + 1, filter, serverId, n + 1)
  {
    FieldMeaning(filter, serverId, n, column, comparison, value);
    AddClause(clauses, params, idx, filter, serverId, n, column, comparison, value);
  }

  lemma FieldMeaning(filter: EventFilter, serverId: int, n: nat, column: Column, comparison: Comparison, value: Value)
    requires Asks(filter, n, column, comparison, value)
    ensures forall row :: Matches(Upto(filter, n + 1), serverId, row) <==>
      Matches(Upto(filter, n), serverId, row) && Compare(comparison, Cell(row, column), value)
  {
    hide TextAtLeast, DomainText;
  }

  /** Binding one more parameter at the end changes no clause. */
  lemma LastParam(
    clauses: seq<Clause>, params: seq<Value>, idx: nat, filter: EventFilter, serverId: int, limit: Value)
    requires Building(clauses, params, idx, filter, serverId, 5)
    ensures idx == |params| + 1 == |clauses| + 1
    ensures forall i :: 0 <= i < |clauses| ==> clauses[i].placeholder == i + 1
    ensures forall row :: AllHold(clauses, params + [limit], row) <==> Matches(filter, serverId, row)
  {
    assert Upto(filter, 5) == filter;
    hide Matches, Compare, Cell, Upto;
    forall row
      ensures AllHold(clauses, params + [limit], row) <==> Matches(filter, serverId, row)
    {
      assert forall i :: 0 <= i < |clauses| ==>
        (Holds(clauses[i], params + [limit], row) <==> Holds(clauses[i], params, row));
      assert AllHold(clauses, params + [limit], row) <==> AllHold(clauses, params, row);
    }
  }

  // ----- executing the query -----

  function Select(rows: seq<PublicEvent>, keep: PublicEvent -> bool): (kept: seq<PublicEvent>)
    ensures forall r :: r in kept <==> r in rows && keep(r)
  {
    if rows == [] then []
    else
      assert rows == rows[..|rows| - 1] + [rows[|rows| - 1]];
      Select(rows[..|rows| - 1], keep) + if keep(rows[|rows| - 1]) then [rows[|rows| - 1]] else []
  }

  /** Every row that is kept is kept as often as it occurs. */
  lemma {:induction false} SelectCounts(rows: seq<PublicEvent>, keep: PublicEvent -> bool, r: PublicEvent)
    ensures multiset(Select(rows, keep))[r] == if keep(r) then multiset(rows)[r] else 0
  {
    if rows != [] {
      var n := |rows| - 1;
      SelectCounts(rows[..n], keep, r);
      assert rows == rows[..n] + [rows[n]];
    }
  }

  /** `ORDER BY seq ASC`, rows of equal number in table order. */
  function OrderBySeq(rows: seq<PublicEvent>): seq<PublicEvent> {
    SortBy(rows, (r: PublicEvent) => r.seqNo)
  }

  /** `LIMIT n`: a negative limit is no limit. */
  function Limit(rows: seq<PublicEvent>, n: int): seq<PublicEvent> {
    if 0 <= n < |rows| then rows[..n] else rows
  }

  function Execute(rows: seq<PublicEvent>, q: Query): seq<PublicEvent>
    requires 1 <= q.limitPlaceholder <= |q.params| && q.params[q.limitPlaceholder - 1].IntValue?
  {
    Limit(OrderBySeq(Select(rows, row => AllHold(q.clauses, q.params, row))), q.params[q.limitPlaceholder - 1].n)
  }

  ghost predicate Increasing(rows: seq<PublicEvent>) {
    forall i, j :: 0 <= i < j < |rows| ==> rows[i].seqNo < rows[j].seqNo
  }

  lemma OrderIncreasing(rows: seq<PublicEvent>)
    requires Increasing(rows)
    ensures OrderBySeq(rows) == rows
  {
    SortByFixed(rows, (r: PublicEvent) => r.seqNo);
  }

  /** The matching rows of an emitted log are already in strictly increasing order. */
  lemma {:induction false} SelectedIncrease(rows: seq<PublicEvent>, serverId: int, keep: PublicEvent -> bool)
    requires Emitted(rows)
    requires forall r :: keep(r) ==> r.serverId == serverId
    ensures Increasing(Select(rows, keep))
  {
    hide EmittedAt;
    if rows != [] {
      var n := |rows| - 1;
      EmittedPrefix(rows, n);
      SelectedIncrease(rows[..n], serverId, keep);
      var before := Select(rows[..n], keep);
      if keep(rows[n]) {
        forall i | 0 <= i < |before|
          ensures before[i].seqNo < rows[n].seqNo
        {
          assert before[i] in rows[..n] && keep(before[i]);
          var k :| 0 <= k < n && rows[k] == before[i];
          EmittedInOrder(rows, k, n);
        }
      }
    }
  }

  function LimitOf(filter: EventFilter): int {
    if filter.limit.Some? then filter.limit.value else 100
  }

  /** Every matching row, in the order of the log. */
  function Matching(rows: seq<PublicEvent>, serverId: int, filter: EventFilter): (kept: seq<PublicEvent>)
    ensures forall r :: r in kept <==> r in rows && Matches(filter, serverId, r)
  {
    Select(rows, row => Matches(filter, serverId, row))
  }

  function Answer(rows: seq<PublicEvent>, serverId: int, filter: EventFilter): seq<PublicEvent> {
    Limit(OrderBySeq(Matching(rows, serverId, filter)), LimitOf(filter))
  }

  lemma MatchingIncreases(rows: seq<PublicEvent>, serverId: int, filter: EventFilter)
    requires Emitted(rows)
    ensures Increasing(Matching(rows, serverId, filter))
    ensures OrderBySeq(Matching(rows, serverId, filter)) == Matching(rows, serverId, filter)
  {
    hide Emitted, EmittedAt;
    SelectedIncrease(rows, serverId, row => Matches(filter, serverId, row));
    OrderIncreasing(Matching(rows, serverId, filter));
  }

  /** On any log, the matching rows in order of number, cut to the limit; on a log that was only ever
      emitted to, the numbers strictly increase and the order is the log's own. */
  method QueryEvents(log: Log, serverId: int, filter: EventFilter) returns (events: seq<PublicEvent>)
    ensures events == Answer(log.rows, serverId, filter)
    ensures var all := OrderBySeq(Matching(log.rows, serverId, filter));
      var limit := if filter.limit.Some? then filter.limit.value else 100;
      events <= all && |events| == if 0 <= limit < |all| then limit else |all|
    ensures Emitted(log.rows) ==>
      Increasing(events) && events == Limit(Matching(log.rows, serverId, filter), LimitOf(filter))
  {
    hide AllHold, Matches, Emitted, Select, OrderBySeq, Limit, Execute, Matching;
    var q := BuildQuery(serverId, filter);
    events := Execute(log.rows, q);
    ExecuteAnswers(log.rows, serverId, filter, q);
    LimitCuts(OrderBySeq(Matching(log.rows, serverId, filter)), LimitOf(filter));
    if Emitted(log.rows) {
      MatchingIncreases(log.rows, serverId, filter);
      LimitIncreases(Matching(log.rows, serverId, filter), LimitOf(filter));
    }
  }

  lemma LimitCuts(rows: seq<PublicEvent>, n: int)
    ensures Limit(rows, n) <= rows && |Limit(rows, n)| == if 0 <= n < |rows| then n else |rows|
  {}

  lemma LimitIncreases(rows: seq<PublicEvent>, n: int)
    requires Increasing(rows)
    ensures Increasing(Limit(rows, n))
  {}

  /** A query that selects what the filter asks for, with the filter's limit, gives the filter's answer. */
  lemma ExecuteAnswers(rows: seq<PublicEvent>, serverId: int, filter: EventFilter, q: Query)
    requires 1 <= q.limitPlaceholder <= |q.params|
    requires q.params[q.limitPlaceholder - 1] == IntValue(LimitOf(filter))
    requires forall row :: AllHold(q.clauses, q.params, row) <==> Matches(filter, serverId, row)
    ensures Execute(rows, q) == Answer(rows, serverId, filter)
  {
    hide AllHold, Matches, Select, OrderBySeq, Limit, LimitOf;
    SelectSame(rows, row => AllHold(q.clauses, q.params, row), row => Matches(filter, serverId, row));
  }

  /** Ordering keeps every row, as often as it occurs, and sorts by number. */
  lemma OrderSorts(rows: seq<PublicEvent>)
    ensures multiset(OrderBySeq(rows)) == multiset(rows)
    ensures forall i, j :: 0 <= i < j < |rows| ==> OrderBySeq(rows)[i].seqNo <= OrderBySeq(rows)[j].seqNo
  {
    SortBySorts(rows, (r: PublicEvent) => r.seqNo);
  }

  lemma {:induction false} SelectSame(rows: seq<PublicEvent>, f: PublicEvent -> bool, g: PublicEvent -> bool)
    requires forall r :: f(r) <==> g(r)
    ensures Select(rows, f) == Select(rows, g)
  {
    if rows != [] {
      SelectSame(rows[..|rows| - 1], f, g);
    }
  }
}
