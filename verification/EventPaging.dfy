/** Paging through the event log with `since` as the cursor: each page asks for what happened from the stamp of
    the last event of the page before it. Stamps have whole seconds and the comparison includes its bound. */
module EventPaging {
  import opened EventLog
  import opened Wrappers

  // ----- text order is an order -----

  lemma {:induction false} AtLeastItself(a: string)
    ensures TextAtLeast(a, a)
  {
    if a != "" {
      AtLeastItself(a[1..]);
    }
  }

  lemma {:induction false} AtLeastBothWays(a: string, b: string)
    requires TextAtLeast(a, b) && TextAtLeast(b, a)
    ensures a == b
  {
    if a != "" && b != "" {
      AtLeastBothWays(a[1..], b[1..]);
      assert a == [a[0]] + a[1..] && b == [b[0]] + b[1..];
    }
  }

  lemma {:induction false} AtLeastTransitive(a: string, b: string, c: string)
    requires TextAtLeast(a, b) && TextAtLeast(b, c)
    ensures TextAtLeast(a, c)
  {
    if c != "" && a[0] == b[0] == c[0] {
      AtLeastTransitive(a[1..], b[1..], c[1..]);
    }
  }

  // ----- rows in order of their stamps -----

  /** The clock did not run backwards over these rows. */
  ghost predicate InTime(rows: seq<PublicEvent>) {
    forall i, j :: 0 <= i < j < |rows| ==> TextAtLeast(rows[j].occurredAt, rows[i].occurredAt)
  }

  function StampOf(rows: seq<PublicEvent>, i: nat): string
    requires i < |rows|
  {
    rows[i].occurredAt
  }

  /** The first of the rows around i with its stamp. */
  function GroupStart(rows: seq<PublicEvent>, i: nat): (start: nat)
    requires i < |rows|
    ensures start <= i && StampOf(rows, start) == StampOf(rows, i)
  {
    if i > 0 && StampOf(rows, i - 1) == StampOf(rows, i) then GroupStart(rows, i - 1) else i
  }

  lemma {:induction false} GroupStartIsFirst(rows: seq<PublicEvent>, i: nat, k: nat)
    requires InTime(rows) && i < |rows| && k < |rows|
    ensures TextAtLeast(StampOf(rows, k), StampOf(rows, i)) <==> k >= GroupStart(rows, i)
  {
    if k < i {
      if i > 0 && StampOf(rows, i - 1) == StampOf(rows, i) {
        GroupStartIsFirst(rows, i - 1, k);
      } else {
        BeforeGroup(rows, i, k);
      }
    } else {
      AtLeastItself(StampOf(rows, i));
    }
  }

  lemma BeforeGroup(rows: seq<PublicEvent>, i: nat, k: nat)
    requires InTime(rows) && k < i < |rows| && StampOf(rows, i - 1) != StampOf(rows, i)
    ensures !TextAtLeast(StampOf(rows, k), StampOf(rows, i))
  {
    if TextAtLeast(StampOf(rows, k), StampOf(rows, i)) {
      if k < i - 1 {
        AtLeastTransitive(StampOf(rows, i - 1), StampOf(rows, k), StampOf(rows, i));
      }
      AtLeastBothWays(StampOf(rows, i - 1), StampOf(rows, i));
      assert false;
    }
  }

  // ----- the pages of the log -----

  /** The filter for the page after this one. */
  function Follow(filter: EventFilter, page: seq<PublicEvent>): EventFilter {
    if page == [] then filter else filter.(since := Some(page[|page| - 1].occurredAt))
  }

  function FilterAt(rows: seq<PublicEvent>, serverId: int, filter: EventFilter, n: nat): EventFilter {
    if n == 0 then filter
    else
      var before := FilterAt(rows, serverId, filter, n - 1);
      Follow(before, Answer(rows, serverId, before))
  }

  function PageAt(rows: seq<PublicEvent>, serverId: int, filter: EventFilter, n: nat): seq<PublicEvent> {
    Answer(rows, serverId, FilterAt(rows, serverId, filter, n))
  }

  /** Some page has the row. */
  ghost predicate Reached(rows: seq<PublicEvent>, serverId: int, filter: EventFilter, row: PublicEvent) {
    exists n :: row in PageAt(rows, serverId, filter, n)
  }

  /** Where a page that starts there ends, among the matching rows. */
  function EndFrom(rows: seq<PublicEvent>, limit: int, start: nat): (end: nat)
    requires start <= |rows|
    ensures start <= end <= |rows| && Limit(rows[start..], limit) == rows[start..end]
  {
    if 0 <= limit && start + limit < |rows| then start + limit else |rows|
  }

  /** Where the page after it starts. */
  function Next(rows: seq<PublicEvent>, limit: int, start: nat): (next: nat)
    requires start <= |rows|
    ensures next <= EndFrom(rows, limit, start)
  {
    var end := EndFrom(rows, limit, start);
    if end == start then start else GroupStart(rows, end - 1)
  }

  function StartOf(rows: seq<PublicEvent>, limit: int, n: nat): (start: nat)
    ensures start <= |rows|
  {
    if n == 0 then 0 else Next(rows, limit, StartOf(rows, limit, n - 1))
  }

  /** Page n has the matching row i. */
  predicate OnPage(rows: seq<PublicEvent>, limit: int, n: nat, i: nat) {
    StartOf(rows, limit, n) <= i < EndFrom(rows, limit, StartOf(rows, limit, n))
  }

  ghost predicate OnSomePage(rows: seq<PublicEvent>, limit: int, i: nat) {
    exists n :: OnPage(rows, limit, n, i)
  }

  lemma SelectAppend(rows: seq<PublicEvent>, row: PublicEvent, keep: PublicEvent -> bool)
    ensures Select(rows + [row], keep) == if keep(row) then Select(rows, keep) + [row] else Select(rows, keep)
  {
    assert (rows + [row])[..|rows|] == rows;
  }

  lemma {:induction false} SelectRun(rows: seq<PublicEvent>, keep: PublicEvent -> bool, from: nat, upto: nat)
    requires from <= upto <= |rows|
    requires forall i :: 0 <= i < |rows| ==> (keep(rows[i]) <==> from <= i < upto)
    ensures Select(rows, keep) == rows[from..upto]
  {
    hide Select;
    if rows == [] {
      SelectNothing(keep);
    } else {
      var n := |rows| - 1;
      var first, last := if from <= n then from else n, if upto <= n then upto else n;
      SelectRun(rows[..n], keep, first, last);
      SelectAppend(rows[..n], rows[n], keep);
      RunAppend(rows, from, upto);
    }
  }

  lemma SelectNothing(keep: PublicEvent -> bool)
    ensures Select([], keep) == []
  {}

  lemma RunAppend(rows: seq<PublicEvent>, from: nat, upto: nat)
    requires from <= upto <= |rows| && rows != []
    ensures var n := |rows| - 1;
      && rows == rows[..n] + [rows[n]]
      && var before := rows[..n][if from <= n then from else n..if upto <= n then upto else n];
        rows[from..upto] == if from <= n < upto then before + [rows[n]] else before
  {}

  lemma {:induction false} SelectTwice(
    rows: seq<PublicEvent>, first: PublicEvent -> bool, second: PublicEvent -> bool, both: PublicEvent -> bool)
    requires forall i :: 0 <= i < |rows| ==> (both(rows[i]) <==> first(rows[i]) && second(rows[i]))
    ensures Select(rows, both) == Select(Select(rows, first), second)
  {
    if rows != [] {
      var n := |rows| - 1;
      SelectTwice(rows[..n], first, second, both);
      assert rows == rows[..n] + [rows[n]];
      SelectAppend(rows[..n], rows[n], first);
      SelectAppend(rows[..n], rows[n], both);
      SelectAppend(Select(rows[..n], first), rows[n], second);
    }
  }

  function From(cursor: string): PublicEvent -> bool {
    (r: PublicEvent) => TextAtLeast(r.occurredAt, cursor)
  }

  /** A cursor at the stamp of a matching row selects the matching rows from the first with that stamp on. */
  lemma CursorSelects(rows: seq<PublicEvent>, serverId: int, filter: EventFilter, j: nat)
    requires InTime(Matching(rows, serverId, filter)) && j < |Matching(rows, serverId, filter)|
    ensures var matching := Matching(rows, serverId, filter);
      Matching(rows, serverId, filter.(since := Some(StampOf(matching, j)))) == matching[GroupStart(matching, j)..]
  {
    hide Matching, Matches, InTime, TextAtLeast, GroupStart, From;
    var matching := Matching(rows, serverId, filter);
    assert matching[j] in matching;
    CursorNarrows(rows, serverId, filter, matching[j]);
    GroupSelects(matching, j);
  }

  lemma GroupSelects(rows: seq<PublicEvent>, j: nat)
    requires InTime(rows) && j < |rows|
    ensures Select(rows, From(StampOf(rows, j))) == rows[GroupStart(rows, j)..]
  {
    hide InTime, TextAtLeast, GroupStart, Select;
    forall i | 0 <= i < |rows|
      ensures From(StampOf(rows, j))(rows[i]) <==> GroupStart(rows, j) <= i < |rows|
    {
      GroupStartIsFirst(rows, j, i);
    }
    SelectRun(rows, From(StampOf(rows, j)), GroupStart(rows, j), |rows|);
  }

  lemma CursorNarrows(rows: seq<PublicEvent>, serverId: int, filter: EventFilter, at: PublicEvent)
    requires Matches(filter, serverId, at)
    ensures Matching(rows, serverId, filter.(since := Some(at.occurredAt)))
      == Select(Matching(rows, serverId, filter), From(at.occurredAt))
  {
    var later := filter.(since := Some(at.occurredAt));
    hide Matches, TextAtLeast;
    forall r
      ensures Matches(later, serverId, r) <==> Matches(filter, serverId, r) && From(at.occurredAt)(r)
    {
      CursorMatches(filter, serverId, at, r);
    }
    SelectTwice(rows, r => Matches(filter, serverId, r), From(at.occurredAt), r => Matches(later, serverId, r));
  }

  lemma CursorMatches(filter: EventFilter, serverId: int, at: PublicEvent, r: PublicEvent)
    requires Matches(filter, serverId, at)
    ensures Matches(filter.(since := Some(at.occurredAt)), serverId, r) <==>
      Matches(filter, serverId, r) && TextAtLeast(r.occurredAt, at.occurredAt)
  {
    hide TextAtLeast, DomainText;
    if filter.since.Some? && TextAtLeast(r.occurredAt, at.occurredAt) {
      AtLeastTransitive(r.occurredAt, at.occurredAt, filter.since.value);
    }
  }

  /** Following a page of the matching rows moves the cursor to the next page's start. */
  lemma FollowSelects(rows: seq<PublicEvent>, serverId: int, filter: EventFilter, at: EventFilter, start: nat)
    requires InTime(Matching(rows, serverId, filter)) && start <= |Matching(rows, serverId, filter)|
    requires at == filter.(since := at.since)
    requires Matching(rows, serverId, at) == Matching(rows, serverId, filter)[start..]
    ensures var matching := Matching(rows, serverId, filter);
      var next := Follow(at, Limit(matching[start..], LimitOf(filter)));
      && next == filter.(since := next.since)
      && Matching(rows, serverId, next) == matching[Next(matching, LimitOf(filter), start)..]
  {
    hide InTime, Matching, Matches;
    var matching := Matching(rows, serverId, filter);
    var end := EndFrom(matching, LimitOf(filter), start);
    if end > start {
      assert matching[start..end][end - start - 1] == matching[end - 1];
      CursorSelects(rows, serverId, filter, end - 1);
    }
  }

  /** The pages are runs of the matching rows, each starting at its cursor's group. */
  lemma {:induction false} PagesAreRuns(rows: seq<PublicEvent>, serverId: int, filter: EventFilter, n: nat)
    requires Emitted(rows) && InTime(Matching(rows, serverId, filter))
    ensures var matching := Matching(rows, serverId, filter);
      var start := StartOf(matching, LimitOf(filter), n);
      var at := FilterAt(rows, serverId, filter, n);
      && at == filter.(since := at.since)
      && Matching(rows, serverId, at) == matching[start..]
      && PageAt(rows, serverId, filter, n) == matching[start..EndFrom(matching, LimitOf(filter), start)]
  {
    hide Emitted, InTime, Matching, Matches, Follow, Next, EndFrom;
    var matching := Matching(rows, serverId, filter);
    var at := FilterAt(rows, serverId, filter, n);
    if n > 0 {
      PagesAreRuns(rows, serverId, filter, n - 1);
      MatchingIncreases(rows, serverId, FilterAt(rows, serverId, filter, n - 1));
      FollowSelects(rows, serverId, filter, FilterAt(rows, serverId, filter, n - 1),
        StartOf(matching, LimitOf(filter), n - 1));
    } else {
      assert matching[0..] == matching;
    }
    MatchingIncreases(rows, serverId, at);
  }

  // ----- what paging reaches -----

  /** No `limit` rows with one stamp have a row after them. */
  ghost predicate NoFullGroup(rows: seq<PublicEvent>, limit: int) {
    limit < 0 || forall k :: 0 <= k && k + limit < |rows| ==> !FullGroup(rows, limit, k)
  }

  ghost predicate FullGroup(rows: seq<PublicEvent>, limit: nat, k: nat)
    requires k + limit < |rows|
  {
    limit == 0 || StampOf(rows, k) == StampOf(rows, k + limit - 1)
  }

  lemma GroupAfter(rows: seq<PublicEvent>, k: nat, i: nat)
    requires InTime(rows) && k <= i < |rows| && StampOf(rows, k) != StampOf(rows, i)
    ensures GroupStart(rows, i) > k
  {
    GroupStartIsFirst(rows, i, k);
    if TextAtLeast(StampOf(rows, k), StampOf(rows, i)) {
      AtLeastBothWays(StampOf(rows, k), StampOf(rows, i));
    }
  }

  /** Rows between two of one stamp have it too. */
  lemma SameStampBetween(rows: seq<PublicEvent>, i: nat, k: nat, j: nat)
    requires InTime(rows) && i <= k <= j < |rows| && StampOf(rows, i) == StampOf(rows, j)
    ensures StampOf(rows, k) == StampOf(rows, i)
  {
    if i < k < j {
      AtLeastBothWays(StampOf(rows, k), StampOf(rows, i));
    }
  }

  lemma SameGroup(rows: seq<PublicEvent>, i: nat, j: nat)
    requires InTime(rows) && i <= j < |rows| && StampOf(rows, i) == StampOf(rows, j)
    ensures GroupStart(rows, i) == GroupStart(rows, j)
  {
    GroupStartIsFirst(rows, i, GroupStart(rows, i));
    GroupStartIsFirst(rows, j, GroupStart(rows, i));
    GroupStartIsFirst(rows, i, GroupStart(rows, j));
    GroupStartIsFirst(rows, j, GroupStart(rows, j));
  }

  /** Without a full group the next page leaves no gap and ends further on. */
  lemma NextAdvances(rows: seq<PublicEvent>, limit: int, start: nat)
    requires InTime(rows) && NoFullGroup(rows, limit) && start <= |rows|
    ensures var end, next := EndFrom(rows, limit, start), Next(rows, limit, start);
      next <= end && if end < |rows| then EndFrom(rows, limit, next) > end else EndFrom(rows, limit, next) == |rows|
  {
    var end, next := EndFrom(rows, limit, start), Next(rows, limit, start);
    hide InTime, GroupStart, StampOf;
    if limit >= 0 && end < |rows| {
      assert !FullGroup(rows, limit, start);
      GroupAfter(rows, start, end - 1);
    } else if limit >= 0 && next + limit < |rows| {
      assert !FullGroup(rows, limit, next);
      if next < end {
        SameStampBetween(rows, next, next + limit - 1, end - 1);
      }
    }
  }

  lemma FirstPageHasRows(rows: seq<PublicEvent>, limit: int)
    ensures NoFullGroup(rows, limit) && rows != [] ==> EndFrom(rows, limit, 0) > 0
  {
    assert rows != [] && limit == 0 ==> FullGroup(rows, limit, 0);
  }

  lemma {:induction false} PagesAdvance(rows: seq<PublicEvent>, limit: int, n: nat)
    requires InTime(rows) && NoFullGroup(rows, limit)
    ensures EndFrom(rows, limit, StartOf(rows, limit, n)) >= if n < |rows| then n + 1 else |rows|
  {
    hide InTime, NoFullGroup, Next, EndFrom;
    FirstPageHasRows(rows, limit);
    if n > 0 {
      PagesAdvance(rows, limit, n - 1);
      NextAdvances(rows, limit, StartOf(rows, limit, n - 1));
    }
  }

  /** There are no gaps between pages. */
  lemma {:induction false} PagesCover(rows: seq<PublicEvent>, limit: int, n: nat, i: nat)
    requires i < EndFrom(rows, limit, StartOf(rows, limit, n))
    ensures OnSomePage(rows, limit, i)
  {
    hide EndFrom, Next;
    if i >= StartOf(rows, limit, n) {
      assert OnPage(rows, limit, n, i);
    } else {
      assert StartOf(rows, limit, n) == Next(rows, limit, StartOf(rows, limit, n - 1));
      PagesCover(rows, limit, n - 1, i);
    }
  }

  lemma GroupOfFull(rows: seq<PublicEvent>, limit: nat, k: nat, i: nat)
    requires InTime(rows) && 0 < limit && k + limit < |rows| && FullGroup(rows, limit, k)
    requires GroupStart(rows, k) <= i < k + limit
    ensures GroupStart(rows, i) == GroupStart(rows, k)
  {
    hide InTime, GroupStart;
    var first := GroupStart(rows, k);
    if i < k {
      SameStampBetween(rows, first, i, k);
      SameGroup(rows, i, k);
    } else {
      SameStampBetween(rows, k, i, k + limit - 1);
      SameGroup(rows, k, i);
    }
  }

  /** A page that starts no later than a full group does not get past it. */
  lemma NextStops(rows: seq<PublicEvent>, limit: nat, start: nat, k: nat)
    requires InTime(rows) && k + limit < |rows| && FullGroup(rows, limit, k) && start <= GroupStart(rows, k)
    ensures EndFrom(rows, limit, start) < |rows| && Next(rows, limit, start) <= GroupStart(rows, k)
  {
    var end, first := EndFrom(rows, limit, start), GroupStart(rows, k);
    if limit > 0 && first < end - 1 {
      GroupOfFull(rows, limit, k, end - 1);
    }
  }

  lemma {:induction false} PagesStop(rows: seq<PublicEvent>, limit: nat, n: nat, k: nat)
    requires InTime(rows) && k + limit < |rows| && FullGroup(rows, limit, k)
    ensures StartOf(rows, limit, n) <= GroupStart(rows, k)
    ensures EndFrom(rows, limit, StartOf(rows, limit, n)) < |rows|
  {
    hide InTime, FullGroup, EndFrom, Next;
    if n > 0 {
      PagesStop(rows, limit, n - 1, k);
      NextStops(rows, limit, StartOf(rows, limit, n - 1), k);
    }
    NextStops(rows, limit, StartOf(rows, limit, n), k);
  }

  /** Over the positions of the matching rows: every one is on some page exactly without a full group. */
  lemma PositionsReached(rows: seq<PublicEvent>, limit: int)
    requires InTime(rows)
    ensures (forall i :: 0 <= i < |rows| ==> OnSomePage(rows, limit, i)) <==> NoFullGroup(rows, limit)
  {
    hide InTime, FullGroup, EndFrom, StartOf;
    if NoFullGroup(rows, limit) {
      PagesAdvance(rows, limit, |rows|);
      forall i | 0 <= i < |rows|
        ensures OnSomePage(rows, limit, i)
      {
        PagesCover(rows, limit, |rows|, i);
      }
    } else {
      var k :| 0 <= k && k + limit < |rows| && FullGroup(rows, limit, k);
      NeverReached(rows, limit, k);
    }
  }

  lemma NeverReached(rows: seq<PublicEvent>, limit: nat, k: nat)
    requires InTime(rows) && k + limit < |rows| && FullGroup(rows, limit, k)
    ensures !OnSomePage(rows, limit, |rows| - 1)
  {
    hide InTime, FullGroup, EndFrom, StartOf;
    var last := |rows| - 1;
    forall n: nat
      ensures !OnPage(rows, limit, n, last)
    {
      PagesStop(rows, limit, n, k);
    }
  }

  // ----- rows per stamp -----

  /** One past the last of the rows around i with its stamp. */
  function GroupEnd(rows: seq<PublicEvent>, i: nat): (end: nat)
    requires i < |rows|
    ensures i < end <= |rows| && StampOf(rows, end - 1) == StampOf(rows, i)
    decreases |rows| - i
  {
    if i + 1 < |rows| && StampOf(rows, i + 1) == StampOf(rows, i) then GroupEnd(rows, i + 1) else i + 1
  }

  lemma {:induction false} GroupEndIsLast(rows: seq<PublicEvent>, i: nat, k: nat)
    requires InTime(rows) && i < |rows| && k < |rows|
    ensures StampOf(rows, k) == StampOf(rows, i) ==> k < GroupEnd(rows, i)
    decreases |rows| - i
  {
    if i + 1 < |rows| && StampOf(rows, i + 1) == StampOf(rows, i) {
      GroupEndIsLast(rows, i + 1, k);
    } else if k > i && StampOf(rows, k) == StampOf(rows, i) {
      SameStampBetween(rows, i, i + 1, k);
    }
  }

  lemma GroupIs(rows: seq<PublicEvent>, i: nat, k: nat)
    requires InTime(rows) && i < |rows| && k < |rows|
    ensures StampOf(rows, k) == StampOf(rows, i) <==> GroupStart(rows, i) <= k < GroupEnd(rows, i)
  {
    hide InTime, TextAtLeast, StampOf, GroupStart, GroupEnd;
    var start, end := GroupStart(rows, i), GroupEnd(rows, i);
    GroupEndIsLast(rows, i, k);
    GroupStartIsFirst(rows, i, k);
    AtLeastItself(StampOf(rows, i));
    if start <= k < end {
      SameStampBetween(rows, start, k, end - 1);
    }
  }

  /** How many rows have the stamp. */
  function Sharing(rows: seq<PublicEvent>, stamp: string): nat {
    |Select(rows, (r: PublicEvent) => r.occurredAt == stamp)|
  }

  lemma SharingIsGroup(rows: seq<PublicEvent>, i: nat)
    requires InTime(rows) && i < |rows|
    ensures Sharing(rows, StampOf(rows, i)) == GroupEnd(rows, i) - GroupStart(rows, i)
  {
    var stamp := StampOf(rows, i);
    forall k | 0 <= k < |rows|
      ensures rows[k].occurredAt == stamp <==> GroupStart(rows, i) <= k < GroupEnd(rows, i)
    {
      GroupIs(rows, i, k);
    }
    SelectRun(rows, (r: PublicEvent) => r.occurredAt == stamp, GroupStart(rows, i), GroupEnd(rows, i));
  }

  /** More than `limit` rows share row i's stamp, or exactly that many and it is not the last stamp. */
  predicate Crowded(rows: seq<PublicEvent>, limit: int, i: nat)
    requires i < |rows|
  {
    var sharing := Sharing(rows, StampOf(rows, i));
    sharing > limit || (sharing == limit && StampOf(rows, i) != StampOf(rows, |rows| - 1))
  }

  predicate Pageable(rows: seq<PublicEvent>, limit: int) {
    limit < 0 || forall i :: 0 <= i < |rows| ==> !Crowded(rows, limit, i)
  }

  lemma FullIsCrowded(rows: seq<PublicEvent>, limit: nat, k: nat)
    requires InTime(rows) && k + limit < |rows| && FullGroup(rows, limit, k)
    ensures Crowded(rows, limit, k)
  {
    SharingIsGroup(rows, k);
    hide InTime, Sharing, GroupStart, GroupEnd;
    GroupIs(rows, k, |rows| - 1);
    if limit > 0 {
      GroupIs(rows, k, k + limit - 1);
    }
  }

  lemma CrowdedIsFull(rows: seq<PublicEvent>, limit: nat, i: nat)
    requires InTime(rows) && i < |rows| && Crowded(rows, limit, i)
    ensures GroupStart(rows, i) + limit < |rows| && FullGroup(rows, limit, GroupStart(rows, i))
  {
    SharingIsGroup(rows, i);
    hide InTime, Sharing, GroupStart, GroupEnd;
    GroupIs(rows, i, |rows| - 1);
    if limit > 0 {
      GroupIs(rows, i, GroupStart(rows, i) + limit - 1);
    }
  }

  lemma PageableExactly(rows: seq<PublicEvent>, limit: int)
    requires InTime(rows)
    ensures NoFullGroup(rows, limit) <==> Pageable(rows, limit)
  {
    hide InTime, FullGroup, Crowded, GroupStart;
    if limit >= 0 && !NoFullGroup(rows, limit) {
      var k :| 0 <= k && k + limit < |rows| && FullGroup(rows, limit, k);
      FullIsCrowded(rows, limit, k);
    }
    if limit >= 0 && !Pageable(rows, limit) {
      var i :| 0 <= i < |rows| && Crowded(rows, limit, i);
      CrowdedIsFull(rows, limit, i);
    }
  }

  // ----- the log -----

  lemma ReachedExactly(rows: seq<PublicEvent>, serverId: int, filter: EventFilter, i: nat)
    requires Emitted(rows) && InTime(Matching(rows, serverId, filter)) && i < |Matching(rows, serverId, filter)|
    ensures var matching := Matching(rows, serverId, filter);
      Reached(rows, serverId, filter, matching[i]) <==> OnSomePage(matching, LimitOf(filter), i)
  {
    hide Emitted, InTime, Matching, PageAt, StartOf, EndFrom;
    var matching := Matching(rows, serverId, filter);
    MatchingIncreases(rows, serverId, filter);
    forall n: nat
      ensures matching[i] in PageAt(rows, serverId, filter, n) <==> OnPage(matching, LimitOf(filter), n, i)
    {
      PagesAreRuns(rows, serverId, filter, n);
      InRun(matching, i, StartOf(matching, LimitOf(filter), n),
        EndFrom(matching, LimitOf(filter), StartOf(matching, LimitOf(filter), n)));
    }
  }

  lemma InRun(rows: seq<PublicEvent>, i: nat, from: nat, upto: nat)
    requires Increasing(rows) && i < |rows| && from <= upto <= |rows|
    ensures rows[i] in rows[from..upto] <==> from <= i < upto
  {
    if from <= i < upto {
      assert rows[from..upto][i - from] == rows[i];
    }
  }

  /** On a log built by emitting whose clock did not run backwards, following the stamps page by page reaches
      every matching row exactly when fewer rows than the limit share any stamp, or as many share the last;
      with a negative limit, which is no limit, always. */
  lemma PagingReachesExactly(rows: seq<PublicEvent>, serverId: int, filter: EventFilter)
    requires Emitted(rows) && InTime(Matching(rows, serverId, filter))
    ensures (forall row :: row in Matching(rows, serverId, filter) ==> Reached(rows, serverId, filter, row)) <==>
      Pageable(Matching(rows, serverId, filter), LimitOf(filter))
  {
    hide Emitted, InTime, Matching, Reached, OnSomePage, Pageable;
    var matching := Matching(rows, serverId, filter);
    forall i | 0 <= i < |matching|
      ensures Reached(rows, serverId, filter, matching[i]) <==> OnSomePage(matching, LimitOf(filter), i)
    {
      ReachedExactly(rows, serverId, filter, i);
    }
    PositionsReached(matching, LimitOf(filter));
    PageableExactly(matching, LimitOf(filter));
  }

  /** Events of one server with the given stamps, as emitting numbers them. */
  function Stamped(serverId: int, stamps: seq<string>): (rows: seq<PublicEvent>)
    ensures |rows| == |stamps|
  {
    seq(|stamps|, i requires 0 <= i < |stamps| =>
      PublicEvent(i + 1, serverId, "IDENTITY", "", "", "", i + 1, "", stamps[i]))
  }

  function Everything(limit: Option<int>): EventFilter {
    EventFilter(None, None, None, None, None, limit)
  }

  lemma {:induction false} StampedEmitted(serverId: int, stamps: seq<string>)
    ensures Emitted(Stamped(serverId, stamps)) && CountServer(Stamped(serverId, stamps), serverId) == |stamps|
  {
    hide Emitted, NextSeqSpec;
    if stamps == [] {
      NothingEmitted();
    } else {
      var n := |stamps| - 1;
      var before, rows := Stamped(serverId, stamps[..n]), Stamped(serverId, stamps);
      StampedEmitted(serverId, stamps[..n]);
      SequenceHasNoGaps(before, serverId);
      EmitKeepsEmitted(before, rows[n]);
      assert rows == before + [rows[n]];
      assert rows[..n] == before;
    }
  }

  lemma NothingEmitted()
    ensures Emitted([])
  {}

  lemma StampedMatches(serverId: int, stamps: seq<string>, limit: Option<int>)
    ensures Matching(Stamped(serverId, stamps), serverId, Everything(limit)) == Stamped(serverId, stamps)
  {
    var rows := Stamped(serverId, stamps);
    SelectRun(rows, row => Matches(Everything(limit), serverId, row), 0, |stamps|);
    assert rows[0..|stamps|] == rows;
  }

  /** n events of one server within one second. */
  function Burst(n: nat, serverId: int, stamp: string): (rows: seq<PublicEvent>)
    ensures |rows| == n
  {
    Stamped(serverId, seq(n, _ => stamp))
  }

  lemma BurstInTime(n: nat, serverId: int, stamp: string)
    ensures InTime(Burst(n, serverId, stamp))
  {
    AtLeastItself(stamp);
    hide TextAtLeast;
  }

  lemma BurstLog(n: nat, serverId: int, stamp: string, limit: Option<int>)
    ensures var rows := Burst(n, serverId, stamp);
      Emitted(rows) && Matching(rows, serverId, Everything(limit)) == rows
  {
    StampedEmitted(serverId, seq(n, _ => stamp));
    StampedMatches(serverId, seq(n, _ => stamp), limit);
    hide Emitted, Matching;
  }

  lemma BurstFull(n: nat, serverId: int, stamp: string, limit: nat)
    requires limit < n
    ensures FullGroup(Burst(n, serverId, stamp), limit, 0)
  {}

  /** More events in one second than the limit, which is 100 when none is given: the cursor never advances, and
      the last of them is on no page. */
  lemma BurstNeverReached(n: nat, serverId: int, stamp: string, limit: Option<int>)
    requires 0 <= LimitOf(Everything(limit)) < n
    ensures var rows := Burst(n, serverId, stamp);
      && Emitted(rows) && Matching(rows, serverId, Everything(limit)) == rows && InTime(rows)
      && !Reached(rows, serverId, Everything(limit), rows[n - 1])
  {
    hide *;
    var rows := Burst(n, serverId, stamp);
    BurstLog(n, serverId, stamp, limit);
    BurstInTime(n, serverId, stamp);
    BurstFull(n, serverId, stamp, LimitOf(Everything(limit)));
    NeverReached(rows, LimitOf(Everything(limit)), 0);
    ReachedExactly(rows, serverId, Everything(limit), n - 1);
  }

  // ----- a clock that runs backwards -----

  /** Three events, the last of them stamped earlier than the second. */
  function SetBack(serverId: int, early: string, late: string, middle: string): (rows: seq<PublicEvent>)
    ensures |rows| == 3
  {
    Stamped(serverId, [early, late, middle])
  }

  lemma SetBackFrom(serverId: int, early: string, late: string, middle: string, at: EventFilter)
    requires !TextAtLeast(early, late) && !TextAtLeast(middle, late)
    requires at == Everything(Some(2)).(since := Some(late))
    ensures var rows := SetBack(serverId, early, late, middle);
      Matching(rows, serverId, at) == [rows[1]] && Answer(rows, serverId, at) == [rows[1]]
  {
    var rows := SetBack(serverId, early, late, middle);
    SetBackMatches(serverId, early, late, middle, at);
    hide TextAtLeast, Matches, SetBack, Select;
    SelectRun(rows, row => Matches(at, serverId, row), 1, 2);
    assert rows[1..2] == [rows[1]];
    OrderIncreasing([rows[1]]);
    hide OrderBySeq;
  }

  lemma SetBackMatches(serverId: int, early: string, late: string, middle: string, at: EventFilter)
    requires !TextAtLeast(early, late) && !TextAtLeast(middle, late)
    requires at == Everything(Some(2)).(since := Some(late))
    ensures var rows := SetBack(serverId, early, late, middle);
      forall i :: 0 <= i < 3 ==> (Matches(at, serverId, rows[i]) <==> i == 1)
  {
    AtLeastItself(late);
    hide TextAtLeast, DomainText;
  }

  lemma {:induction false} SetBackPages(serverId: int, early: string, late: string, middle: string, n: nat)
    requires !TextAtLeast(early, late) && !TextAtLeast(middle, late)
    ensures var rows, filter := SetBack(serverId, early, late, middle), Everything(Some(2));
      && (n > 0 ==> FilterAt(rows, serverId, filter, n) == filter.(since := Some(late)))
      && rows[2] !in PageAt(rows, serverId, filter, n)
  {
    hide TextAtLeast, Matching, Emitted, Answer;
    var rows, filter := SetBack(serverId, early, late, middle), Everything(Some(2));
    if n == 0 {
      StampedMatches(serverId, [early, late, middle], Some(2));
      StampedEmitted(serverId, [early, late, middle]);
      FirstAnswer(rows, serverId, filter);
    } else {
      SetBackPages(serverId, early, late, middle, n - 1);
      if n == 1 {
        StampedMatches(serverId, [early, late, middle], Some(2));
        StampedEmitted(serverId, [early, late, middle]);
        FirstAnswer(rows, serverId, filter);
      } else {
        SetBackFrom(serverId, early, late, middle, filter.(since := Some(late)));
      }
      SetBackFrom(serverId, early, late, middle, filter.(since := Some(late)));
    }
  }

  lemma FirstAnswer(rows: seq<PublicEvent>, serverId: int, filter: EventFilter)
    requires Emitted(rows) && Matching(rows, serverId, filter) == rows && |rows| == 3 && LimitOf(filter) == 2
    ensures Answer(rows, serverId, filter) == [rows[0], rows[1]]
  {
    hide Emitted, Matching;
    MatchingIncreases(rows, serverId, filter);
    assert rows[..2] == [rows[0], rows[1]];
  }

  /** Without a clock that runs forward the criterion is not enough: of three events with different stamps, the
      last stamped between the others, pages of two never show the last. */
  lemma SetBackNeverReached(serverId: int, early: string, late: string, middle: string)
    requires !TextAtLeast(early, late) && !TextAtLeast(middle, late) && early != middle
    ensures var rows, filter := SetBack(serverId, early, late, middle), Everything(Some(2));
      && Emitted(rows) && Matching(rows, serverId, filter) == rows && Pageable(rows, 2) && !InTime(rows)
      && !Reached(rows, serverId, filter, rows[2])
  {
    var rows := SetBack(serverId, early, late, middle);
    StampedEmitted(serverId, [early, late, middle]);
    StampedMatches(serverId, [early, late, middle], Some(2));
    AtLeastItself(late);
    assert !TextAtLeast(StampOf(rows, 2), StampOf(rows, 1));
    hide TextAtLeast, Emitted, Matching, PageAt;
    forall n: nat
      ensures rows[2] !in PageAt(rows, serverId, Everything(Some(2)), n)
    {
      SetBackPages(serverId, early, late, middle, n);
    }
    forall i | 0 <= i < 3
      ensures !Crowded(rows, 2, i)
    {
      SelectRun(rows, (r: PublicEvent) => r.occurredAt == StampOf(rows, i), i, i + 1);
    }
  }
}
