/** The `since` filter: rows are stamped in UTC as "YYYY-MM-DD HH:MM:SS", the filter is documented to take an ISO
    8601 time, and the two are compared as text. */
module EventTimes {
  import opened EventLog
  import opened Wrappers

  // ----- the calendar -----

  predicate IsLeap(year: nat) {
    year % 4 == 0 && (year % 100 != 0 || year % 400 == 0)
  }

  function DaysInMonth(year: nat, month: nat): nat {
    if month == 2 then (if IsLeap(year) then 29 else 28)
    else if month in {4, 6, 9, 11} then 30
    else 31
  }

  /** The days of the months before this one. */
  function DaysBeforeMonth(year: nat, month: nat): nat
    requires month >= 1
  {
    if month == 1 then 0 else DaysBeforeMonth(year, month - 1) + DaysInMonth(year, month - 1)
  }

  /** The days of the years before this one. */
  function DaysBeforeYear(year: nat): nat {
    if year == 0 then 0 else DaysBeforeYear(year - 1) + if IsLeap(year - 1) then 366 else 365
  }

  /** A second of the Gregorian calendar, in the years 0 to 9999. */
  datatype Time = Time(year: nat, month: nat, day: nat, hour: nat, minute: nat, second: nat) {
    predicate InRange() {
      && year < 10_000 && 1 <= month <= 12 && 1 <= day <= DaysInMonth(year, month)
      && hour < 24 && minute < 60 && second < 60
    }

    predicate SameDate(b: Time) {
      year == b.year && month == b.month && day == b.day
    }

    predicate DateAfter(b: Time) {
      year > b.year || (year == b.year && (month > b.month || (month == b.month && day > b.day)))
    }

    predicate ClockNotBefore(b: Time) {
      hour > b.hour || (hour == b.hour && (minute > b.minute || (minute == b.minute && second >= b.second)))
    }

    predicate NotBefore(b: Time) {
      DateAfter(b) || (SameDate(b) && ClockNotBefore(b))
    }

    /** Days since the first day of year 0. */
    function Days(): int
      requires InRange()
    {
      DaysBeforeYear(year) + DaysBeforeMonth(year, month) + day - 1
    }

    function ClockSeconds(): nat {
      hour * 3600 + minute * 60 + second
    }

    /** Seconds since the start of year 0. */
    function Seconds(): int
      requires InRange()
    {
      Days() * 86400 + ClockSeconds()
    }

    /** The last second of the date. */
    function EndOfDate(): Time {
      Time(year, month, day, 23, 59, 59)
    }

    /** The midnight after the date. */
    function NextMidnight(): Time {
      if day < DaysInMonth(year, month) then Time(year, month, day + 1, 0, 0, 0)
      else if month < 12 then Time(year, month + 1, 1, 0, 0, 0)
      else Time(year + 1, 1, 1, 0, 0, 0)
    }
  }

  lemma {:induction false} MonthsAddUp(year: nat, month: nat, later: nat)
    requires 1 <= month < later <= 13
    ensures DaysBeforeMonth(year, month) + DaysInMonth(year, month) <= DaysBeforeMonth(year, later)
    ensures later == month + 1 ==>
      DaysBeforeMonth(year, month) + DaysInMonth(year, month) == DaysBeforeMonth(year, later)
  {
    if month + 1 < later {
      MonthsAddUp(year, month, later - 1);
    }
  }

  lemma YearOfMonths(year: nat)
    ensures DaysBeforeMonth(year, 13) == if IsLeap(year) then 366 else 365
  {
    forall month | 1 <= month <= 12
      ensures DaysBeforeMonth(year, month + 1) == DaysBeforeMonth(year, month) + DaysInMonth(year, month)
    {}
    assert DaysBeforeMonth(year, 4) == 90 + if IsLeap(year) then 1 else 0;
    assert DaysBeforeMonth(year, 8) == DaysBeforeMonth(year, 4) + 122;
    assert DaysBeforeMonth(year, 12) == DaysBeforeMonth(year, 8) + 122;
  }

  /** The days before each month of a common year, one more from March on in a leap year. */
  const MONTH_STARTS := [0, 31, 59, 90, 120, 151, 181, 212, 243, 273, 304, 334, 365]

  lemma {:induction false} MonthStarts(year: nat, month: nat)
    requires 1 <= month <= 13
    ensures DaysBeforeMonth(year, month)
      == MONTH_STARTS[month - 1] + if month > 2 && IsLeap(year) then 1 else 0
  {
    hide IsLeap;
    if month > 1 {
      MonthStarts(year, month - 1);
    }
  }

  /** A leap year every four years, but not every hundred, but every four hundred. */
  lemma {:induction false} LeapYears(year: nat)
    ensures DaysBeforeYear(year) == 365 * year + (year + 3) / 4 - (year + 99) / 100 + (year + 399) / 400
  {
    if year > 0 {
      LeapYears(year - 1);
      MultiplesStep(year - 1);
    }
  }

  /** How the counts of multiples of 4, 100 and 400 below a year grow. */
  lemma MultiplesStep(n: nat)
    ensures (n + 4) / 4 == (n + 3) / 4 + if n % 4 == 0 then 1 else 0
    ensures (n + 100) / 100 == (n + 99) / 100 + if n % 100 == 0 then 1 else 0
    ensures (n + 400) / 400 == (n + 399) / 400 + if n % 400 == 0 then 1 else 0
    ensures n % 400 == 0 ==> n % 100 == 0
    ensures n % 100 == 0 ==> n % 4 == 0
  {
    MultiplesOf4(n);
    MultiplesOf100(n);
    MultiplesOf400(n);
    FourDivides(n);
    HundredDivides(n);
  }

  lemma FourDivides(n: nat)
    ensures n % 100 == 0 ==> n % 4 == 0
  {
    if n % 100 == 0 {
      var k := 25 * (n / 100);
      assert n == 4 * k;
      FourTimes(k);
    }
  }

  lemma FourTimes(k: nat)
    ensures (4 * k) % 4 == 0
  {}

  lemma HundredDivides(n: nat)
    ensures n % 400 == 0 ==> n % 100 == 0
  {
    if n % 400 == 0 {
      var k := 4 * (n / 400);
      assert n == 100 * k;
      HundredTimes(k);
    }
  }

  lemma HundredTimes(k: nat)
    ensures (100 * k) % 100 == 0
  {}

  lemma MultiplesOf4(n: nat)
    ensures (n + 4) / 4 == (n + 3) / 4 + if n % 4 == 0 then 1 else 0
  {}

  lemma MultiplesOf100(n: nat)
    ensures (n + 100) / 100 == (n + 99) / 100 + if n % 100 == 0 then 1 else 0
  {}

  lemma MultiplesOf400(n: nat)
    ensures (n + 400) / 400 == (n + 399) / 400 + if n % 400 == 0 then 1 else 0
  {}

  lemma {:induction false} YearsAddUp(year: nat, later: nat)
    requires year < later
    ensures DaysBeforeYear(year) + DaysBeforeMonth(year, 13) <= DaysBeforeYear(later)
    ensures later == year + 1 ==> DaysBeforeYear(year) + DaysBeforeMonth(year, 13) == DaysBeforeYear(later)
  {
    hide DaysBeforeMonth;
    YearOfMonths(year);
    if year + 1 < later {
      YearsAddUp(year, later - 1);
    }
  }

  lemma DayOfYear(t: Time)
    requires t.InRange()
    ensures DaysBeforeMonth(t.year, t.month) + t.day <= DaysBeforeMonth(t.year, 13)
  {
    MonthsAddUp(t.year, t.month, 13);
  }

  lemma LaterDateMoreDays(a: Time, b: Time)
    requires a.InRange() && b.InRange() && a.DateAfter(b)
    ensures a.Days() > b.Days()
  {
    hide DaysBeforeMonth, DaysBeforeYear, DaysInMonth;
    DayOfYear(b);
    if a.year > b.year {
      YearsAddUp(b.year, a.year);
    } else if a.month > b.month {
      MonthsAddUp(a.year, b.month, a.month);
    }
  }

  /** Fields, from the year down, order times as counting days and seconds does. */
  lemma TimeOrder(a: Time, b: Time)
    requires a.InRange() && b.InRange()
    ensures a.DateAfter(b) <==> a.Days() > b.Days()
    ensures a.SameDate(b) <==> a.Days() == b.Days()
    ensures a.ClockNotBefore(b) <==> a.ClockSeconds() >= b.ClockSeconds()
    ensures a.NotBefore(b) <==> a.Seconds() >= b.Seconds()
  {
    hide DaysBeforeMonth, DaysBeforeYear, DaysInMonth;
    if a.DateAfter(b) {
      LaterDateMoreDays(a, b);
    } else if b.DateAfter(a) {
      LaterDateMoreDays(b, a);
    }
    ClockOf(a);
    ClockOf(b);
  }

  lemma ClockOf(t: Time)
    requires t.InRange()
    ensures t.ClockSeconds() < 86400
  {
    hide DaysInMonth;
  }

  lemma NextMidnightFollows(t: Time)
    requires t.InRange()
    ensures t.EndOfDate().InRange() && t.EndOfDate().Seconds() == t.Days() * 86400 + 86399
    ensures t.NextMidnight().InRange() <==> (t.year, t.month, t.day) != (9999, 12, 31)
    ensures t.NextMidnight().InRange() ==> t.NextMidnight().Seconds() == t.Days() * 86400 + 86400
  {
    hide DaysBeforeMonth, DaysBeforeYear;
    assert DaysBeforeMonth(t.year + 1, 1) == 0 by {
      FirstMonth(t.year + 1);
    }
    if t.month < 12 {
      MonthsAddUp(t.year, t.month, t.month + 1);
    } else {
      MonthsAddUp(t.year, 12, 13);
      YearsAddUp(t.year, t.year + 1);
    }
  }

  lemma FirstMonth(year: nat)
    ensures DaysBeforeMonth(year, 1) == 0
  {}

  // ----- the texts -----

  function Two(n: nat): string
    requires n < 100
  {
    [('0' as int + n / 10) as char, ('0' as int + n % 10) as char]
  }

  function Four(n: nat): string
    requires n < 10_000
  {
    Two(n / 100) + Two(n % 100)
  }

  /** `YYYY-MM-DD` */
  function DateText(t: Time): string
    requires t.InRange()
  {
    Four(t.year) + ("-" + (Two(t.month) + ("-" + Two(t.day))))
  }

  /** `HH:MM:SS` */
  function ClockText(t: Time): string
    requires t.InRange()
  {
    Two(t.hour) + (":" + (Two(t.minute) + (":" + Two(t.second))))
  }

  /** As `datetime('now')` stamps a row. */
  function StoredText(t: Time): string
    requires t.InRange()
  {
    DateText(t) + (" " + ClockText(t))
  }

  /** A date and a time of day in the ISO 8601 form, and what follows the seconds. */
  function IsoText(t: Time, rest: string): string
    requires t.InRange()
  {
    DateText(t) + ("T" + (ClockText(t) + rest))
  }

  /** Two texts whose first fields have one width compare by the first field that differs. */
  lemma {:induction false} FieldDecides(a: string, b: string, restA: string, restB: string)
    requires |a| == |b|
    ensures TextAtLeast(a + restA, b + restB) <==> if a == b then TextAtLeast(restA, restB) else TextAtLeast(a, b)
    ensures a == b ==> TextAtLeast(a, b)
  {
    if a == "" {
      assert a + restA == restA && b + restB == restB;
    } else {
      FieldDecides(a[1..], b[1..], restA, restB);
      assert (a + restA)[1..] == a[1..] + restA && (b + restB)[1..] == b[1..] + restB;
      assert a == [a[0]] + a[1..] && b == [b[0]] + b[1..];
    }
  }

  lemma TwoOrder(m: nat, n: nat)
    requires m < 100 && n < 100
    ensures |Two(m)| == |Two(n)| == 2
    ensures TextAtLeast(Two(m), Two(n)) <==> m >= n
    ensures Two(m) == Two(n) <==> m == n
  {
    assert TextAtLeast(Two(m)[1..], Two(n)[1..]) <==> m % 10 >= n % 10 by {
      assert Two(m)[1..][1..] == "" && Two(n)[1..][1..] == "";
    }
    assert m == m / 10 * 10 + m % 10 && n == n / 10 * 10 + n % 10;
    assert Two(m)[0] == Two(n)[0] <==> m / 10 == n / 10;
    assert Two(m)[1] == Two(n)[1] <==> m % 10 == n % 10;
  }

  lemma FourOrder(m: nat, n: nat)
    requires m < 10_000 && n < 10_000
    ensures |Four(m)| == |Four(n)| == 4
    ensures TextAtLeast(Four(m), Four(n)) <==> m >= n
    ensures Four(m) == Four(n) <==> m == n
  {
    hide Two, TextAtLeast;
    TwoOrder(m / 100, n / 100);
    TwoOrder(m % 100, n % 100);
    FieldDecides(Two(m / 100), Two(n / 100), Two(m % 100), Two(n % 100));
    FieldsEqual(Two(m / 100), Two(n / 100), Two(m % 100), Two(n % 100));
  }

  lemma FieldsEqual(a: string, b: string, restA: string, restB: string)
    requires |a| == |b|
    ensures a + restA == b + restB <==> a == b && restA == restB
  {
    if a + restA == b + restB {
      assert (a + restA)[..|a|] == a && (b + restB)[..|a|] == b;
      assert (a + restA)[|a|..] == restA && (b + restB)[|a|..] == restB;
    }
  }

  /** A field of one width, a separator and a remainder, against another such text. */
  lemma Separated(a: string, b: string, separator: string, restA: string, restB: string)
    requires |a| == |b| && |separator| == 1
    ensures TextAtLeast(a + (separator + restA), b + (separator + restB)) <==>
      if a == b then TextAtLeast(restA, restB) else TextAtLeast(a, b)
    ensures a + (separator + restA) == b + (separator + restB) <==> a == b && restA == restB
  {
    FieldDecides(a, b, separator + restA, separator + restB);
    FieldDecides(separator, separator, restA, restB);
    FieldsEqual(a, b, separator + restA, separator + restB);
    FieldsEqual(separator, separator, restA, restB);
  }

  lemma DateOrder(a: Time, b: Time)
    requires a.InRange() && b.InRange()
    ensures |DateText(a)| == |DateText(b)| == 10
    ensures TextAtLeast(DateText(a), DateText(b)) <==> a.DateAfter(b) || a.SameDate(b)
    ensures DateText(a) == DateText(b) <==> a.SameDate(b)
  {
    hide Two, Four, TextAtLeast;
    FourOrder(a.year, b.year);
    TwoOrder(a.month, b.month);
    TwoOrder(a.day, b.day);
    Separated(Two(a.month), Two(b.month), "-", Two(a.day), Two(b.day));
    Separated(Four(a.year), Four(b.year), "-",
      Two(a.month) + ("-" + Two(a.day)), Two(b.month) + ("-" + Two(b.day)));
  }

  lemma ClockOrder(a: Time, b: Time)
    requires a.InRange() && b.InRange()
    ensures TextAtLeast(ClockText(a), ClockText(b)) <==> a.ClockNotBefore(b)
  {
    hide Two, TextAtLeast;
    TwoOrder(a.hour, b.hour);
    TwoOrder(a.minute, b.minute);
    TwoOrder(a.second, b.second);
    Separated(Two(a.minute), Two(b.minute), ":", Two(a.second), Two(b.second));
    Separated(Two(a.hour), Two(b.hour), ":",
      Two(a.minute) + (":" + Two(a.second)), Two(b.minute) + (":" + Two(b.second)));
  }

  lemma TextAtLeastEmpty(a: string)
    ensures TextAtLeast(a, "")
  {}

  /** What the text comparison of `since` selects, for the three forms of a time: a time as rows are stamped
      selects by time; a bare date selects from that date on; the ISO 8601 form, whatever follows its seconds,
      selects the dates after the one written. */
  lemma SinceSelects(row: Time, since: Time, rest: string)
    requires row.InRange() && since.InRange()
    ensures TextAtLeast(StoredText(row), StoredText(since)) <==> row.Seconds() >= since.Seconds()
    ensures TextAtLeast(StoredText(row), DateText(since)) <==> row.Days() >= since.Days()
    ensures TextAtLeast(StoredText(row), IsoText(since, rest)) <==> row.Days() > since.Days()
  {
    DateOrder(row, since);
    ClockOrder(row, since);
    TimeOrder(row, since);
    var a, b := DateText(row), DateText(since);
    assert !TextAtLeast(" " + ClockText(row), "T" + (ClockText(since) + rest));
    hide DateText, ClockText, TextAtLeast, DaysInMonth, DaysBeforeMonth, DaysBeforeYear;
    Separated(a, b, " ", ClockText(row), ClockText(since));
    FieldDecides(a, b, " " + ClockText(row), "T" + (ClockText(since) + rest));
    FieldDecides(a, b, " " + ClockText(row), "");
    TextAtLeastEmpty(" " + ClockText(row));
    assert b + "" == b;
  }

  // ----- the instant an ISO 8601 time denotes -----

  /** Nothing, which is taken for UTC as the stamps are; `Z`; or `+hh:mm` and `-hh:mm`. */
  datatype Zone = Unstated | Zulu | Offset(ahead: bool, hours: nat, minutes: nat) {
    predicate InRange() {
      Offset? ==> hours < 24 && minutes < 60
    }

    /** How many seconds its clocks are ahead of UTC. */
    function Seconds(): int {
      match this
      case Offset(ahead, hours, minutes) => (if ahead then 1 else -1) * (hours * 3600 + minutes * 60)
      case _ => 0
    }

    function Text(): string
      requires InRange()
    {
      match this
      case Unstated => ""
      case Zulu => "Z"
      case Offset(ahead, hours, minutes) => (if ahead then "+" else "-") + Two(hours) + ":" + Two(minutes)
    }
  }

  type Digit = n: nat | n < 10

  function DigitsText(digits: seq<Digit>): string {
    seq(|digits|, i requires 0 <= i < |digits| => ('0' as int + digits[i]) as char)
  }

  /** The value of decimals after the point. */
  function Decimals(digits: seq<Digit>): (value: real)
    ensures 0.0 <= value < 1.0
  {
    if digits == [] then 0.0 else (digits[0] as real + Decimals(digits[1..])) / 10.0
  }

  datatype IsoTime = IsoTime(written: Time, fraction: seq<Digit>, zone: Zone) {
    predicate InRange() {
      written.InRange() && zone.InRange()
    }

    function Text(): string
      requires InRange()
    {
      IsoText(written, (if fraction == [] then "" else "." + DigitsText(fraction)) + zone.Text())
    }

    /** In seconds since the start of year 0, UTC. */
    function Instant(): real
      requires InRange()
    {
      written.Seconds() as real + Decimals(fraction) - zone.Seconds() as real
    }

    /** The midnight after the written date, as if it were in UTC: where the text comparison begins to select. */
    function Cutoff(): real
      requires InRange()
    {
      (written.Days() * 86400 + 86400) as real
    }
  }

  /** The stamp is at or after the instant the filter denotes. */
  predicate Due(at: Time, since: IsoTime)
    requires at.InRange() && since.InRange()
  {
    at.Seconds() as real >= since.Instant()
  }

  /** The stamp passes the filter's text comparison. */
  predicate Passes(at: Time, since: IsoTime)
    requires at.InRange() && since.InRange()
  {
    TextAtLeast(StoredText(at), since.Text())
  }

  lemma PassesFromCutoff(at: Time, since: IsoTime)
    requires at.InRange() && since.InRange()
    ensures Passes(at, since) <==> at.Days() > since.written.Days()
    ensures Passes(at, since) <==> at.Seconds() as real >= since.Cutoff()
  {
    hide DaysInMonth, DaysBeforeMonth, DaysBeforeYear, StoredText, IsoText, TextAtLeast, DigitsText;
    SinceSelects(at, since.written,
      (if since.fraction == [] then "" else "." + DigitsText(since.fraction)) + since.zone.Text());
    ClockOf(at);
  }

  /** A row of the server that meets the other fields is dropped wrongly exactly when it is stamped from the
      denoted instant on but before the midnight after the written date, and kept wrongly exactly when it is
      stamped from that midnight on but before the instant. */
  lemma IsoSinceExactly(filter: EventFilter, serverId: int, row: PublicEvent, at: Time, since: IsoTime)
    requires at.InRange() && since.InRange() && row.occurredAt == StoredText(at)
    requires filter.since == Some(since.Text()) && Matches(filter.(since := None), serverId, row)
    ensures !Matches(filter, serverId, row) && Due(at, since) <==>
      since.Instant() <= at.Seconds() as real < since.Cutoff()
    ensures Matches(filter, serverId, row) && !Due(at, since) <==>
      since.Cutoff() <= at.Seconds() as real < since.Instant()
  {
    hide TextAtLeast, StoredText, DomainText, DaysInMonth, DaysBeforeMonth, DaysBeforeYear;
    PassesFromCutoff(at, since);
  }

  /** Without an offset nothing is kept wrongly, and what is dropped wrongly is the rest of the written date. */
  lemma UtcSinceExactly(filter: EventFilter, serverId: int, row: PublicEvent, at: Time, since: IsoTime)
    requires at.InRange() && since.InRange() && row.occurredAt == StoredText(at)
    requires filter.since == Some(since.Text()) && Matches(filter.(since := None), serverId, row)
    requires !since.zone.Offset?
    ensures (Matches(filter, serverId, row) <==> Due(at, since)) <==> !(at.SameDate(since.written) && Due(at, since))
  {
    hide TextAtLeast, StoredText, DomainText, DaysInMonth, DaysBeforeMonth, DaysBeforeYear;
    PassesFromCutoff(at, since);
    TimeOrder(at, since.written);
    ClockOf(at);
    ClockOf(since.written);
  }

  /** Every stamp that a row can have is treated by its time. */
  ghost predicate AlwaysRight(since: IsoTime)
    requires since.InRange()
  {
    forall at: Time :: at.InRange() ==> (Passes(at, since) <==> Due(at, since))
  }

  /** A filter is right for every row exactly when its instant lies in the last second of the written date, up
      to the midnight after it, as clocks in UTC have them; after the last date there are no more stamps. */
  lemma AlwaysRightExactly(since: IsoTime)
    requires since.InRange()
    ensures AlwaysRight(since) <==>
      && since.Cutoff() - 1.0 < since.Instant()
      && (since.Instant() <= since.Cutoff() || !since.written.NextMidnight().InRange())
  {
    var last, next := since.written.EndOfDate(), since.written.NextMidnight();
    NextMidnightFollows(since.written);
    hide Time.InRange, Passes, Due, DaysInMonth, DaysBeforeMonth, DaysBeforeYear;
    RightAt(last, since);
    if next.InRange() {
      RightAt(next, since);
    }
    if since.Cutoff() - 1.0 < since.Instant()
      && (since.Instant() <= since.Cutoff() || !next.InRange())
    {
      forall at: Time | at.InRange()
        ensures Passes(at, since) <==> Due(at, since)
      {
        RightAt(at, since);
        if !next.InRange() {
          LastDate(at, since.written);
        }
      }
    }
  }

  lemma RightAt(at: Time, since: IsoTime)
    requires at.InRange() && since.InRange()
    ensures Passes(at, since) <==> at.Seconds() as real >= since.Cutoff()
    ensures Due(at, since) <==> at.Seconds() as real >= since.Instant()
    ensures at.Seconds() as real < since.Cutoff() <==> at.Seconds() as real <= since.Cutoff() - 1.0
  {
    PassesFromCutoff(at, since);
    hide Passes;
  }

  lemma LastDate(at: Time, written: Time)
    requires at.InRange() && written.InRange() && !written.NextMidnight().InRange()
    ensures at.Seconds() < written.Days() * 86400 + 86400
  {
    NextMidnightFollows(written);
    TimeOrder(at, written);
    hide DaysInMonth, DaysBeforeMonth, DaysBeforeYear;
    ClockOf(at);
  }

  // ----- inputs that the text comparison gets wrong -----

  const MIDNIGHT := IsoTime(Time(2024, 5, 1, 0, 0, 0), [], Zulu)

  const EVENING := Time(2024, 5, 1, 23, 0, 0)

  /** An event of the evening, dropped by a filter that starts at that day's midnight. */
  lemma SameDayDropped()
    ensures EVENING.InRange() && StoredText(EVENING) == "2024-05-01 23:00:00"
    ensures MIDNIGHT.InRange() && MIDNIGHT.Text() == "2024-05-01T00:00:00Z"
    ensures Due(EVENING, MIDNIGHT) && !Passes(EVENING, MIDNIGHT)
  {
    AprilAndMay();
    WitnessTexts();
    assert StoredText(EVENING) == "2024-05-01 23:00:00" && MIDNIGHT.Text() == "2024-05-01T00:00:00Z" by {
      hide DateText, Two, Time.InRange;
    }
    hide StoredText, IsoTime.Text, Time.InRange, Time.Days, Time.Seconds, DaysInMonth, Passes;
    SameDay(EVENING, MIDNIGHT.written);
    PassesFromCutoff(EVENING, MIDNIGHT);
  }

  lemma SameDay(a: Time, b: Time)
    requires a.InRange() && b.InRange() && a.SameDate(b)
    ensures a.Days() == b.Days() && a.Seconds() - b.Seconds() == a.ClockSeconds() - b.ClockSeconds()
  {
    hide DaysInMonth, DaysBeforeMonth, DaysBeforeYear;
  }

  /** 22:30 UTC on 30 April, as a clock two hours ahead has it. */
  const AHEAD := IsoTime(Time(2024, 5, 1, 0, 30, 0), [], Offset(true, 2, 0))

  const LATE_APRIL := Time(2024, 4, 30, 23, 0, 0)

  /** 01:30 UTC on 2 May, as a clock two hours behind has it. */
  const BEHIND := IsoTime(Time(2024, 5, 1, 23, 30, 0), [], Offset(false, 2, 0))

  const EARLY_MAY := Time(2024, 5, 2, 0, 10, 0)

  lemma WitnessTexts()
    ensures Two(0) == "00" && Two(2) == "02" && Two(10) == "10" && Two(23) == "23" && Two(30) == "30"
    ensures AHEAD.InRange() && BEHIND.InRange() && LATE_APRIL.InRange() && EARLY_MAY.InRange()
    ensures EVENING.InRange() && MIDNIGHT.InRange()
    ensures DateText(MIDNIGHT.written) == DateText(EVENING) == "2024-05-01"
    ensures AHEAD.zone.Text() == "+02:00" && BEHIND.zone.Text() == "-02:00"
    ensures DateText(AHEAD.written) == DateText(BEHIND.written) == "2024-05-01"
    ensures DateText(LATE_APRIL) == "2024-04-30" && DateText(EARLY_MAY) == "2024-05-02"
  {
    assert Two(2) == "02" && Two(0) == "00" && Two(4) == "04" && Two(5) == "05" && Two(1) == "01";
    assert Four(2024) == "2024" && Two(10) == "10" && Two(23) == "23" && Two(30) == "30";
    hide Two, Four, DaysInMonth;
    assert DaysInMonth(2024, 4) == 30 && DaysInMonth(2024, 5) == 31 by {
      AprilAndMay();
    }
  }

  /** How far a time of the following date lies ahead. */
  lemma FollowingDate(t: Time, later: Time)
    requires t.InRange() && later.InRange() && later.SameDate(t.NextMidnight())
    ensures later.Days() == t.Days() + 1
    ensures later.Seconds() - t.Seconds() == 86400 + later.ClockSeconds() - t.ClockSeconds()
  {
    NextMidnightFollows(t);
    hide DaysInMonth, DaysBeforeMonth, DaysBeforeYear;
  }

  lemma AprilAndMay()
    ensures DaysInMonth(2024, 4) == 30 && DaysInMonth(2024, 5) == 31
  {}

  /** Dropped though half an hour after the instant, and on another date than the one written. */
  lemma AheadDropped()
    ensures LATE_APRIL.InRange() && StoredText(LATE_APRIL) == "2024-04-30 23:00:00"
    ensures AHEAD.InRange() && AHEAD.Text() == "2024-05-01T00:30:00+02:00"
    ensures Due(LATE_APRIL, AHEAD) && !Passes(LATE_APRIL, AHEAD)
  {
    WitnessTexts();
    assert StoredText(LATE_APRIL) == "2024-04-30 23:00:00" && AHEAD.Text() == "2024-05-01T00:30:00+02:00" by {
      hide DateText, Two, Time.InRange, Zone.Text;
    }
    AprilAndMay();
    hide StoredText, IsoTime.Text, Time.InRange, Time.Days, Time.Seconds, DaysInMonth, Passes;
    FollowingDate(LATE_APRIL, AHEAD.written);
    PassesFromCutoff(LATE_APRIL, AHEAD);
  }

  /** Kept though more than an hour before the instant. */
  lemma BehindKept()
    ensures EARLY_MAY.InRange() && StoredText(EARLY_MAY) == "2024-05-02 00:10:00"
    ensures BEHIND.InRange() && BEHIND.Text() == "2024-05-01T23:30:00-02:00"
    ensures !Due(EARLY_MAY, BEHIND) && Passes(EARLY_MAY, BEHIND)
  {
    WitnessTexts();
    assert StoredText(EARLY_MAY) == "2024-05-02 00:10:00" && BEHIND.Text() == "2024-05-01T23:30:00-02:00" by {
      hide DateText, Two, Time.InRange, Zone.Text;
    }
    AprilAndMay();
    hide StoredText, IsoTime.Text, Time.InRange, Time.Days, Time.Seconds, DaysInMonth, Passes;
    FollowingDate(BEHIND.written, EARLY_MAY);
    PassesFromCutoff(EARLY_MAY, BEHIND);
  }
}
