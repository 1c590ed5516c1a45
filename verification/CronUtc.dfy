/** When the scan of src/scheduler/cronexpr.go finds a match in UTC: an exact condition on the days a
    schedule selects, for every schedule, and what follows from it for particular ones. */
module CronUtc {
  import opened Wrappers
  import opened Decimal
  import opened GoStrings
  import opened CronField
  import opened CronSchedule
  import opened Calendar

  /** UTC. 1 January of year 1 is a Monday. */
  function Utc(m: nat): Civil {
    var n := m / 1440;
    var date := DateOf(n);
    DateOfCounts(n);
    CivilFields(m % 60, m / 60 % 24, date.day, date.month, (n + 1) % 7)
  }

  /** The day `n` days after 1 January of year 1 is selected. */
  predicate SelectsDay(s: Schedule, n: nat)
    requires s.Fields?
  {
    InField(s.days, DateOf(n).day) && InField(s.months, DateOf(n).month) && InField(s.weekdays, (n + 1) % 7)
  }

  /** The minute `t` of the day is selected. */
  predicate SelectsTime(s: Schedule, t: nat)
    requires s.Fields?
  {
    t < 1440 && InField(s.hours, t / 60) && InField(s.minutes, t % 60)
  }

  lemma MatchesByDay(s: Schedule, m: nat)
    requires s.Fields?
    ensures Matches(s, Utc(m)) <==> SelectsDay(s, m / 1440) && SelectsTime(s, m % 1440)
  {
    hide InField, DateOf;
    MinuteParts(m);
  }

  lemma MinuteParts(m: nat)
    ensures m % 1440 % 60 == m % 60 && m % 1440 / 60 == m / 60 % 24
  {
    var minute, hour, day := m % 60, m / 60 % 24, m / 60 / 24;
    assert m == day * 1440 + (hour * 60 + minute);
    Quotient(m, 1440, day, hour * 60 + minute);
    Quotient(hour * 60 + minute, 60, hour, minute);
  }

  lemma MatchesOn(s: Schedule, n: nat, t: nat)
    requires s.Fields? && SelectsDay(s, n) && SelectsTime(s, t)
    ensures Matches(s, Utc(n * 1440 + t))
  {
    hide InField, DateOf;
    var m := n * 1440 + t;
    assert m / 1440 == n && m % 1440 == t;
    MatchesByDay(s, m);
  }

  // ---------------------------------------------------------------------------
  // The exact condition
  // ---------------------------------------------------------------------------

  /** One of the `k` days from `n` on is selected. */
  ghost predicate DayWithin(s: Schedule, n: nat, k: nat)
    requires s.Fields?
  {
    exists x: nat :: n <= x < n + k && SelectsDay(s, x)
  }

  /** How many days a scan can count on: it covers 366 days and one minute, so a 367th is of use only to a
      schedule that selects both the first and the last minute of the day. */
  function Span(s: Schedule): nat
    requires s.Fields?
  {
    if SelectsTime(s, 0) && SelectsTime(s, 1439) then 367 else 366
  }

  ghost predicate HasTime(s: Schedule)
    requires s.Fields?
  {
    exists t :: SelectsTime(s, t)
  }

  /** Every scan from minute `start` on finds a match. */
  ghost predicate AlwaysMatches(s: Schedule, start: nat) {
    forall m: nat :: m >= start ==> FirstMatch(s, Utc, m, SCAN).Some?
  }

  /** In every stretch of `Span(s)` days of a cycle of 400 years a day is selected. */
  ghost predicate NoGap(s: Schedule)
    requires s.Fields?
  {
    forall n: nat :: n < CYCLE ==> DayWithin(s, n, Span(s))
  }

  lemma SelectsNextCycle(s: Schedule, n: nat)
    requires s.Fields?
    ensures SelectsDay(s, n + CYCLE) <==> SelectsDay(s, n)
  {
    hide InField, DateOf;
    SameDayNextCycle(n);
    assert (n + CYCLE + 1) % 7 == (n + 1) % 7;
  }

  lemma WithinNextCycle(s: Schedule, n: nat, k: nat)
    requires s.Fields?
    ensures DayWithin(s, n + CYCLE, k) <==> DayWithin(s, n, k)
  {
    hide SelectsDay;
    if x: nat :| n <= x < n + k && SelectsDay(s, x) {
      SelectsNextCycle(s, x);
      assert SelectsDay(s, x + CYCLE);
    }
    if y: nat :| n + CYCLE <= y < n + CYCLE + k && SelectsDay(s, y) {
      SelectsNextCycle(s, y - CYCLE);
      assert SelectsDay(s, y - CYCLE);
    }
  }

  lemma {:induction false} NoGapEver(s: Schedule, n: nat)
    requires s.Fields? && NoGap(s)
    ensures DayWithin(s, n, Span(s))
    decreases n
  {
    if n >= CYCLE {
      NoGapEver(s, n - CYCLE);
      hide DayWithin, NoGap, Span;
      WithinNextCycle(s, n - CYCLE, Span(s));
    }
  }

  /** A selected day well inside the scan, or at its ends with a time that is. */
  lemma InReach(s: Schedule, m: nat, x: nat, t: nat)
    requires s.Fields? && SelectsDay(s, x) && SelectsTime(s, t)
    requires m <= x * 1440 + t < m + SCAN
    ensures FirstMatch(s, Utc, m, SCAN).Some?
  {
    hide SelectsDay, SelectsTime, Utc, Matches;
    MatchesOn(s, x, t);
  }

  lemma ScanMeetsDay(s: Schedule, m: nat, t: nat)
    requires s.Fields? && NoGap(s) && SelectsTime(s, t)
    ensures FirstMatch(s, Utc, m, SCAN).Some?
  {
    hide SelectsDay, SelectsTime, FirstMatch, NoGap;
    var n := m / 1440;
    assert t < 1440 by { TimeOfDay(s, t); }
    assert m == n * 1440 + m % 1440;
    NoGapEver(s, n);
    NoGapEver(s, n + 1);
    var x: nat :| n <= x < n + Span(s) && SelectsDay(s, x);
    var y: nat :| n + 1 <= y < n + 1 + Span(s) && SelectsDay(s, y);
    if n < x < n + 366 {
      InReach(s, m, x, t);
    } else if n < y < n + 366 {
      InReach(s, m, y, t);
    } else if Span(s) == 367 {
      InReach(s, m, x, if x == n then 1439 else 0);
    } else if t >= m % 1440 {
      InReach(s, m, x, t);
    } else {
      InReach(s, m, y, t);
    }
  }

  lemma TimeOfDay(s: Schedule, t: nat)
    requires s.Fields? && SelectsTime(s, t)
    ensures t < 1440
  {
  }

  /** Where to start a scan that misses a gap from day `n` on: with the gap, or one minute before if the
      minute after the gap is selected. */
  function MissingScan(s: Schedule, n: nat): nat
    requires s.Fields? && n > 0
  {
    if SelectsTime(s, 0) && !SelectsTime(s, 1439) then n * 1440 - 1 else n * 1440
  }

  /** A match in that scan is a selected day within the span. */
  lemma MatchInSpan(s: Schedule, n: nat, x: nat)
    requires s.Fields? && n > 0 && MissingScan(s, n) <= x < MissingScan(s, n) + SCAN && Matches(s, Utc(x))
    ensures DayWithin(s, n, Span(s))
  {
    hide SelectsDay, SelectsTime;
    MatchesByDay(s, x);
    assert x == x / 1440 * 1440 + x % 1440;
    assert x >= (n + 366) * 1440 ==> x % 1440 == 0;
    assert n <= x / 1440 < n + Span(s);
  }

  lemma GapIsMissed(s: Schedule, n: nat)
    requires s.Fields? && n > 0 && !DayWithin(s, n, Span(s))
    ensures FirstMatch(s, Utc, MissingScan(s, n), SCAN).None?
  {
    hide DayWithin, MissingScan, Utc, Span;
    var r := FirstMatch(s, Utc, MissingScan(s, n), SCAN);
    if r.Some? {
      MatchInSpan(s, n, r.value);
    }
  }

  lemma {:induction false} GapLater(s: Schedule, n: nat, k: nat)
    requires s.Fields? && !DayWithin(s, n, Span(s))
    ensures !DayWithin(s, n + k * CYCLE, Span(s))
  {
    if k > 0 {
      GapLater(s, n, k - 1);
      hide DayWithin, Span;
      WithinNextCycle(s, n + (k - 1) * CYCLE, Span(s));
      assert n + k * CYCLE == n + (k - 1) * CYCLE + CYCLE;
    }
  }

  /** For every schedule and from whatever instant on: the scan always finds a match, so that `Next` never
      falls back, if and only if some time of day is selected and no stretch of `Span(s)` days of a cycle of
      400 years is without a selected day. */
  lemma MatchesExactly(s: Schedule, start: nat)
    requires s.Fields?
    ensures AlwaysMatches(s, start) <==> HasTime(s) && NoGap(s)
  {
    hide SelectsDay, SelectsTime, FirstMatch, DayWithin, Span;
    if HasTime(s) && NoGap(s) {
      var t :| SelectsTime(s, t);
      hide NoGap;
      forall m: nat
        ensures FirstMatch(s, Utc, m, SCAN).Some?
      {
        ScanMeetsDay(s, m, t);
      }
    }
    if AlwaysMatches(s, start) {
      assert HasTime(s) by {
        var r := FirstMatch(s, Utc, start, SCAN);
        assert r.Some?;
        MatchedTime(s, start);
      }
      forall n: nat | n < CYCLE
        ensures DayWithin(s, n, Span(s))
      {
        if !DayWithin(s, n, Span(s)) {
          GapLater(s, n, start + 1);
          GapIsMissed(s, n + (start + 1) * CYCLE);
        }
      }
    }
  }

  lemma MatchedTime(s: Schedule, m: nat)
    requires s.Fields? && FirstMatch(s, Utc, m, SCAN).Some?
    ensures HasTime(s)
  {
    var x := FirstMatch(s, Utc, m, SCAN).value;
    hide SelectsDay, SelectsTime;
    MatchesByDay(s, x);
    assert SelectsTime(s, x % 1440);
  }

  // ---------------------------------------------------------------------------
  // Schedules that leave the weekday or the date open
  // ---------------------------------------------------------------------------

  ghost predicate FullField(bits: seq<bool>, min: nat, max: nat) {
    forall v :: min <= v <= max ==> InField(bits, v)
  }

  /** Some selected day exists in some selected month of every year. */
  ghost predicate HasSureDay(s: Schedule)
    requires s.Fields?
  {
    exists mo, d :: 1 <= mo <= 12 && 1 <= d <= SureDays(mo) && InField(s.months, mo) && InField(s.days, d)
  }

  lemma SureDayWithin(s: Schedule, n: nat)
    requires s.Fields? && FullField(s.weekdays, 0, 6) && HasSureDay(s)
    ensures DayWithin(s, n, 366)
  {
    var mo, d :| 1 <= mo <= 12 && 1 <= d <= SureDays(mo) && InField(s.months, mo) && InField(s.days, d);
    var k := AnniversaryWithinYear(n, mo, d);
    hide InField, DateOf;
    assert 0 <= (n + k + 1) % 7 < 7;
    assert SelectsDay(s, n + k);
  }

  lemma WithinFirstYear(s: Schedule)
    requires s.Fields? && DayWithin(s, 0, 367)
    ensures HasSureDay(s)
  {
    var x: nat :| 0 <= x < 367 && SelectsDay(s, x);
    hide DateOf, InField;
    NoLeapDayAtFirst(x);
    DateOfCounts(x);
  }

  lemma WithinLonger(s: Schedule, n: nat, j: nat, k: nat)
    requires s.Fields? && DayWithin(s, n, j) && j <= k
    ensures DayWithin(s, n, k)
  {
    var x: nat :| n <= x < n + j && SelectsDay(s, x);
  }

  /** With every weekday allowed, the scan always finds a match exactly when some selected day exists in
      some selected month of every year. */
  lemma AnyWeekdayMatches(s: Schedule, start: nat)
    requires s.Fields? && FullField(s.weekdays, 0, 6) && HasTime(s)
    ensures AlwaysMatches(s, start) <==> HasSureDay(s)
  {
    hide FullField, HasTime, AlwaysMatches, DayWithin, HasSureDay, SelectsTime;
    MatchesExactly(s, start);
    if HasSureDay(s) {
      forall n: nat
        ensures DayWithin(s, n, Span(s))
      {
        SureDayWithin(s, n);
        WithinLonger(s, n, 366, Span(s));
      }
    }
    if NoGap(s) {
      WithinLonger(s, 0, Span(s), 367);
      WithinFirstYear(s);
    }
  }

  /** With every day and month allowed, some weekday is enough. */
  lemma AnyDayMatches(s: Schedule, w: nat, start: nat)
    requires s.Fields? && FullField(s.days, 1, 31) && FullField(s.months, 1, 12) && HasTime(s)
    requires w < 7 && InField(s.weekdays, w)
    ensures AlwaysMatches(s, start)
  {
    hide FullField, HasTime, AlwaysMatches, DayWithin, InField;
    MatchesExactly(s, start);
    forall n: nat
      ensures DayWithin(s, n, Span(s))
    {
      WeekdayWithin(s, w, n);
      WithinLonger(s, n, 7, Span(s));
    }
  }

  lemma WeekdayWithin(s: Schedule, w: nat, n: nat)
    requires s.Fields? && FullField(s.days, 1, 31) && FullField(s.months, 1, 12)
    requires w < 7 && InField(s.weekdays, w)
    ensures DayWithin(s, n, 7)
  {
    hide InField, DateOf;
    var x := NextWeekday(n, w);
    assert SelectsDay(s, x);
  }

  /** The next day that is weekday `w`, today included. */
  lemma NextWeekday(n: nat, w: nat) returns (x: nat)
    requires w < 7
    ensures n <= x < n + 7 && (x + 1) % 7 == w
    ensures 1 <= DateOf(x).month <= 12 && 1 <= DateOf(x).day <= 31
  {
    hide DateOf;
    DayOfWeek(n, w);
    x := n + (w + 13 - n % 7) % 7;
    DateOfCounts(x);
  }

  lemma DayOfWeek(n: nat, w: nat)
    requires w < 7
    ensures var k := (w + 13 - n % 7) % 7; k < 7 && (n + k + 1) % 7 == w
  {
  }

  lemma SomeValue(bits: seq<bool>, field: string, min: int, max: int) returns (v: nat)
    requires ReadsField(bits, field, min, max) && 0 <= min && max < |bits|
    ensures min <= v <= max && InField(bits, v)
  {
    ReadFieldNonEmpty(bits, field, min, max);
    v :| min <= v <= max && InField(bits, v);
  }

  /** A parsed schedule selects some time of day. */
  lemma ParsedHasTime(s: Schedule, fields: seq<string>)
    requires |fields| == 5 && ReadsFields(s, fields)
    ensures HasTime(s)
  {
    hide ReadsField;
    var mi := SomeValue(s.minutes, fields[0], 0, 59);
    var h := SomeValue(s.hours, fields[1], 0, 23);
    hide InField;
    var t := h * 60 + mi;
    assert t / 60 == h && t % 60 == mi;
    assert SelectsTime(s, t);
  }

  /** A parsed five-field expression whose weekday field is full and whose day field contains a day
      up to 28, or whose day and month fields are full, always has a match in the scan. */
  lemma ParsedAlwaysMatches(s: Schedule, fields: seq<string>, start: nat)
    requires |fields| == 5 && ReadsFields(s, fields)
    requires || (FullField(s.weekdays, 0, 6) && exists d :: 1 <= d <= 28 && InField(s.days, d))
             || (FullField(s.days, 1, 31) && FullField(s.months, 1, 12))
    ensures AlwaysMatches(s, start)
  {
    hide InField, ReadsField, AlwaysMatches, HasTime;
    ParsedHasTime(s, fields);
    if FullField(s.days, 1, 31) && FullField(s.months, 1, 12) {
      var w := SomeValue(s.weekdays, fields[4], 0, 6);
      AnyDayMatches(s, w, start);
    } else {
      var mo := SomeValue(s.months, fields[3], 1, 12);
      var d :| 1 <= d <= 28 && InField(s.days, d);
      assert HasSureDay(s);
      AnyWeekdayMatches(s, start);
    }
  }

  /** For such an expression `Next` never falls back: its result is a match within the scan. */
  lemma ParsedExpressionMatches(s: Schedule, fields: seq<string>, from: nat)
    requires |fields| == 5 && ReadsFields(s, fields)
    requires || (FullField(s.weekdays, 0, 6) && exists d :: 1 <= d <= 28 && InField(s.days, d))
             || (FullField(s.days, 1, 31) && FullField(s.months, 1, 12))
    ensures MatchingMinute(s, Utc, NextTime(s, from, Utc)) && InScan(from, NextTime(s, from, Utc))
  {
    ParsedAlwaysMatches(s, fields, 0);
    hide ReadsFields, FullField, Utc;
    var m := FirstMatch(s, Utc, NextMinute(from), SCAN).value;
    MinuteMark(m);
    InScanMinutes(from, m * MINUTE);
  }

  // ---------------------------------------------------------------------------
  // Schedules that fall back
  // ---------------------------------------------------------------------------

  function LongestMonth(mo: nat): nat {
    if mo == 2 then 29 else SureDays(mo)
  }

  /** When no selected day exists in any selected month of any year, `Next` always falls back to one
      minute later. */
  lemma ImpossibleDateFallsBack(s: Schedule, from: nat)
    requires s.Fields?
    requires forall mo, d :: InField(s.months, mo) && InField(s.days, d) ==> d > LongestMonth(mo)
    ensures NextTime(s, from, Utc) == from + MINUTE
  {
    var r := FirstMatch(s, Utc, NextMinute(from), SCAN);
    if r.Some? {
      var mo, d := MatchedDate(s, r.value);
    }
  }

  lemma MatchedDate(s: Schedule, x: nat) returns (mo: nat, d: nat)
    requires Matches(s, Utc(x))
    ensures InField(s.months, mo) && InField(s.days, d) && d <= LongestMonth(mo)
  {
    DateOfCounts(x / 1440);
    mo, d := DateOf(x / 1440).month, DateOf(x / 1440).day;
  }

  /** A field that is one number selects just that number. */
  lemma NumberField(bits: seq<bool>, n: nat, min: int, max: int)
    requires 0 <= min <= n <= max < MAX_INT64
    ensures PartsOutcome(Split(PrintInt(n), ','), min, max).Accepted?
    ensures ReadsField(bits, PrintInt(n), min, max) ==> forall v :: InField(bits, v) ==> v == n
  {
    FieldRoundTrip([n], min, max);
    assert PrintValues([n]) == [PrintInt(n)] by { assert PrintValues([]) == []; }
    assert Join([PrintInt(n)], ',') == PrintInt(n);
  }

  lemma StarField(min: int, max: int)
    requires 0 <= min <= max < MAX_INT64
    ensures PartsOutcome(Split("*", ','), min, max).Accepted?
  {
    assert Split("*", ',') == ["*"];
    assert IndexOf("*", '/') == None;
    assert PartOutcome("*", min, max).Accepted?;
    assert ["*"][1..] == [];
  }

  /** 31 February: `0 0 31 2 *` is accepted, and its `Next` always falls back. */
  lemma ThirtyFirstOfFebruary(s: Schedule, from: nat)
    requires ReadsFields(s, ["0", "0", "31", "2", "*"])
    ensures FieldsOutcome(["0", "0", "31", "2", "*"]).Accepted? && NextTime(s, from, Utc) == from + MINUTE
  {
    assert PrintInt(0) == "0" && PrintInt(31) == "31" && PrintInt(2) == "2";
    hide PartsOutcome, Split, PrintInt, InField, ReadsField;
    NumberField(s.minutes, 0, 0, 59);
    NumberField(s.hours, 0, 0, 23);
    NumberField(s.days, 31, 1, 31);
    NumberField(s.months, 2, 1, 12);
    StarField(0, 6);
    ImpossibleDateFallsBack(s, from);
  }

  /** Friday the 13th: `0 0 13 * 5` falls back too, from some instant after any given one. */
  lemma FridayTheThirteenth(s: Schedule, start: nat)
    requires ReadsFields(s, ["0", "0", "13", "*", "5"])
    ensures FieldsOutcome(["0", "0", "13", "*", "5"]).Accepted? && !AlwaysMatches(s, start)
  {
    assert PrintInt(0) == "0" && PrintInt(13) == "13" && PrintInt(5) == "5";
    hide PartsOutcome, Split, PrintInt, InField, ReadsField, DateOf, AlwaysMatches;
    NumberField(s.minutes, 0, 0, 59);
    NumberField(s.hours, 0, 0, 23);
    NumberField(s.days, 13, 1, 31);
    StarField(1, 12);
    NumberField(s.weekdays, 5, 0, 6);
    MatchesExactly(s, start);
    assert !SelectsTime(s, 1439) && 194 < CYCLE;
    if x: nat :| 194 <= x < 194 + 366 && SelectsDay(s, x) {
      NoFridayTheThirteenth(x);
    }
    assert !DayWithin(s, 194, Span(s));
  }
}
