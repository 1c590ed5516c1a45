/** The proleptic Gregorian calendar in UTC, defined by stepping from one day to the next from
    1 January of year 1, the zero of Go's clock; and the fact the cron scan relies on: every day of
    the year that exists in all years comes round within 366 days. */
module Calendar {

  datatype Date = Date(year: nat, month: nat, day: nat)

  predicate IsLeap(y: nat) {
    y % 4 == 0 && (y % 100 != 0 || y % 400 == 0)
  }

  function DaysIn(y: nat, m: nat): nat {
    if m == 2 then (if IsLeap(y) then 29 else 28)
    else if m == 4 || m == 6 || m == 9 || m == 11 then 30
    else 31
  }

  predicate ValidDate(d: Date) {
    d.year >= 1 && 1 <= d.month <= 12 && 1 <= d.day <= DaysIn(d.year, d.month)
  }

  function NextDay(d: Date): Date {
    if d.day < DaysIn(d.year, d.month) then Date(d.year, d.month, d.day + 1)
    else if d.month < 12 then Date(d.year, d.month + 1, 1)
    else Date(d.year + 1, 1, 1)
  }

  /** The date `n` days after 1 January of year 1. */
  function DateOf(n: nat): Date {
    if n == 0 then Date(1, 1, 1) else NextDay(DateOf(n - 1))
  }

  // ---------------------------------------------------------------------------
  // Counting days
  // ---------------------------------------------------------------------------

  function YearLength(y: nat): nat {
    if IsLeap(y) then 366 else 365
  }

  function DaysBeforeYear(y: nat): nat {
    if y <= 1 then 0 else DaysBeforeYear(y - 1) + YearLength(y - 1)
  }

  function DaysBeforeMonth(y: nat, m: nat): nat {
    if m <= 1 then 0 else DaysBeforeMonth(y, m - 1) + DaysIn(y, m - 1)
  }

  function Ordinal(d: Date): int {
    DaysBeforeYear(d.year) + DaysBeforeMonth(d.year, d.month) + d.day - 1
  }

  /** The lengths of the months before each month, written out. */
  lemma MonthTable(y: nat)
    ensures DaysBeforeMonth(y, 1) == 0 && DaysBeforeMonth(y, 2) == 31
    ensures var leap := if IsLeap(y) then 1 else 0;
            && DaysBeforeMonth(y, 3) == 59 + leap && DaysBeforeMonth(y, 4) == 90 + leap
            && DaysBeforeMonth(y, 5) == 120 + leap && DaysBeforeMonth(y, 6) == 151 + leap
            && DaysBeforeMonth(y, 7) == 181 + leap && DaysBeforeMonth(y, 8) == 212 + leap
            && DaysBeforeMonth(y, 9) == 243 + leap && DaysBeforeMonth(y, 10) == 273 + leap
            && DaysBeforeMonth(y, 11) == 304 + leap && DaysBeforeMonth(y, 12) == 334 + leap
  {
    assert DaysBeforeMonth(y, 3) == DaysBeforeMonth(y, 2) + DaysIn(y, 2);
    assert DaysBeforeMonth(y, 5) == DaysBeforeMonth(y, 4) + DaysIn(y, 4);
    assert DaysBeforeMonth(y, 7) == DaysBeforeMonth(y, 6) + DaysIn(y, 6);
    assert DaysBeforeMonth(y, 9) == DaysBeforeMonth(y, 8) + DaysIn(y, 8);
    assert DaysBeforeMonth(y, 11) == DaysBeforeMonth(y, 10) + DaysIn(y, 10);
  }

  lemma NextDayCounts(d: Date)
    requires ValidDate(d)
    ensures ValidDate(NextDay(d)) && Ordinal(NextDay(d)) == Ordinal(d) + 1
  {
    MonthTable(d.year);
  }

  lemma {:induction false} DateOfCounts(n: nat)
    ensures ValidDate(DateOf(n)) && Ordinal(DateOf(n)) == n
  {
    if n > 0 {
      DateOfCounts(n - 1);
      NextDayCounts(DateOf(n - 1));
    }
  }

  lemma YearSpan(d: Date)
    requires ValidDate(d)
    ensures DaysBeforeYear(d.year) <= Ordinal(d) < DaysBeforeYear(d.year) + YearLength(d.year)
  {
    MonthTable(d.year);
  }

  lemma {:induction false} YearsMonotone(a: nat, b: nat)
    requires 1 <= a < b
    ensures DaysBeforeYear(a) + YearLength(a) <= DaysBeforeYear(b)
    decreases b
  {
    if a < b - 1 {
      YearsMonotone(a, b - 1);
    }
  }

  lemma {:induction false} MonthsMonotone(y: nat, a: nat, b: nat)
    requires 1 <= a < b
    ensures DaysBeforeMonth(y, a) + DaysIn(y, a) <= DaysBeforeMonth(y, b)
    decreases b
  {
    if a < b - 1 {
      MonthsMonotone(y, a, b - 1);
    }
  }

  /** The day count determines the date. */
  lemma OrdinalInjective(d: Date, e: Date)
    requires ValidDate(d) && ValidDate(e) && Ordinal(d) == Ordinal(e)
    ensures d == e
  {
    YearSpan(d);
    YearSpan(e);
    if d.year < e.year {
      YearsMonotone(d.year, e.year);
    } else if e.year < d.year {
      YearsMonotone(e.year, d.year);
    } else if d.month < e.month {
      MonthsMonotone(d.year, d.month, e.month);
    } else if e.month < d.month {
      MonthsMonotone(d.year, e.month, d.month);
    }
  }

  /** Stepping day by day reaches every valid date, after exactly its day count. */
  lemma DateOfOrdinal(d: Date)
    requires ValidDate(d)
    ensures Ordinal(d) >= 0 && DateOf(Ordinal(d)) == d
  {
    YearSpan(d);
    DateOfCounts(Ordinal(d));
    OrdinalInjective(DateOf(Ordinal(d)), d);
  }

  // ---------------------------------------------------------------------------
  // Anniversaries
  // ---------------------------------------------------------------------------

  /** The days a month has in every year. */
  function SureDays(m: nat): nat {
    if m == 2 then 28 else if m == 4 || m == 6 || m == 9 || m == 11 then 30 else 31
  }

  function LeapDays(y: nat, m: nat): nat {
    if m > 2 && IsLeap(y) then 1 else 0
  }

  lemma MonthShift(y: nat, m: nat)
    requires 1 <= m <= 12
    ensures DaysBeforeMonth(y + 1, m) - LeapDays(y + 1, m) == DaysBeforeMonth(y, m) - LeapDays(y, m)
  {
    MonthTable(y);
    MonthTable(y + 1);
    hide DaysBeforeMonth, IsLeap;
  }

  lemma NoTwoLeapYears(y: nat)
    ensures !(IsLeap(y) && IsLeap(y + 1))
  {
  }

  /** The same day of consecutive years is at most 366 days apart. */
  lemma YearApart(y: nat, m: nat, d: nat)
    requires y >= 1 && 1 <= m <= 12 && 1 <= d <= SureDays(m)
    ensures ValidDate(Date(y, m, d)) && ValidDate(Date(y + 1, m, d))
    ensures Ordinal(Date(y, m, d)) < Ordinal(Date(y + 1, m, d)) <= Ordinal(Date(y, m, d)) + 366
  {
    hide IsLeap, DaysBeforeMonth;
    MonthShift(y, m);
    NoTwoLeapYears(y);
  }

  lemma ShortYears(y: nat)
    ensures YearLength(y) <= 366
  {
  }

  /** Any 366 consecutive days contain every day of the year that all years have. */
  lemma AnniversaryWithinYear(n: nat, m: nat, d: nat) returns (k: nat)
    requires 1 <= m <= 12 && 1 <= d <= SureDays(m)
    ensures k < 366 && DateOf(n + k).month == m && DateOf(n + k).day == d
  {
    hide DateOf, DaysBeforeYear, DaysBeforeMonth, YearLength, SureDays, DaysIn;
    var today := DateOf(n);
    DateOfCounts(n);
    YearSpan(today);
    YearApart(today.year, m, d);
    var thisYear, nextYear := Date(today.year, m, d), Date(today.year + 1, m, d);
    YearSpan(thisYear);
    YearSpan(nextYear);
    YearsMonotone(today.year, today.year + 1);
    ShortYears(today.year);
    var next := if Ordinal(thisYear) >= n then thisYear else nextYear;
    k := Ordinal(next) - n;
    DateOfOrdinal(next);
  }

  lemma LaterYear(a: nat, b: nat)
    requires 1 <= a
    ensures a <= b ==> DaysBeforeYear(a) <= DaysBeforeYear(b)
  {
    if a < b { YearsMonotone(a, b); }
  }

  /** Year 1 has no 29 February, and neither have the first days of year 2. */
  lemma NoLeapDayAtFirst(n: nat)
    requires n <= 367
    ensures DateOf(n).day <= SureDays(DateOf(n).month)
  {
    var d := DateOf(n);
    DateOfCounts(n);
    YearSpan(d);
    assert DaysBeforeYear(2) == 365 && DaysBeforeYear(3) == 730;
    LaterYear(3, d.year);
  }

  // ---------------------------------------------------------------------------
  // The cycle of 400 years
  // ---------------------------------------------------------------------------

  /** The days of 400 years, a whole number of weeks. */
  const CYCLE: nat := 146097

  /** The leap years before year `y`. */
  function LeapsBefore(y: nat): int
    requires y >= 1
  {
    (y - 1) / 4 - (y - 1) / 100 + (y - 1) / 400
  }

  lemma {:induction false} YearsClosedForm(y: nat)
    requires y >= 1
    ensures DaysBeforeYear(y) == 365 * (y - 1) + LeapsBefore(y)
  {
    hide LeapsBefore, IsLeap;
    if y > 1 {
      YearsClosedForm(y - 1);
      LeapsStep(y - 1);
    } else {
      assert LeapsBefore(1) == 0 by { LeapsStart(); }
    }
  }

  lemma LeapsStart()
    ensures LeapsBefore(1) == 0
  {
  }

  lemma LeapsStep(y: nat)
    requires y >= 1
    ensures LeapsBefore(y + 1) == LeapsBefore(y) + (if IsLeap(y) then 1 else 0)
  {
    LeapStep(y, 4);
    LeapStep(y, 100);
    LeapStep(y, 400);
    if y % 100 == 0 { Divides(y, 25, 4); }
    if y % 400 == 0 { Divides(y, 4, 100); }
  }

  /** A multiple of `j * k` is a multiple of `k`. */
  lemma Divides(y: nat, j: nat, k: nat)
    requires j > 0 && k > 0 && j * k > 0 && y % (j * k) == 0
    ensures y % k == 0
  {
    var q := y / (j * k);
    assert y == q * (j * k) == (q * j) * k;
    Quotient(y, k, q * j, 0);
  }

  /** Going from y - 1 to y, the quotient by `k` grows exactly at the multiples of `k`. */
  lemma LeapStep(y: nat, k: nat)
    requires y >= 1 && k > 0
    ensures y / k == (y - 1) / k + (if y % k == 0 then 1 else 0)
  {
    var q, r := (y - 1) / k, (y - 1) % k;
    assert y == q * k + r + 1;
    if r + 1 < k {
      Quotient(y, k, q, r + 1);
    } else {
      assert y == (q + 1) * k;
      Quotient(y, k, q + 1, 0);
    }
  }

  lemma Quotient(a: nat, k: nat, q: nat, r: nat)
    requires k > 0 && r < k && a == q * k + r
    ensures a / k == q && a % k == r
  {
    if a / k < q {
      Larger(a / k + 1, q, k);
    } else if a / k > q {
      Larger(q + 1, a / k, k);
    }
  }

  lemma Larger(a: nat, b: nat, k: nat)
    requires a <= b
    ensures a * k <= b * k
  {
  }

  lemma CycleStart()
    ensures DateOf(CYCLE) == Date(401, 1, 1)
  {
    hide DateOf;
    YearsClosedForm(401);
    hide DaysBeforeYear;
    DateOfOrdinal(Date(401, 1, 1));
  }

  lemma DateStep(n: nat)
    ensures DateOf(n + 1) == NextDay(DateOf(n))
  {
  }

  /** 400 years later it is the same day of the same month. */
  lemma {:induction false} SameDayNextCycle(n: nat)
    ensures DateOf(n + CYCLE) == Date(DateOf(n).year + 400, DateOf(n).month, DateOf(n).day)
  {
    if n == 0 {
      CycleStart();
    } else {
      hide DateOf, NextDay;
      SameDayNextCycle(n - 1);
      DateStep(n - 1);
      DateStep(n - 1 + CYCLE);
      SameStep(DateOf(n - 1));
    }
  }

  lemma SameStep(d: Date)
    ensures NextDay(Date(d.year + 400, d.month, d.day)) == Date(NextDay(d).year + 400, NextDay(d).month, NextDay(d).day)
  {
    LeapNextCycle(d.year);
    hide IsLeap;
  }

  lemma LeapNextCycle(y: nat)
    ensures IsLeap(y + 400) == IsLeap(y)
  {
    Quotient(y + 400, 4, y / 4 + 100, y % 4);
    Quotient(y + 400, 100, y / 100 + 4, y % 100);
    Quotient(y + 400, 400, y / 400 + 1, y % 400);
  }

  /** In the year after 13 July of year 1 no 13th is a Friday. */
  lemma NoFridayTheThirteenth(x: nat)
    requires 194 <= x < 560 && DateOf(x).day == 13
    ensures (x + 1) % 7 != 5
  {
    hide DateOf, DaysBeforeYear, DaysBeforeMonth;
    var d := DateOf(x);
    DateOfCounts(x);
    YearSpan(d);
    FirstYears();
    LaterYear(3, d.year);
    NotFriday(d);
  }

  lemma FirstYears()
    ensures DaysBeforeYear(1) == 0 && DaysBeforeYear(2) == 365 && DaysBeforeYear(3) == 730
  {
  }

  lemma NotFriday(d: Date)
    requires d.day == 13 && 1 <= d.month <= 12 && (d.year == 1 || d.year == 2) && 194 <= Ordinal(d) < 560
    ensures (Ordinal(d) + 1) % 7 != 5
  {
    FirstYears();
    MonthTable(1);
    MonthTable(2);
    assert !IsLeap(1) && !IsLeap(2);
    hide DaysBeforeYear, DaysBeforeMonth, IsLeap;
  }
}
