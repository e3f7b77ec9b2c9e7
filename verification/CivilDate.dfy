/**
 tm_to_time_t_utc of src/libaxil.c: closed arithmetic for the seconds since 1970-01-01,
 against counting years, months and days one by one.
 */
module CivilDate {

  datatype Date = Date(year: int, month: nat, day: int)
  datatype DateTime = DateTime(date: Date, hour: nat, minute: nat, second: nat)

  // ----- the calendar, by counting ---------------------------------------------

  predicate IsLeap(y: int)
  {
    y % 4 == 0 && (y % 100 != 0 || y % 400 == 0)
  }

  function DaysInYear(y: int): nat
  {
    if IsLeap(y) then 366 else 365
  }

  function DaysInMonth(y: int, m: nat): nat
  {
    if m == 2 then (if IsLeap(y) then 29 else 28)
    else if m == 4 || m == 6 || m == 9 || m == 11 then 30
    else 31
  }

  predicate ValidDate(d: Date)
  {
    1 <= d.month <= 12 && 1 <= d.day <= DaysInMonth(d.year, d.month)
  }

  predicate Valid(t: DateTime)
  {
    ValidDate(t.date) && t.hour < 24 && t.minute < 60 && t.second < 60
  }

  /** Days from 1970-01-01 to the first of January, a year at a time. */
  function YearStart(y: int): int
    decreases if y < 1970 then 1970 - y else y - 1970
  {
    if y == 1970 then 0
    else if y > 1970 then YearStart(y - 1) + DaysInYear(y - 1)
    else YearStart(y + 1) - DaysInYear(y)
  }

  /** Days of the year before the month, a month at a time. */
  function MonthStart(y: int, m: nat): nat
  {
    if m <= 1 then 0 else MonthStart(y, m - 1) + DaysInMonth(y, m - 1)
  }

  function Count(d: Date): int
  {
    YearStart(d.year) + MonthStart(d.year, d.month) + d.day - 1
  }

  function CountSeconds(t: DateTime): int
  {
    Count(t.date) * 86400 + t.hour * 3600 + t.minute * 60 + t.second
  }

  // ----- the code ----------------------------------------------------------------

  /** Division as C has it: toward zero. */
  function Quotient(a: int, b: int): int
    requires 0 < b
  {
    if a >= 0 then a / b else -(-a / b)
  }

  /** The day of the year and of the era are unsigned, 32 bits wide. */
  const UINT_RANGE: nat := 0x1_0000_0000

  /** Days from the first of March to the first of a month. */
  function FromMarch(m: nat): (n: nat)
    requires 1 <= m <= 12
  {
    (153 * (m + if m > 2 then -3 else 9) + 2) / 5
  }

  function DaysOf(d: Date): int
    requires 1 <= d.month <= 12
  {
    var y := if d.month <= 2 then d.year - 1 else d.year;
    var era := Quotient(if y >= 0 then y else y - 399, 400);
    var yoe := y - era * 400;
    var doy := (FromMarch(d.month) + d.day - 1) % UINT_RANGE;
    var doe := (yoe * 365 + yoe / 4 - yoe / 100 + doy) % UINT_RANGE;
    era * 146097 + doe - 719468
  }

  /** tm_to_time_t_utc. */
  function TmToTime(t: DateTime): int
    requires 1 <= t.date.month <= 12
  {
    DaysOf(t.date) * 86400 + t.hour * 3600 + t.minute * 60 + t.second
  }

  // ----- the two agree -------------------------------------------------------------

  /** Days from the first of March of year 0 to that of year y. */
  function Marches(y: int): int
  {
    365 * y + y / 4 - y / 100 + y / 400
  }

  lemma MarchesStep(y: int)
    ensures Marches(y) - Marches(y - 1) == DaysInYear(y)
  {
    QuotientStep(y, 4);
    QuotientStep(y, 100);
    QuotientStep(y, 400);
    CenturiesNest(y);
  }

  lemma QuotientStep(y: int, k: int)
    requires k in {4, 100, 400}
    ensures y / k - (y - 1) / k == if y % k == 0 then 1 else 0
  {
  }

  lemma CenturiesNest(y: int)
    ensures y % 400 == 0 ==> y % 100 == 0
    ensures y % 100 == 0 ==> y % 4 == 0
  {
  }

  lemma {:induction false} YearStartClosed(y: int)
    ensures YearStart(y) == Marches(y - 1) + 306 - 719468
    decreases if y < 1970 then 1970 - y else y - 1970
  {
    if y > 1970 {
      YearStartClosed(y - 1);
      MarchesStep(y - 1);
    } else if y < 1970 {
      YearStartClosed(y + 1);
      MarchesStep(y);
    }
  }

  /** The era and year of era split the March count. */
  lemma EraSplit(y: int)
    ensures var era := Quotient(if y >= 0 then y else y - 399, 400);
      var yoe := y - era * 400;
      era == y / 400 && 0 <= yoe < 400 && era * 146097 + yoe * 365 + yoe / 4 - yoe / 100 == Marches(y)
  {
    var era := Quotient(if y >= 0 then y else y - 399, 400);
    assert era == y / 400;
    var yoe := y - era * 400;
    assert y / 4 == 100 * era + yoe / 4;
    assert y / 100 == 4 * era + yoe / 100;
  }

  lemma MonthTable(y: int)
    ensures MonthStart(y, 1) == 0 && MonthStart(y, 2) == 31
    ensures var l := if IsLeap(y) then 1 else 0;
      && MonthStart(y, 3) == 59 + l && MonthStart(y, 4) == 90 + l && MonthStart(y, 5) == 120 + l
      && MonthStart(y, 6) == 151 + l && MonthStart(y, 7) == 181 + l && MonthStart(y, 8) == 212 + l
      && MonthStart(y, 9) == 243 + l && MonthStart(y, 10) == 273 + l && MonthStart(y, 11) == 304 + l
      && MonthStart(y, 12) == 334 + l && MonthStart(y, 13) == 365 + l
  {
    assert MonthStart(y, 3) == MonthStart(y, 2) + DaysInMonth(y, 2);
    assert MonthStart(y, 5) == MonthStart(y, 4) + 30;
    assert MonthStart(y, 7) == MonthStart(y, 6) + 30;
    assert MonthStart(y, 9) == MonthStart(y, 8) + 31;
    assert MonthStart(y, 11) == MonthStart(y, 10) + 31;
  }

  /** The month formula, from the first of March. */
  lemma MonthFormula(y: int, m: nat)
    requires 1 <= m <= 12
    ensures m > 2 ==> MonthStart(y, m) == 59 + (if IsLeap(y) then 1 else 0) + (153 * (m - 3) + 2) / 5
    ensures m <= 2 ==> MonthStart(y, m) + 306 == (153 * (m + 9) + 2) / 5
  {
    MonthTable(y);
  }

  /** Days from the first of March that begins the 400-year era; negative for a day number before it. */
  function DayOfEra(d: Date): int
    requires 1 <= d.month <= 12
  {
    var yoe := MarchYear(d) % 400;
    yoe * 365 + yoe / 4 - yoe / 100 + FromMarch(d.month) + d.day - 1
  }

  lemma WrapTwice(a: int, b: int)
    ensures (a + b % UINT_RANGE) % UINT_RANGE == (a + b) % UINT_RANGE
  {
  }

  function MarchYear(d: Date): int
  {
    if d.month <= 2 then d.year - 1 else d.year
  }

  /** Counting from the era's first day. */
  lemma EraCounts(d: Date)
    requires 1 <= d.month <= 12
    ensures Count(d) == MarchYear(d) / 400 * 146097 + DayOfEra(d) - 719468
  {
    hide YearStart, MonthStart;
    MonthFormula(d.year, d.month);
    YearStartClosed(d.year);
    MarchesStep(d.year);
    EraSplit(MarchYear(d));
  }

  /** The arithmetic counts from it too, modulo 2^32. */
  lemma DaysOfWraps(d: Date)
    requires 1 <= d.month <= 12
    ensures DaysOf(d) == MarchYear(d) / 400 * 146097 + DayOfEra(d) % UINT_RANGE - 719468
  {
    hide FromMarch, Quotient;
    EraSplit(MarchYear(d));
    var yoe := MarchYear(d) % 400;
    WrapTwice(yoe * 365 + yoe / 4 - yoe / 100, FromMarch(d.month) + d.day - 1);
  }

  /**
     The arithmetic counts the days, for every month and year before or after 1970, exactly
     when the day number does not reach back over the beginning of the era.  The parser of
     dates checks no day numbers.
   */
  lemma DaysOfCountsIff(d: Date)
    requires 1 <= d.month <= 12 && -0x8000_0000 <= d.day < 0x8000_0000
    ensures DaysOf(d) == Count(d) <==> 0 <= DayOfEra(d)
  {
    EraCounts(d);
    DaysOfWraps(d);
  }

  /** The day before the first of March 2000, written as the zeroth: off by 2^32 days. */
  lemma DayZeroOfAnEra()
    ensures DayOfEra(Date(2000, 3, 0)) == -1
    ensures DaysOf(Date(2000, 3, 0)) == Count(Date(2000, 2, 29)) + UINT_RANGE
  {
    var d := Date(2000, 3, 0);
    DaysOfWraps(d);
    EraCounts(d);
    MonthTable(2000);
  }

  lemma DaysOfCounts(d: Date)
    requires 1 <= d.month <= 12 && 1 <= d.day < 0x8000_0000
    ensures DaysOf(d) == Count(d)
  {
    DaysOfCountsIff(d);
  }

  lemma TmToTimeCounts(t: DateTime)
    requires 1 <= t.date.month <= 12 && 1 <= t.date.day < 0x8000_0000
    ensures TmToTime(t) == CountSeconds(t)
  {
    DaysOfCounts(t.date);
  }

  // ----- order ---------------------------------------------------------------------

  predicate DateBefore(a: Date, b: Date)
  {
    a.year < b.year || (a.year == b.year && (a.month < b.month || (a.month == b.month && a.day < b.day)))
  }

  predicate Before(a: DateTime, b: DateTime)
  {
    || DateBefore(a.date, b.date)
    || (a.date == b.date
        && (a.hour < b.hour || (a.hour == b.hour
            && (a.minute < b.minute || (a.minute == b.minute && a.second < b.second)))))
  }

  lemma {:induction false} YearsGrow(y: int, z: int)
    requires y <= z
    ensures YearStart(y) + 365 * (z - y) <= YearStart(z)
    decreases z - y
  {
    if y < z {
      YearsGrow(y, z - 1);
      YearStartClosed(z);
      YearStartClosed(z - 1);
      MarchesStep(z - 1);
    }
  }

  lemma {:induction false} MonthsGrow(y: int, m: nat, n: nat)
    requires 1 <= m <= n
    ensures MonthStart(y, m) <= MonthStart(y, n)
  {
    if m < n {
      MonthsGrow(y, m, n - 1);
    }
  }

  lemma WithinYear(d: Date)
    requires ValidDate(d)
    ensures 0 <= Count(d) - YearStart(d.year) < DaysInYear(d.year)
    ensures Count(d) < YearStart(d.year) + MonthStart(d.year, d.month + 1)
  {
    MonthsGrow(d.year, d.month + 1, 13);
    MonthTable(d.year);
  }

  lemma DatesGrow(a: Date, b: Date)
    requires ValidDate(a) && ValidDate(b) && DateBefore(a, b)
    ensures Count(a) < Count(b)
  {
    WithinYear(a);
    WithinYear(b);
    if a.year < b.year {
      YearsGrow(a.year + 1, b.year);
      YearStartClosed(a.year);
      YearStartClosed(a.year + 1);
      MarchesStep(a.year);
    } else if a.month < b.month {
      MonthsGrow(a.year, a.month + 1, b.month);
    }
  }

  /** Strictly monotone, in both directions: later is larger and larger is later. */
  lemma TimeOrder(a: DateTime, b: DateTime)
    requires Valid(a) && Valid(b)
    ensures TmToTime(a) < TmToTime(b) <==> Before(a, b)
    ensures TmToTime(a) == TmToTime(b) <==> a == b
  {
    TmToTimeCounts(a);
    TmToTimeCounts(b);
    if DateBefore(a.date, b.date) {
      DatesGrow(a.date, b.date);
    } else if DateBefore(b.date, a.date) {
      DatesGrow(b.date, a.date);
    } else {
      assert a.date == b.date;
    }
  }

  // ----- the inverse ---------------------------------------------------------------

  function Tomorrow(d: Date): (r: Date)
    requires ValidDate(d)
    ensures ValidDate(r)
  {
    if d.day < DaysInMonth(d.year, d.month) then d.(day := d.day + 1)
    else if d.month < 12 then Date(d.year, d.month + 1, 1)
    else Date(d.year + 1, 1, 1)
  }

  function Yesterday(d: Date): (r: Date)
    requires ValidDate(d)
    ensures ValidDate(r)
  {
    if d.day > 1 then d.(day := d.day - 1)
    else if d.month > 1 then Date(d.year, d.month - 1, DaysInMonth(d.year, d.month - 1))
    else Date(d.year - 1, 12, 31)
  }

  /** gmtime's date: walk from 1970-01-01 a day at a time. */
  function DateOf(n: int): (d: Date)
    ensures ValidDate(d)
    decreases if n < 0 then -n else n
  {
    if n == 0 then Date(1970, 1, 1)
    else if n > 0 then Tomorrow(DateOf(n - 1))
    else Yesterday(DateOf(n + 1))
  }

  lemma TomorrowCounts(d: Date)
    requires ValidDate(d)
    ensures Count(Tomorrow(d)) == Count(d) + 1
  {
    if d.month == 12 && d.day == 31 {
      MonthTable(d.year);
      YearStartClosed(d.year);
      YearStartClosed(d.year + 1);
      MarchesStep(d.year);
      assert MonthStart(d.year + 1, 1) == 0;
    }
  }

  lemma YesterdayCounts(d: Date)
    requires ValidDate(d)
    ensures Count(Yesterday(d)) == Count(d) - 1
  {
    if d.month == 1 && d.day == 1 {
      MonthTable(d.year - 1);
      YearStartClosed(d.year);
      YearStartClosed(d.year - 1);
      MarchesStep(d.year - 1);
    }
  }

  lemma {:induction false} DateOfCounts(n: int)
    ensures Count(DateOf(n)) == n
    decreases if n < 0 then -n else n
  {
    hide Count, Tomorrow, Yesterday;
    if n == 0 {
      EpochCounts();
    } else if n > 0 {
      DateOfCounts(n - 1);
      TomorrowCounts(DateOf(n - 1));
    } else {
      DateOfCounts(n + 1);
      YesterdayCounts(DateOf(n + 1));
    }
  }

  lemma EpochCounts()
    ensures Count(Date(1970, 1, 1)) == 0
  {
  }

  /** gmtime. */
  function Gmtime(t: int): (r: DateTime)
    ensures Valid(r)
  {
    var s := t % 86400;
    DateTime(DateOf(t / 86400), s / 3600, s / 60 % 60, s % 60)
  }

  /** The conversions undo each other on every time and every valid date-time. */
  lemma GmtimeInverts(t: int, d: DateTime)
    requires Valid(d)
    ensures TmToTime(Gmtime(t)) == t
    ensures Gmtime(TmToTime(d)) == d
  {
    SecondsInvert(t);
    SecondsInvert(TmToTime(d));
    TimeOrder(Gmtime(TmToTime(d)), d);
  }

  lemma SecondsInvert(t: int)
    ensures TmToTime(Gmtime(t)) == t
  {
    DateOfCounts(t / 86400);
    DaysOfCounts(DateOf(t / 86400));
    var s := t % 86400;
    assert s == s / 3600 * 3600 + s / 60 % 60 * 60 + s % 60 by {
      assert s / 60 / 60 == s / 3600;
    }
  }
}
