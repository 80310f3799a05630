/**
 * Calendar arithmetic in the proleptic Gregorian calendar: day of year,
 * weekday, the strftime week numbers %U and %W, and the ISO 8601 week
 * date behind %G and %V.
 *
 * Days are numbered consecutively from 0001-01-01, which is day 0 and a
 * Monday; the numbering extends to earlier years with negative numbers.
 */
module Calendar {
  import Decimal

  predicate IsLeap(y: int) {
    y % 4 == 0 && (y % 100 != 0 || y % 400 == 0)
  }

  function DaysInYear(y: int): nat {
    if IsLeap(y) then 366 else 365
  }

  function DaysInMonth(y: int, m: int): nat
    requires 1 <= m <= 12
  {
    if m == 2 then (if IsLeap(y) then 29 else 28)
    else if m == 4 || m == 6 || m == 9 || m == 11 then 30
    else 31
  }

  predicate ValidDate(y: int, m: int, d: int) {
    1 <= m <= 12 && 1 <= d <= DaysInMonth(y, m)
  }

  /** Days of the year that lie before the first of month `m`. */
  function DaysBeforeMonth(y: int, m: int): nat
    requires 1 <= m <= 12
  {
    [0, 31, 59, 90, 120, 151, 181, 212, 243, 273, 304, 334][m - 1]
      + (if m > 2 && IsLeap(y) then 1 else 0)
  }

  /** Reference: the lengths of months 1 .. m-1 added up one by one. */
  function MonthsTotal(y: int, m: int): nat
    requires 1 <= m <= 13
  {
    if m == 1 then 0 else MonthsTotal(y, m - 1) + DaysInMonth(y, m - 1)
  }

  /** The month table agrees with adding up month lengths, and the twelve months make the year. */
  lemma {:induction false} DaysBeforeMonthIsSum(y: int, m: int)
    requires 1 <= m <= 12
    ensures DaysBeforeMonth(y, m) == MonthsTotal(y, m)
    ensures MonthsTotal(y, 13) == DaysInYear(y)
  {
    if m > 1 {
      DaysBeforeMonthIsSum(y, m - 1);
    }
    assert MonthsTotal(y, 13) == MonthsTotal(y, 12) + 31;
    assert MonthsTotal(y, 12) == MonthsTotal(y, 11) + 30;
    assert MonthsTotal(y, 11) == MonthsTotal(y, 10) + 31;
    assert MonthsTotal(y, 10) == MonthsTotal(y, 9) + 30;
    assert MonthsTotal(y, 9) == MonthsTotal(y, 8) + 31;
    assert MonthsTotal(y, 8) == MonthsTotal(y, 7) + 31;
    assert MonthsTotal(y, 7) == MonthsTotal(y, 6) + 30;
    assert MonthsTotal(y, 6) == MonthsTotal(y, 5) + 31;
    assert MonthsTotal(y, 5) == MonthsTotal(y, 4) + 30;
    assert MonthsTotal(y, 4) == MonthsTotal(y, 3) + 31;
    assert MonthsTotal(y, 3) == MonthsTotal(y, 2) + DaysInMonth(y, 2);
  }

  /** Day of the year, 1 for January 1st. */
  function Ordinal(y: int, m: int, d: int): (k: int)
    requires ValidDate(y, m, d)
    ensures 1 <= k <= DaysInYear(y)
  {
    DaysBeforeMonth(y, m) + d
  }

  /** Days from 0001-01-01 to January 1st of year `y`. */
  function DaysBeforeYear(y: int): int {
    var p := y - 1;
    365 * p + p / 4 - p / 100 + p / 400
  }

  function DayNumber(y: int, m: int, d: int): int
    requires ValidDate(y, m, d)
  {
    DaysBeforeYear(y) + Ordinal(y, m, d) - 1
  }

  /** Weekday with 0 for Sunday through 6 for Saturday. */
  function Weekday(y: int, m: int, d: int): (wd: int)
    requires ValidDate(y, m, d)
    ensures 0 <= wd < 7
  {
    (DayNumber(y, m, d) + 1) % 7
  }

  /** ISO 8601 weekday: 1 for Monday through 7 for Sunday. */
  function IsoWeekday(y: int, m: int, d: int): (wd: int)
    requires ValidDate(y, m, d)
    ensures 1 <= wd <= 7
  {
    var w := Weekday(y, m, d);
    if w == 0 then 7 else w
  }

  lemma StepOfDiv(y: int, k: int)
    requires k > 0
    ensures y / k - (y - 1) / k == if y % k == 0 then 1 else 0
  {
    var q := (y - 1) / k;
    var r := (y - 1) % k;
    if r == k - 1 {
      Decimal.DivUnique(y, k, q + 1, 0);
    } else {
      Decimal.DivUnique(y, k, q, r + 1);
    }
  }

  /** Consecutive years are as far apart as the earlier one is long. */
  lemma DaysBeforeYearStep(y: int)
    ensures DaysBeforeYear(y + 1) == DaysBeforeYear(y) + DaysInYear(y)
  {
    StepOfDiv(y - 1 + 1, 4);
    StepOfDiv(y - 1 + 1, 100);
    StepOfDiv(y - 1 + 1, 400);
    if y % 100 == 0 {
      assert y == 100 * (y / 100);
      assert y == 4 * (25 * (y / 100));
    }
    if y % 400 == 0 {
      assert y == 400 * (y / 400);
      assert y == 100 * (4 * (y / 400));
    }
  }

  /** The calendar day after a valid date. */
  function NextDate(y: int, m: int, d: int): (r: (int, int, int))
    requires ValidDate(y, m, d)
  {
    if d < DaysInMonth(y, m) then (y, m, d + 1)
    else if m < 12 then (y, m + 1, 1)
    else (y + 1, 1, 1)
  }

  lemma ModSevenNext(x: int)
    ensures (x + 1) % 7 == (x % 7 + 1) % 7
  {
    Decimal.DivUnique(x + 1 - x % 7 + x % 7, 7, x / 7 + (x % 7 + 1) / 7, (x % 7 + 1) % 7);
  }

  /** The first of the next month follows the last day of this one. */
  lemma NextMonthDayNumber(y: int, m: int)
    requires 1 <= m < 12
    ensures DayNumber(y, m + 1, 1) == DayNumber(y, m, DaysInMonth(y, m)) + 1
  {
    DaysBeforeMonthIsSum(y, m + 1);
  }

  /** January 1st follows December 31st of the year before. */
  lemma NextYearDayNumber(y: int)
    ensures DayNumber(y + 1, 1, 1) == DayNumber(y, 12, 31) + 1
  {
    DaysBeforeYearStep(y);
    assert Ordinal(y, 12, 31) == DaysInYear(y);
  }

  /** Day numbers count days: the next calendar day has the next number, so weekdays cycle. */
  lemma DayNumberNext(y: int, m: int, d: int)
    requires ValidDate(y, m, d)
    ensures var (y', m', d') := NextDate(y, m, d);
      ValidDate(y', m', d') && DayNumber(y', m', d') == DayNumber(y, m, d) + 1
      && Weekday(y', m', d') == (Weekday(y, m, d) + 1) % 7
  {
    var n := DayNumber(y, m, d);
    if d < DaysInMonth(y, m) {
    } else if m < 12 {
      NextMonthDayNumber(y, m);
    } else {
      NextYearDayNumber(y);
    }
    ModSevenNext(n + 1);
  }

  lemma ModSevenShift(a: int, b: int)
    ensures (a % 7 + b) % 7 == (a + b) % 7
  {
    Decimal.DivUnique(a + b, 7, a / 7 + (a % 7 + b) / 7, (a % 7 + b) % 7);
  }

  /** A date's weekday is January 1st's weekday moved on by the days since. */
  lemma WeekdayFromNewYear(y: int, m: int, d: int)
    requires ValidDate(y, m, d)
    ensures Weekday(y, m, d) == (Weekday(y, 1, 1) + Ordinal(y, m, d) - 1) % 7
  {
    ModSevenShift(DaysBeforeYear(y) + 1, Ordinal(y, m, d) - 1);
  }

  /** January 1st's weekday moves on by the length of the year before. */
  lemma NewYearWeekdayStep(y: int)
    ensures Weekday(y + 1, 1, 1) == (Weekday(y, 1, 1) + DaysInYear(y)) % 7
  {
    DaysBeforeYearStep(y);
    ModSevenShift(DaysBeforeYear(y) + 1, DaysInYear(y));
  }

  // ---- Simple week numbers (%U, %W) ----

  /** %U: (yday + 7 - wday) / 7 with 0-based yday and wday 0 for Sunday. */
  function SundayWeek(y: int, m: int, d: int): int
    requires ValidDate(y, m, d)
  {
    (Ordinal(y, m, d) - 1 + 7 - Weekday(y, m, d)) / 7
  }

  /** %W: (yday + 7 - (wday + 6) % 7) / 7, counting weeks from Monday. */
  function MondayWeek(y: int, m: int, d: int): int
    requires ValidDate(y, m, d)
  {
    (Ordinal(y, m, d) - 1 + 7 - (Weekday(y, m, d) + 6) % 7) / 7
  }

  /** Weekday (0 for Sunday) of the `k`-th day of year `y`. */
  function WeekdayOfOrdinal(y: int, k: int): int {
    (DaysBeforeYear(y) + k) % 7
  }

  /** Reference: how many of the days 1 .. k of year `y` fall on weekday `a`. */
  function CountWeekday(y: int, k: nat, a: int): nat {
    if k == 0 then 0
    else CountWeekday(y, k - 1, a) + (if WeekdayOfOrdinal(y, k) == a then 1 else 0)
  }

  /** The offset of weekday `w` from anchor `a` grows by one with the next day, wrapping to zero at the anchor. */
  lemma OffsetStep(w: int, a: int)
    requires 0 <= w < 7 && 0 <= a < 7
    ensures var o := (w - a + 7) % 7;
      ((w + 1) % 7 - a + 7) % 7 == (if o == 6 then 0 else o + 1)
      && (o == 6 <==> (w + 1) % 7 == a)
  {
    if w == 6 {
      assert (w + 1) % 7 == 0;
    } else {
      assert (w + 1) % 7 == w + 1;
    }
    if w < a {
      assert (w - a + 7) % 7 == w - a + 7;
    } else {
      assert (w - a + 7) % 7 == w - a;
    }
  }

  /** One more day moves the week formula by one exactly when that day is the anchor `a`. */
  lemma AnchorStep(k: int, w: int, a: int)
    requires k >= 2 && 0 <= w < 7 && 0 <= a < 7
    ensures (k - 1 + 7 - ((w + 1) % 7 - a + 7) % 7) / 7
      == (k - 2 + 7 - (w - a + 7) % 7) / 7 + (if (w + 1) % 7 == a then 1 else 0)
  {
    OffsetStep(w, a);
    if (w - a + 7) % 7 == 6 {
      Decimal.DivUnique(k + 6, 7, (k - 1) / 7 + 1, (k - 1) % 7);
    }
  }

  /**
   * The week formula counts anchor days: with days measured from weekday
   * `a`, (yday + 7 - offset) / 7 is the number of days `a` among the first
   * k days of the year.
   */
  lemma {:induction false} WeekFormulaCountsAnchors(y: int, k: nat, a: int)
    requires k >= 1 && 0 <= a < 7
    ensures (k - 1 + 7 - (WeekdayOfOrdinal(y, k) - a + 7) % 7) / 7 == CountWeekday(y, k, a)
  {
    var D := DaysBeforeYear(y);
    if k > 1 {
      WeekFormulaCountsAnchors(y, k - 1, a);
      var w := WeekdayOfOrdinal(y, k - 1);
      ModSevenNext(D + k - 1);
      AnchorStep(k, w, a);
    } else {
      var w := WeekdayOfOrdinal(y, 1);
      assert (w - a + 7) % 7 == 0 <==> w == a;
    }
  }

  /** %U is the number of Sundays from January 1st up to and including the date. */
  lemma SundayWeekCountsSundays(y: int, m: int, d: int)
    requires ValidDate(y, m, d)
    ensures SundayWeek(y, m, d) == CountWeekday(y, Ordinal(y, m, d), 0)
  {
    WeekFormulaCountsAnchors(y, Ordinal(y, m, d), 0);
  }

  /** %W is the number of Mondays from January 1st up to and including the date. */
  lemma MondayWeekCountsMondays(y: int, m: int, d: int)
    requires ValidDate(y, m, d)
    ensures MondayWeek(y, m, d) == CountWeekday(y, Ordinal(y, m, d), 1)
  {
    var k := Ordinal(y, m, d);
    WeekFormulaCountsAnchors(y, k, 1);
    assert (Weekday(y, m, d) + 6) % 7 == (WeekdayOfOrdinal(y, k) - 1 + 7) % 7;
  }

  // ---- ISO 8601 week dates (%G, %V) ----

  /** Number of ISO weeks in ISO year `y`: 53 when it starts on a Thursday, or on a Wednesday in a leap year. */
  function WeeksInYear(y: int): int {
    var jan1 := Weekday(y, 1, 1);
    if jan1 == 4 || (IsLeap(y) && jan1 == 3) then 53 else 52
  }

  datatype IsoWeekDate = IsoWeekDate(isoYear: int, week: int)

  /** Week number before any year adjustment: (ordinal - isoWeekday + 10) / 7. */
  function RawIsoWeek(y: int, m: int, d: int): int
    requires ValidDate(y, m, d)
  {
    (Ordinal(y, m, d) - IsoWeekday(y, m, d) + 10) / 7
  }

  /**
   * The ISO week date: a raw week 0 rolls back to the last week of the
   * previous year, a raw week beyond the year's weeks rolls forward to week
   * 1 of the next.
   */
  function IsoWeek(y: int, m: int, d: int): IsoWeekDate
    requires ValidDate(y, m, d)
  {
    var w := RawIsoWeek(y, m, d);
    if w == 0 then IsoWeekDate(y - 1, WeeksInYear(y - 1))
    else if w > WeeksInYear(y) then IsoWeekDate(y + 1, 1)
    else IsoWeekDate(y, w)
  }

  /** Reference: ISO year `y` starts on the Monday of the week holding January 4th. */
  function IsoYearStart(y: int): int {
    DayNumber(y, 1, 4) - (IsoWeekday(y, 1, 4) - 1)
  }

  /** The ISO weekday is the day number's position in its Monday-based week, plus one. */
  lemma IsoWeekdayOfDayNumber(y: int, m: int, d: int)
    requires ValidDate(y, m, d)
    ensures IsoWeekday(y, m, d) == DayNumber(y, m, d) % 7 + 1
  {
    ModSevenNext(DayNumber(y, m, d));
  }

  /** The start of ISO year `y` is January 4th rounded down to a multiple of seven (a Monday). */
  lemma IsoYearStartFloor(y: int)
    ensures var x := DaysBeforeYear(y) + 3; IsoYearStart(y) == x - x % 7
  {
    IsoWeekdayOfDayNumber(y, 1, 4);
  }

  lemma FloorSeven(x: int)
    ensures (x - x % 7) % 7 == 0 && x - 6 <= x - x % 7 <= x
  {
    Decimal.DivUnique(x - x % 7, 7, x / 7, 0);
  }

  /** The first day of an ISO year is a Monday within three days of January 1st. */
  lemma IsoYearStartShape(y: int)
    ensures IsoYearStart(y) % 7 == 0
    ensures DaysBeforeYear(y) - 3 <= IsoYearStart(y) <= DaysBeforeYear(y) + 3
  {
    IsoYearStartFloor(y);
    FloorSeven(DaysBeforeYear(y) + 3);
  }

  /** Year-length arithmetic behind WeeksInYear, over a plain day count `D` and year length `L`. */
  lemma YearLengthArith(D: int, L: int)
    requires L == 365 || L == 366
    ensures var S := (D + 3) - (D + 3) % 7; var S' := (D + L + 3) - (D + L + 3) % 7;
      S' - S == 7 * (if (D + 1) % 7 == 4 || (L == 366 && (D + 1) % 7 == 3) then 53 else 52)
  {
    var t := D / 7;
    var q := D % 7;
    Decimal.DivUnique(D + 3, 7, t + (q + 3) / 7, (q + 3) % 7);
    Decimal.DivUnique(D + 1, 7, t + (q + 1) / 7, (q + 1) % 7);
    Decimal.DivUnique(D + L + 3, 7, t + 52 + (q + L - 364 + 3) / 7, (q + L - 364 + 3) % 7);
  }

  /** WeeksInYear read off the day count `D` before the year and the year's length. */
  lemma WeeksInYearByDays(y: int)
    ensures var D := DaysBeforeYear(y);
      WeeksInYear(y) == (if (D + 1) % 7 == 4 || (DaysInYear(y) == 366 && (D + 1) % 7 == 3) then 53 else 52)
  {
    assert Weekday(y, 1, 1) == (DaysBeforeYear(y) + 1) % 7;
  }

  /** ISO year `y` is exactly WeeksInYear(y) weeks long. */
  lemma IsoYearLength(y: int)
    ensures IsoYearStart(y + 1) - IsoYearStart(y) == 7 * WeeksInYear(y)
  {
    DaysBeforeYearStep(y);
    IsoYearStartFloor(y);
    IsoYearStartFloor(y + 1);
    WeeksInYearByDays(y);
    YearLengthArith(DaysBeforeYear(y), DaysInYear(y));
  }

  /** Raw-week arithmetic over a plain day count `D` (January 1st) and day number `n`. */
  lemma RawWeekArith(D: int, n: int)
    ensures (n - D + 1 - (n % 7 + 1) + 10) / 7 == (n - ((D + 3) - (D + 3) % 7)) / 7 + 1
  {
    var a := n / 7;
    var b := n % 7;
    var S := (D + 3) - (D + 3) % 7;
    FloorSeven(D + 3);
    var c := S / 7;
    assert S == 7 * c;
    var e := D + 3 - S;
    assert n - D + 1 - (b + 1) + 10 == 7 * (a - c) + (13 - e);
    Decimal.DivUnique(7 * (a - c) + (13 - e), 7, a - c + 1, 6 - e);
    Decimal.DivUnique(n - S, 7, a - c, b);
  }

  /** The raw week is the number of whole weeks since the ISO start of the calendar year, plus one. */
  lemma RawIsoWeekFromStart(y: int, m: int, d: int)
    requires ValidDate(y, m, d)
    ensures RawIsoWeek(y, m, d) == (DayNumber(y, m, d) - IsoYearStart(y)) / 7 + 1
  {
    IsoWeekdayOfDayNumber(y, m, d);
    IsoYearStartFloor(y);
    var D := DaysBeforeYear(y);
    var n := DayNumber(y, m, d);
    assert Ordinal(y, m, d) == n - D + 1;
    RawWeekArith(D, n);
  }

  /** The ISO week date agrees with the reference: the ISO year holds the day, and the week counts from its start. */
  lemma IsoWeekMatchesReference(y: int, m: int, d: int)
    requires ValidDate(y, m, d)
    ensures var r := IsoWeek(y, m, d); var n := DayNumber(y, m, d);
      IsoYearStart(r.isoYear) <= n < IsoYearStart(r.isoYear + 1)
      && r.week == (n - IsoYearStart(r.isoYear)) / 7 + 1
  {
    var n := DayNumber(y, m, d);
    var w := RawIsoWeek(y, m, d);
    RawIsoWeekFromStart(y, m, d);
    DaysBeforeYearStep(y - 1);
    DaysBeforeYearStep(y);
    DaysBeforeYearStep(y + 1);
    IsoYearStartShape(y - 1);
    IsoYearStartShape(y);
    IsoYearStartShape(y + 1);
    IsoYearStartShape(y + 2);
    IsoYearLength(y - 1);
    IsoYearLength(y);
    IsoYearLength(y + 1);
    var S := IsoYearStart(y);
    var D := DaysBeforeYear(y);
    assert D <= n < D + DaysInYear(y);
    if w == 0 {
      var P := IsoYearStart(y - 1);
      var W := WeeksInYear(y - 1);
      assert n - P == 7 * (W - 1) + (n - S + 7);
      Decimal.DivUnique(n - P, 7, W - 1, n - S + 7);
    } else if w > WeeksInYear(y) {
      var N := IsoYearStart(y + 1);
      Decimal.DivUnique(n - N, 7, 0, n - N);
    }
  }

  /** ISO years follow one another: each starts strictly after the previous one. */
  lemma {:induction false} IsoYearStartIncreasing(y: int, y': int)
    requires y < y'
    ensures IsoYearStart(y) < IsoYearStart(y')
    decreases y' - y
  {
    IsoYearLength(y);
    if y + 1 < y' {
      IsoYearStartIncreasing(y + 1, y');
    }
  }

  /** Every day lies in exactly one ISO year. */
  lemma IsoYearUnique(y: int, y': int, n: int)
    requires IsoYearStart(y) <= n < IsoYearStart(y + 1)
    requires IsoYearStart(y') <= n < IsoYearStart(y' + 1)
    ensures y == y'
  {
    if y < y' {
      if y + 1 < y' { IsoYearStartIncreasing(y + 1, y'); }
    } else if y' < y {
      if y' + 1 < y { IsoYearStartIncreasing(y' + 1, y); }
    }
  }

  /** A day `n` within `W` whole weeks of a start `S` falls in week (n - S) / 7 + 1, between 1 and `W`. */
  lemma WeekWithin(n: int, S: int, W: int, week: int)
    requires S <= n < S + 7 * W && week == (n - S) / 7 + 1
    ensures 1 <= week <= W
  {
    Decimal.DivUnique(n - S, 7, week - 1, (n - S) % 7);
  }

  /** %V lies within the weeks of its ISO year. */
  lemma IsoWeekRange(y: int, m: int, d: int)
    requires ValidDate(y, m, d)
    ensures var r := IsoWeek(y, m, d); 1 <= r.week <= WeeksInYear(r.isoYear)
  {
    var r := IsoWeek(y, m, d);
    IsoWeekMatchesReference(y, m, d);
    IsoYearLength(r.isoYear);
    WeekWithin(DayNumber(y, m, d), IsoYearStart(r.isoYear), WeeksInYear(r.isoYear), r.week);
  }

  /** %G is earlier than the calendar year only in the first three days of January. */
  lemma IsoYearEarlier(y: int, m: int, d: int)
    requires ValidDate(y, m, d) && IsoWeek(y, m, d).isoYear == y - 1
    ensures m == 1 && d <= 3
  {
    IsoWeekMatchesReference(y, m, d);
    IsoYearStartShape(y);
    assert Ordinal(y, m, d) <= 3;
  }

  /** %G is later than the calendar year only in the last three days of December. */
  lemma IsoYearLater(y: int, m: int, d: int)
    requires ValidDate(y, m, d) && IsoWeek(y, m, d).isoYear == y + 1
    ensures m == 12 && d >= 29
  {
    IsoWeekMatchesReference(y, m, d);
    IsoYearStartShape(y + 1);
    DaysBeforeYearStep(y);
    assert Ordinal(y, m, d) >= DaysInYear(y) - 2;
  }

  /**
   * %V lies in 1 .. 53 (within the weeks of its ISO year), and %G differs
   * from the calendar year by at most one: it is earlier only in the first
   * three days of January and later only in the last three days of December.
   */
  lemma IsoWeekBounds(y: int, m: int, d: int)
    requires ValidDate(y, m, d)
    ensures var r := IsoWeek(y, m, d);
      1 <= r.week <= WeeksInYear(r.isoYear) <= 53
      && y - 1 <= r.isoYear <= y + 1
      && (r.isoYear == y - 1 ==> m == 1 && d <= 3)
      && (r.isoYear == y + 1 ==> m == 12 && d >= 29)
  {
    var r := IsoWeek(y, m, d);
    IsoWeekRange(y, m, d);
    if r.isoYear == y - 1 {
      IsoYearEarlier(y, m, d);
    }
    if r.isoYear == y + 1 {
      IsoYearLater(y, m, d);
    }
  }
}
