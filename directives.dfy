/**
 * The directive table: the timestamp the formatter reads, the fixed
 * weekday and month names, and the text each directive letter renders.
 */
module Directives {
  import Decimal
  import Calendar

  /** A calendar timestamp, already normalised to its zone. */
  datatype Timestamp = Timestamp(
    year: int, month: int, day: int,
    hour: int, minute: int, second: int, nanosecond: int,
    zone: string)

  predicate ValidTimestamp(t: Timestamp) {
    t.year >= 1 && Calendar.ValidDate(t.year, t.month, t.day)
    && 0 <= t.hour < 24 && 0 <= t.minute < 60 && 0 <= t.second < 60
    && 0 <= t.nanosecond < Decimal.Pow10(NanoDigits)
  }

  const WeekdayAbbrevs: seq<string> := ["Sun", "Mon", "Tue", "Wed", "Thu", "Fri", "Sat"]
  const WeekdayNames: seq<string> :=
    ["Sunday", "Monday", "Tuesday", "Wednesday", "Thursday", "Friday", "Saturday"]
  const MonthAbbrevs: seq<string> :=
    ["Jan", "Feb", "Mar", "Apr", "May", "Jun", "Jul", "Aug", "Sep", "Oct", "Nov", "Dec"]
  const MonthNames: seq<string> :=
    ["January", "February", "March", "April", "May", "June",
     "July", "August", "September", "October", "November", "December"]

  /** The letters that name a field directive (%n, which takes a width, is handled apart). */
  predicate IsCode(c: char) {
    IsComposite(c)
    || c == 'a' || c == 'A' || c == 'b' || c == 'B' || c == 'd' || c == 'G' || c == 'H'
    || c == 'I' || c == 'j' || c == 'm' || c == 'M' || c == 'p' || c == 'S' || c == 'U'
    || c == 'V' || c == 'w' || c == 'W' || c == 'y' || c == 'Y' || c == 'Z'
  }

  /** The directives that stand for a sequence of other directives. */
  predicate IsComposite(c: char) {
    c == 'c' || c == 'x' || c == 'X'
  }

  type Code = c: char | IsCode(c) witness 'a'

  /** Widths of the sub-second directive %Nn that the model covers. */
  type Width = w: int | 1 <= w <= 9 witness 1

  /** Hour on the 12-hour clock: 0 and 12 both read 12. */
  function Hour12(h: int): int
    requires 0 <= h < 24
  {
    if h % 12 == 0 then 12 else h % 12
  }

  predicate IsPM(h: int) {
    h >= 12
  }

  /** Back from the 12-hour clock and the AM/PM marker to the 24-hour clock. */
  function To24(h12: int, pm: bool): int {
    h12 % 12 + (if pm then 12 else 0)
  }

  /** The 12-hour clock with its marker loses nothing: the 24-hour hour can be read back. */
  lemma ClockRoundTrip(h: int)
    requires 0 <= h < 24
    ensures 1 <= Hour12(h) <= 12
    ensures To24(Hour12(h), IsPM(h)) == h
  {
  }

  /** Digits in a full nanosecond fraction of a second. */
  const NanoDigits: nat := 9

  /**
   * The first `w` digits of the nanosecond count written with nine digits:
   * they are the count truncated (never rounded) to `w` digits.
   */
  function FractionDigits(ns: int, w: Width): (r: string)
    requires 0 <= ns < Decimal.Pow10(NanoDigits)
    ensures |r| == w && Decimal.AllDigits(r)
    ensures r == Decimal.Pad(ns / Decimal.Pow10(NanoDigits - w), w)
  {
    FractionPrefix(ns, w);
    Decimal.Pad(ns, NanoDigits)[..w]
  }

  lemma FractionPrefix(ns: nat, w: nat)
    requires 1 <= w <= NanoDigits && ns < Decimal.Pow10(NanoDigits)
    ensures |Decimal.Pad(ns, NanoDigits)| == NanoDigits
    ensures var q := Decimal.Pad(ns / Decimal.Pow10(NanoDigits - w), w);
      Decimal.Pad(ns, NanoDigits)[..w] == q && |q| == w && Decimal.AllDigits(q)
  {
    Decimal.PadPrefix(ns, NanoDigits, w);
    Decimal.PadShape(ns, NanoDigits);
  }

  /**
   * One step of a compiled plan: literal text, a directive letter, or the
   * sub-second directive with its width.
   */
  datatype Step =
    | Literal(text: string)
    | Directive(code: Code)
    | Fraction(width: Width)

  /** %c: weekday, day, month, year, time of day and zone. */
  const DateTimePlan: seq<Step> :=
    [Directive('a'), Literal(", "), Directive('d'), Literal(" "), Directive('b'), Literal(" "),
     Directive('Y'), Literal(" "), Directive('H'), Literal(":"), Directive('M'), Literal(":"),
     Directive('S'), Literal(" "), Directive('Z')]
  /** %x: month, day and two-digit year. */
  const DatePlan: seq<Step> :=
    [Directive('m'), Literal("/"), Directive('d'), Literal("/"), Directive('y')]
  /** %X: hours, minutes and seconds. */
  const TimePlan: seq<Step> :=
    [Directive('H'), Literal(":"), Directive('M'), Literal(":"), Directive('S')]

  /** The plan a composite directive stands for. */
  function Composition(c: char): seq<Step>
    requires IsComposite(c)
  {
    if c == 'c' then DateTimePlan else if c == 'x' then DatePlan else TimePlan
  }

  /** A plan without composite directives. */
  predicate Flat(plan: seq<Step>) {
    forall i :: 0 <= i < |plan| ==> plan[i].Directive? ==> !IsComposite(plan[i].code)
  }

  /** Termination ranks: a composite directive renders a flat plan. */
  function StepRank(s: Step): nat {
    if s.Directive? && IsComposite(s.code) then 2 else 0
  }

  function PlanRank(plan: seq<Step>): nat {
    if Flat(plan) then 0 else 2
  }

  /** The text a directive letter renders for a timestamp. */
  function Field(c: Code, t: Timestamp): string
    requires ValidTimestamp(t)
    decreases if IsComposite(c) then 2 else 0, 0
  {
    var (y, m, d) := (t.year, t.month, t.day);
    match c
    case 'c' | 'x' | 'X' => Render(Composition(c), t)
    case 'a' => WeekdayAbbrevs[Calendar.Weekday(y, m, d)]
    case 'A' => WeekdayNames[Calendar.Weekday(y, m, d)]
    case 'b' => MonthAbbrevs[m - 1]
    case 'B' => MonthNames[m - 1]
    case 'd' => Decimal.Pad(d, 2)
    case 'G' => Calendar.IsoWeekBounds(y, m, d); Decimal.Pad(Calendar.IsoWeek(y, m, d).isoYear, 4)
    case 'H' => Decimal.Pad(t.hour, 2)
    case 'I' => Decimal.Pad(Hour12(t.hour), 2)
    case 'j' => Decimal.Pad(Calendar.Ordinal(y, m, d), 3)
    case 'm' => Decimal.Pad(m, 2)
    case 'M' => Decimal.Pad(t.minute, 2)
    case 'p' => if IsPM(t.hour) then "PM" else "AM"
    case 'S' => Decimal.Pad(t.second, 2)
    case 'U' => Decimal.Pad(Calendar.SundayWeek(y, m, d), 2)
    case 'V' => Calendar.IsoWeekBounds(y, m, d); Decimal.Pad(Calendar.IsoWeek(y, m, d).week, 2)
    case 'w' => Decimal.Pad(Calendar.Weekday(y, m, d), 1)
    case 'W' => Decimal.Pad(Calendar.MondayWeek(y, m, d), 2)
    case 'y' => Decimal.Pad(y % 100, 2)
    case 'Y' => Decimal.Pad(y, 4)
    case 'Z' => t.zone
  }

  /** The text one step contributes. */
  function RenderStep(s: Step, t: Timestamp): string
    requires ValidTimestamp(t)
    decreases StepRank(s) + 1, 0
  {
    match s
    case Literal(text) => text
    case Directive(c) => Field(c, t)
    case Fraction(w) => FractionDigits(t.nanosecond, w)
  }

  /** The steps' texts, concatenated in plan order. */
  function Render(plan: seq<Step>, t: Timestamp): string
    requires ValidTimestamp(t)
    decreases PlanRank(plan) + 1, |plan|
  {
    if plan == [] then []
    else
      assert StepRank(plan[0]) <= PlanRank(plan) && PlanRank(plan[1..]) <= PlanRank(plan);
      RenderStep(plan[0], t) + Render(plan[1..], t)
  }

  /** A number that fits in `w` digits renders as exactly `w` digits that read back as the number. */
  lemma PadFits(n: nat, w: nat)
    requires 1 <= w && n < Decimal.Pow10(w)
    ensures |Decimal.Pad(n, w)| == w && Decimal.ReadsAs(Decimal.Pad(n, w), n)
  {
    Decimal.PadShape(n, w);
    Decimal.PadRoundTrip(n, w);
  }

  /**
   * %H %M %S %I render two digits that read back as the hour, minute,
   * second and 12-hour hour; %I with %p gives the hour back.
   */
  lemma ClockFields(t: Timestamp)
    requires ValidTimestamp(t)
    ensures |Field('H', t)| == 2 && Decimal.ReadsAs(Field('H', t), t.hour)
    ensures |Field('M', t)| == 2 && Decimal.ReadsAs(Field('M', t), t.minute)
    ensures |Field('S', t)| == 2 && Decimal.ReadsAs(Field('S', t), t.second)
    ensures |Field('I', t)| == 2 && Decimal.ReadsAs(Field('I', t), Hour12(t.hour))
    ensures Field('p', t) == (if t.hour < 12 then "AM" else "PM")
    ensures To24(Hour12(t.hour), Field('p', t) == "PM") == t.hour
  {
    assert Decimal.Pow10(2) == 100;
    assert Field('H', t) == Decimal.Pad(t.hour, 2);
    assert Field('M', t) == Decimal.Pad(t.minute, 2);
    assert Field('S', t) == Decimal.Pad(t.second, 2);
    assert Field('I', t) == Decimal.Pad(Hour12(t.hour), 2);
    PadFits(t.hour, 2);
    PadFits(t.minute, 2);
    PadFits(t.second, 2);
    PadFits(Hour12(t.hour), 2);
    ClockRoundTrip(t.hour);
  }

  /** %d %m %j render two, two and three digits that read back as the day, month and day of year. */
  lemma DayFields(t: Timestamp)
    requires ValidTimestamp(t)
    ensures |Field('d', t)| == 2 && Decimal.ReadsAs(Field('d', t), t.day)
    ensures |Field('m', t)| == 2 && Decimal.ReadsAs(Field('m', t), t.month)
    ensures |Field('j', t)| == 3 && Decimal.ReadsAs(Field('j', t), Calendar.Ordinal(t.year, t.month, t.day))
  {
    assert Decimal.Pow10(2) == 100;
    assert Decimal.Pow10(3) == 1000;
    assert Field('d', t) == Decimal.Pad(t.day, 2);
    assert Field('m', t) == Decimal.Pad(t.month, 2);
    assert Field('j', t) == Decimal.Pad(Calendar.Ordinal(t.year, t.month, t.day), 3);
    PadFits(t.day, 2);
    PadFits(t.month, 2);
    PadFits(Calendar.Ordinal(t.year, t.month, t.day), 3);
  }

  /** %Y reads back as the year with at least four digits, and %y is its last two. */
  lemma YearFields(t: Timestamp)
    requires ValidTimestamp(t)
    ensures |Field('Y', t)| >= 4 && Decimal.ReadsAs(Field('Y', t), t.year)
    ensures Field('y', t) == Field('Y', t)[|Field('Y', t)| - 2..]
  {
    assert Field('Y', t) == Decimal.Pad(t.year, 4);
    assert Field('y', t) == Decimal.Pad(t.year % 100, 2);
    Decimal.PadShape(t.year, 4);
    Decimal.PadRoundTrip(t.year, 4);
    Decimal.LastTwoDigits(t.year, 4);
  }

  /**
   * %w reads back as the weekday, %U and %W as the number of Sundays and
   * of Mondays so far this year.
   */
  lemma SimpleWeekFields(t: Timestamp)
    requires ValidTimestamp(t)
    ensures var k := Calendar.Ordinal(t.year, t.month, t.day);
      && |Field('w', t)| == 1 && Decimal.ReadsAs(Field('w', t), Calendar.Weekday(t.year, t.month, t.day))
      && |Field('U', t)| == 2 && Decimal.ReadsAs(Field('U', t), Calendar.CountWeekday(t.year, k, 0))
      && |Field('W', t)| == 2 && Decimal.ReadsAs(Field('W', t), Calendar.CountWeekday(t.year, k, 1))
  {
    var (y, m, d) := (t.year, t.month, t.day);
    assert Decimal.Pow10(1) == 10;
    assert Decimal.Pow10(2) == 100;
    assert Field('w', t) == Decimal.Pad(Calendar.Weekday(y, m, d), 1);
    assert Field('U', t) == Decimal.Pad(Calendar.SundayWeek(y, m, d), 2);
    assert Field('W', t) == Decimal.Pad(Calendar.MondayWeek(y, m, d), 2);
    PadFits(Calendar.Weekday(y, m, d), 1);
    PadFits(Calendar.SundayWeek(y, m, d), 2);
    PadFits(Calendar.MondayWeek(y, m, d), 2);
    Calendar.SundayWeekCountsSundays(y, m, d);
    Calendar.MondayWeekCountsMondays(y, m, d);
  }

  /**
   * %G reads back as the ISO year holding the day (at least four digits),
   * %V as the two-digit number of the week of that ISO year the day falls in.
   */
  lemma IsoWeekFields(t: Timestamp)
    requires ValidTimestamp(t)
    ensures exists g: int, v: int ::
      && Decimal.ReadsAs(Field('G', t), g) && |Field('G', t)| >= 4
      && Decimal.ReadsAs(Field('V', t), v) && |Field('V', t)| == 2
      && var n := Calendar.DayNumber(t.year, t.month, t.day);
      && Calendar.IsoYearStart(g) <= n < Calendar.IsoYearStart(g + 1)
      && v == (n - Calendar.IsoYearStart(g)) / 7 + 1
  {
    var (y, m, d) := (t.year, t.month, t.day);
    assert Decimal.Pow10(2) == 100;
    Calendar.IsoWeekBounds(y, m, d);
    Calendar.IsoWeekMatchesReference(y, m, d);
    var r := Calendar.IsoWeek(y, m, d);
    assert Field('G', t) == Decimal.Pad(r.isoYear, 4);
    assert Field('V', t) == Decimal.Pad(r.week, 2);
    PadFits(r.week, 2);
    Decimal.PadShape(r.isoYear, 4);
    Decimal.PadRoundTrip(r.isoYear, 4);
    assert Decimal.ReadsAs(Field('G', t), r.isoYear);
  }
}
