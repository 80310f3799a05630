/**
 * The behaviour the formatter's test tables fix, as evaluation lemmas:
 * each directive rendered for the reference time 2009-11-08 23:01:02.000000003
 * UTC, the escapes and digit runs, embedded and empty formats, the unknown
 * directive, and the simple-week and ISO-week boundary dates.
 */
module TestVectors {
  import opened Decimal
  import opened Calendar
  import opened Directives
  import opened Compiler
  import opened Renderer
  import opened Laws

  /** 2009-11-08 23:01:02.000000003 UTC, a Sunday. */
  const Ref: Timestamp := Timestamp(2009, 11, 8, 23, 1, 2, 3, "UTC")

  lemma RefValid()
    ensures ValidTimestamp(Ref)
  {
  }

  /** A format made of one directive letter renders as its field. */
  lemma Single(c: Code, t: Timestamp)
    requires ValidTimestamp(t)
    ensures Strftime(['%', c], t) == Field(c, t)
  {
    DirectiveField(c, [], t);
    EmptyFormat(t);
    assert ['%', c] + [] == ['%', c];
  }

  // Each step below takes the pieces of the format and of its rendering
  // as parameters, so that the text of a test vector is split once, by a
  // lemma of its own, and the rendering is assembled one step at a time.

  /** A format `g` that is text `s` without `%` followed by `f`. */
  lemma TextStep(g: string, s: string, f: string, t: Timestamp, rest: string, r: string)
    requires ValidTimestamp(t) && NoPercent(s) && g == s + f
    requires Strftime(f, t) == rest && r == s + rest
    ensures Strftime(g, t) == r
  {
    PlainText(s, f, t);
  }

  /** A format `g` that is the directive `c` followed by `f`. */
  lemma FieldStep(g: string, c: Code, f: string, t: Timestamp, a: string, rest: string, r: string)
    requires ValidTimestamp(t) && g == ['%', c] + f
    requires Field(c, t) == a && Strftime(f, t) == rest && r == a + rest
    ensures Strftime(g, t) == r
  {
    DirectiveField(c, f, t);
  }

  /** A format `g` that is the directive `c` alone. */
  lemma SingleStep(g: string, c: Code, t: Timestamp, a: string)
    requires ValidTimestamp(t) && g == ['%', c] && Field(c, t) == a
    ensures Strftime(g, t) == a
  {
    Single(c, t);
  }

  /** A format `g` that is `%%` followed by `f`. */
  lemma EscapeStep(g: string, f: string, t: Timestamp, rest: string, r: string)
    requires ValidTimestamp(t) && g == "%%" + f && Strftime(f, t) == rest && r == "%" + rest
    ensures Strftime(g, t) == r
  {
    Escape(f, t);
  }

  /** A format `g` that is `%` and one digit followed by `f`, which does not go on with a digit or `n`. */
  lemma DigitStep(g: string, c: char, f: string, t: Timestamp, rest: string, r: string)
    requires ValidTimestamp(t) && IsDigit(c) && f != [] && !IsDigit(f[0]) && f[0] != 'n'
    requires g == ['%', c] + f && Strftime(f, t) == rest && r == ['%', c] + rest
    ensures Strftime(g, t) == r
  {
    DigitRunPassthrough([c], f, t);
    assert "%" + [c] + f == g;
  }

  lemma WeekdayField()
    ensures ValidTimestamp(Ref) && Field('a', Ref) == "Sun"
  {
    RefValid();
    assert Weekday(2009, 11, 8) == 0;
  }

  lemma WeekdayVector()
    ensures ValidTimestamp(Ref) && Strftime("%a", Ref) == "Sun"
  {
    WeekdayField();
    Single('a', Ref);
  }

  lemma WeekdayNameField()
    ensures ValidTimestamp(Ref) && Field('A', Ref) == "Sunday"
  {
    RefValid();
    assert Weekday(2009, 11, 8) == 0;
  }

  lemma WeekdayNameVector()
    ensures ValidTimestamp(Ref) && Strftime("%A", Ref) == "Sunday"
  {
    WeekdayNameField();
    Single('A', Ref);
  }

  lemma MonthField()
    ensures ValidTimestamp(Ref) && Field('b', Ref) == "Nov"
  {
    RefValid();
  }

  lemma MonthVector()
    ensures ValidTimestamp(Ref) && Strftime("%b", Ref) == "Nov"
  {
    MonthField();
    Single('b', Ref);
  }

  lemma MonthNameField()
    ensures ValidTimestamp(Ref) && Field('B', Ref) == "November"
  {
    RefValid();
  }

  lemma MonthNameVector()
    ensures ValidTimestamp(Ref) && Strftime("%B", Ref) == "November"
  {
    MonthNameField();
    Single('B', Ref);
  }

  lemma DayField()
    ensures ValidTimestamp(Ref) && Field('d', Ref) == "08"
  {
    RefValid();
  }

  lemma DayVector()
    ensures ValidTimestamp(Ref) && Strftime("%d", Ref) == "08"
  {
    DayField();
    Single('d', Ref);
  }

  lemma HourField()
    ensures ValidTimestamp(Ref) && Field('H', Ref) == "23"
  {
    RefValid();
  }

  lemma HourVector()
    ensures ValidTimestamp(Ref) && Strftime("%H", Ref) == "23"
  {
    HourField();
    Single('H', Ref);
  }

  lemma Hour12Field()
    ensures ValidTimestamp(Ref) && Field('I', Ref) == "11"
  {
    RefValid();
  }

  lemma Hour12Vector()
    ensures ValidTimestamp(Ref) && Strftime("%I", Ref) == "11"
  {
    Hour12Field();
    Single('I', Ref);
  }

  lemma DayOfYearField()
    ensures ValidTimestamp(Ref) && Field('j', Ref) == "312"
  {
    RefValid();
    assert Ordinal(2009, 11, 8) == 312;
  }

  lemma DayOfYearVector()
    ensures ValidTimestamp(Ref) && Strftime("%j", Ref) == "312"
  {
    DayOfYearField();
    Single('j', Ref);
  }

  lemma MonthNumberField()
    ensures ValidTimestamp(Ref) && Field('m', Ref) == "11"
  {
    RefValid();
  }

  lemma MonthNumberVector()
    ensures ValidTimestamp(Ref) && Strftime("%m", Ref) == "11"
  {
    MonthNumberField();
    Single('m', Ref);
  }

  lemma MinuteField()
    ensures ValidTimestamp(Ref) && Field('M', Ref) == "01"
  {
    RefValid();
  }

  lemma MinuteVector()
    ensures ValidTimestamp(Ref) && Strftime("%M", Ref) == "01"
  {
    MinuteField();
    Single('M', Ref);
  }

  lemma MeridiemField()
    ensures ValidTimestamp(Ref) && Field('p', Ref) == "PM"
  {
    RefValid();
  }

  lemma MeridiemVector()
    ensures ValidTimestamp(Ref) && Strftime("%p", Ref) == "PM"
  {
    MeridiemField();
    Single('p', Ref);
  }

  lemma SecondField()
    ensures ValidTimestamp(Ref) && Field('S', Ref) == "02"
  {
    RefValid();
  }

  lemma SecondVector()
    ensures ValidTimestamp(Ref) && Strftime("%S", Ref) == "02"
  {
    SecondField();
    Single('S', Ref);
  }

  lemma SundayWeekField()
    ensures ValidTimestamp(Ref) && Field('U', Ref) == "45"
  {
    RefValid();
    assert Ordinal(2009, 11, 8) == 312;
    assert Weekday(2009, 11, 8) == 0;
  }

  lemma SundayWeekVector()
    ensures ValidTimestamp(Ref) && Strftime("%U", Ref) == "45"
  {
    SundayWeekField();
    Single('U', Ref);
  }

  lemma WeekdayNumberField()
    ensures ValidTimestamp(Ref) && Field('w', Ref) == "0"
  {
    RefValid();
    assert Weekday(2009, 11, 8) == 0;
  }

  lemma WeekdayNumberVector()
    ensures ValidTimestamp(Ref) && Strftime("%w", Ref) == "0"
  {
    WeekdayNumberField();
    Single('w', Ref);
  }

  lemma MondayWeekField()
    ensures ValidTimestamp(Ref) && Field('W', Ref) == "44"
  {
    RefValid();
    assert Ordinal(2009, 11, 8) == 312;
    assert Weekday(2009, 11, 8) == 0;
  }

  lemma MondayWeekVector()
    ensures ValidTimestamp(Ref) && Strftime("%W", Ref) == "44"
  {
    MondayWeekField();
    Single('W', Ref);
  }

  lemma ShortYearField()
    ensures ValidTimestamp(Ref) && Field('y', Ref) == "09"
  {
    RefValid();
  }

  lemma ShortYearVector()
    ensures ValidTimestamp(Ref) && Strftime("%y", Ref) == "09"
  {
    ShortYearField();
    Single('y', Ref);
  }

  lemma YearField()
    ensures ValidTimestamp(Ref) && Field('Y', Ref) == "2009"
  {
    RefValid();
  }

  lemma YearVector()
    ensures ValidTimestamp(Ref) && Strftime("%Y", Ref) == "2009"
  {
    YearField();
    Single('Y', Ref);
  }

  lemma ZoneField()
    ensures ValidTimestamp(Ref) && Field('Z', Ref) == "UTC"
  {
    RefValid();
  }

  lemma ZoneVector()
    ensures ValidTimestamp(Ref) && Strftime("%Z", Ref) == "UTC"
  {
    ZoneField();
    Single('Z', Ref);
  }

  /** A five-step plan renders as its five texts. */
  lemma RenderFive(p: seq<Step>, t: Timestamp, a: string, b: string, c: string, d: string, e: string)
    requires ValidTimestamp(t) && |p| == 5
    requires RenderStep(p[0], t) == a && RenderStep(p[1], t) == b && RenderStep(p[2], t) == c
    requires RenderStep(p[3], t) == d && RenderStep(p[4], t) == e
    ensures Render(p, t) == a + (b + (c + (d + e)))
  {
    assert p[4..][1..] == [];
    assert Render(p[4..], t) == e + [];
    assert p[3..][1..] == p[4..];
    assert p[2..][1..] == p[3..];
    assert p[1..][1..] == p[2..];
    assert Render(p[3..], t) == d + e;
    assert Render(p[2..], t) == c + (d + e);
    assert Render(p[1..], t) == b + (c + (d + e));
  }

  /** A fifteen-step plan renders five steps at a time. */
  lemma RenderThirds(p: seq<Step>, t: Timestamp)
    requires ValidTimestamp(t) && |p| == 15
    ensures Render(p, t) == Render(p[..5], t) + (Render(p[5..10], t) + Render(p[10..], t))
  {
    assert p == p[..5] + (p[5..10] + p[10..]);
    RenderAppend(p[..5], p[5..10] + p[10..], t);
    RenderAppend(p[5..10], p[10..], t);
  }

  lemma ShortDateField()
    ensures ValidTimestamp(Ref) && Field('x', Ref) == "11/08/09"
  {
    RefValid();
    MonthNumberField();
    DayField();
    ShortYearField();
    RenderFive(DatePlan, Ref, "11", "/", "08", "/", "09");
  }

  lemma ShortDateVector()
    ensures ValidTimestamp(Ref) && Strftime("%x", Ref) == "11/08/09"
  {
    ShortDateField();
    Single('x', Ref);
  }

  lemma TimeOfDayField()
    ensures ValidTimestamp(Ref) && Field('X', Ref) == "23:01:02"
  {
    RefValid();
    HourField();
    MinuteField();
    SecondField();
    RenderFive(TimePlan, Ref, "23", ":", "01", ":", "02");
  }

  lemma TimeOfDayVector()
    ensures ValidTimestamp(Ref) && Strftime("%X", Ref) == "23:01:02"
  {
    TimeOfDayField();
    Single('X', Ref);
  }

  /** Weekday, day and month of %c for the reference time. */
  lemma DateTimeHeadVector()
    ensures ValidTimestamp(Ref) && Render(DateTimePlan[..5], Ref) == "Sun, 08 Nov"
  {
    RefValid();
    WeekdayField();
    DayField();
    MonthField();
    RenderFive(DateTimePlan[..5], Ref, "Sun", ", ", "08", " ", "Nov");
  }

  /** Year and hour of %c for the reference time. */
  lemma DateTimeMiddleVector()
    ensures ValidTimestamp(Ref) && Render(DateTimePlan[5..10], Ref) == " 2009 23:"
  {
    RefValid();
    YearField();
    HourField();
    RenderFive(DateTimePlan[5..10], Ref, " ", "2009", " ", "23", ":");
  }

  /** Minute, second and zone of %c for the reference time. */
  lemma DateTimeTailVector()
    ensures ValidTimestamp(Ref) && Render(DateTimePlan[10..], Ref) == "01:02 UTC"
  {
    RefValid();
    MinuteField();
    SecondField();
    ZoneField();
    RenderFive(DateTimePlan[10..], Ref, "01", ":", "02", " ", "UTC");
  }

  lemma DateTimeField()
    ensures ValidTimestamp(Ref) && Field('c', Ref) == "Sun, 08 Nov 2009 23:01:02 UTC"
  {
    RefValid();
    RenderThirds(DateTimePlan, Ref);
    DateTimeHeadVector();
    DateTimeMiddleVector();
    DateTimeTailVector();
    DateTimeTextJoin(Render(DateTimePlan[..5], Ref), Render(DateTimePlan[5..10], Ref), Render(DateTimePlan[10..], Ref));
  }

  lemma DateTimeTextJoin(a: string, b: string, c: string)
    requires a == "Sun, 08 Nov" && b == " 2009 23:" && c == "01:02 UTC"
    ensures a + (b + c) == "Sun, 08 Nov 2009 23:01:02 UTC"
  {
  }

  lemma DateTimeVector()
    ensures ValidTimestamp(Ref) && Strftime("%c", Ref) == "Sun, 08 Nov 2009 23:01:02 UTC"
  {
    DateTimeField();
    Single('c', Ref);
  }

  /** A one-digit width before `n` makes the whole format the truncated fraction. */
  lemma FractionAlone(c: char, w: Width, t: Timestamp)
    requires ValidTimestamp(t) && IsDigit(c) && DigitValue(c) == w
    ensures Strftime(['%', c, 'n'], t) == FractionDigits(t.nanosecond, w)
  {
    EmptyFormat(t);
    assert DecimalValue([c]) == DecimalValue([]) * 10 + DigitValue(c);
    FractionDirective([c], [], t);
    assert "%" + [c] + "n" + [] == ['%', c, 'n'];
  }

  lemma Fraction3Digits()
    ensures FractionDigits(Ref.nanosecond, 3) == "000"
  {
    FractionOf(3, 3, 1000000, 0);
    assert Pad(0, 1) == "0";
    assert Pad(0, 2) == "00";
    assert Pad(0, 3) == "000";
  }

  lemma Fraction6Digits()
    ensures FractionDigits(Ref.nanosecond, 6) == "000000"
  {
    FractionOf(3, 6, 1000, 0);
    assert Pad(0, 2) == "00";
    assert Pad(0, 4) == "0000";
    assert Pad(0, 6) == "000000";
  }

  lemma Fraction9Digits()
    ensures FractionDigits(Ref.nanosecond, 9) == "000000003"
  {
    FractionOf(3, 9, 1, 3);
    assert Pad(0, 4) == "0000";
    assert Pad(0, 8) == "00000000";
    assert Pad(3, 9) == Pad(0, 8) + "3";
  }

  /** The truncated fraction, once the divisor and quotient are known. */
  lemma FractionOf(ns: nat, w: Width, p: nat, q: nat)
    requires ns < Pow10(NanoDigits) && p == Pow10(NanoDigits - w) && q == ns / p
    ensures FractionDigits(ns, w) == Pad(q, w)
  {
  }

  lemma Fraction3Vector()
    ensures ValidTimestamp(Ref) && Strftime("%3n", Ref) == "000"
  {
    RefValid();
    FractionAlone('3', 3, Ref);
    Fraction3Digits();
  }

  lemma Fraction6Vector()
    ensures ValidTimestamp(Ref) && Strftime("%6n", Ref) == "000000"
  {
    RefValid();
    FractionAlone('6', 6, Ref);
    Fraction6Digits();
  }

  lemma Fraction9Vector()
    ensures ValidTimestamp(Ref) && Strftime("%9n", Ref) == "000000003"
  {
    RefValid();
    FractionAlone('9', 9, Ref);
    Fraction9Digits();
  }

  lemma EscapeYearText()
    ensures "%%%Y" == "%%" + "%Y" && "%2009" == "%" + "2009"
  {
  }

  lemma EscapeYearVector()
    ensures ValidTimestamp(Ref) && Strftime("%%%Y", Ref) == "%2009"
  {
    YearVector();
    EscapeYearText();
    EscapeStep("%%%Y", "%Y", Ref, "2009", "%2009");
  }

  lemma EscapeText()
    ensures "%%" == "%%" + [] && "%" == "%" + []
  {
  }

  lemma EscapeVector()
    ensures ValidTimestamp(Ref) && Strftime("%%", Ref) == "%"
  {
    RefValid();
    EmptyFormat(Ref);
    EscapeText();
    EscapeStep("%%", [], Ref, [], "%");
  }

  lemma DigitsThenEscapeText()
    ensures "%3%%" == ['%', '3'] + "%%" && "%3%" == ['%', '3'] + "%"
    ensures IsDigit('3') && "%%" != [] && !IsDigit("%%"[0]) && "%%"[0] != 'n'
  {
  }

  lemma DigitsThenEscapeVector()
    ensures ValidTimestamp(Ref) && Strftime("%3%%", Ref) == "%3%"
  {
    EscapeVector();
    DigitsThenEscapeText();
    DigitStep("%3%%", '3', "%%", Ref, "%", "%3%");
  }

  lemma DigitsThenFractionText()
    ensures "%3%3n" == ['%', '3'] + "%3n" && "%3000" == ['%', '3'] + "000"
    ensures IsDigit('3') && "%3n" != [] && !IsDigit("%3n"[0]) && "%3n"[0] != 'n'
  {
  }

  lemma DigitsThenFractionVector()
    ensures ValidTimestamp(Ref) && Strftime("%3%3n", Ref) == "%3000"
  {
    Fraction3Vector();
    DigitsThenFractionText();
    DigitStep("%3%3n", '3', "%3n", Ref, "000", "%3000");
  }

  lemma LettersThenFractionText()
    ensures "xy%3n" == "xy" + "%3n" && "xy000" == "xy" + "000" && NoPercent("xy")
  {
  }

  lemma LettersThenFraction()
    ensures ValidTimestamp(Ref) && Strftime("xy%3n", Ref) == "xy000"
  {
    Fraction3Vector();
    LettersThenFractionText();
    TextStep("xy%3n", "xy", "%3n", Ref, "000", "xy000");
  }

  lemma DigitsBeforeLetterText()
    ensures "%3xy%3n" == ['%', '3'] + "xy%3n" && "%3xy000" == ['%', '3'] + "xy000"
    ensures IsDigit('3') && "xy%3n" != [] && !IsDigit("xy%3n"[0]) && "xy%3n"[0] != 'n'
  {
  }

  lemma DigitsBeforeLetterVector()
    ensures ValidTimestamp(Ref) && Strftime("%3xy%3n", Ref) == "%3xy000"
  {
    LettersThenFraction();
    DigitsBeforeLetterText();
    DigitStep("%3xy%3n", '3', "xy%3n", Ref, "xy000", "%3xy000");
  }

  lemma ReportText()
    ensures NoPercent("/report")
  {
  }

  lemma EmbeddedReport()
    ensures ValidTimestamp(Ref) && Strftime("/report", Ref) == "/report"
  {
    RefValid();
    ReportText();
    LiteralFormat("/report", Ref);
  }

  lemma EmbeddedMonthText()
    ensures "%m/report" == ['%', 'm'] + "/report" && "11/report" == "11" + "/report"
  {
  }

  lemma EmbeddedFromMonth()
    ensures ValidTimestamp(Ref) && Strftime("%m/report", Ref) == "11/report"
  {
    EmbeddedReport();
    MonthNumberField();
    EmbeddedMonthText();
    FieldStep("%m/report", 'm', "/report", Ref, "11", "/report", "11/report");
  }

  lemma EmbeddedSlashText()
    ensures "/%m/report" == "/" + "%m/report" && "/11/report" == "/" + "11/report" && NoPercent("/")
  {
  }

  lemma EmbeddedFromSlash()
    ensures ValidTimestamp(Ref) && Strftime("/%m/report", Ref) == "/11/report"
  {
    EmbeddedFromMonth();
    EmbeddedSlashText();
    TextStep("/%m/report", "/", "%m/report", Ref, "11/report", "/11/report");
  }

  lemma EmbeddedYearText()
    ensures "%Y/%m/report" == ['%', 'Y'] + "/%m/report" && "2009/11/report" == "2009" + "/11/report"
  {
  }

  lemma EmbeddedFromYear()
    ensures ValidTimestamp(Ref) && Strftime("%Y/%m/report", Ref) == "2009/11/report"
  {
    EmbeddedFromSlash();
    YearField();
    EmbeddedYearText();
    FieldStep("%Y/%m/report", 'Y', "/%m/report", Ref, "2009", "/11/report", "2009/11/report");
  }

  lemma EmbeddedPathText()
    ensures "/path/%Y/%m/report" == "/path/" + "%Y/%m/report"
    ensures "/path/2009/11/report" == "/path/" + "2009/11/report" && NoPercent("/path/")
  {
  }

  lemma EmbeddedVector()
    ensures ValidTimestamp(Ref) && Strftime("/path/%Y/%m/report", Ref) == "/path/2009/11/report"
  {
    EmbeddedFromYear();
    EmbeddedPathText();
    TextStep("/path/%Y/%m/report", "/path/", "%Y/%m/report", Ref, "2009/11/report", "/path/2009/11/report");
  }

  lemma EmptyVector()
    ensures ValidTimestamp(Ref) && Strftime("", Ref) == ""
  {
    RefValid();
    EmptyFormat(Ref);
  }

  /** An unknown directive is copied as it stands. */
  lemma UnknownVector()
    ensures ValidTimestamp(Ref) && Strftime("%g", Ref) == "%g"
  {
    RefValid();
    EmptyFormat(Ref);
    UnknownDirective('g', [], Ref);
    assert ['%', 'g'] + [] == "%g";
  }

  // ---- Boundary dates ----

  /** Midnight UTC on a date. */
  function Midnight(y: int, m: int, d: int): Timestamp {
    Timestamp(y, m, d, 0, 0, 0, 0, "UTC")
  }

  /** %U of a day in January, from the day and its weekday (0 for Sunday). */
  lemma JanuarySundayField(y: int, d: int, wd: int)
    requires y >= 1 && 1 <= d <= 31 && Weekday(y, 1, d) == wd
    ensures ValidTimestamp(Midnight(y, 1, d))
    ensures Field('U', Midnight(y, 1, d)) == ['0', DigitChar((d + 6 - wd) / 7)]
  {
    var x := JanuarySundayWeek(y, d, wd);
    assert Field('U', Midnight(y, 1, d)) == Pad(x, 2);
    PadTwo(x);
    assert DigitChar(0) == '0';
  }

  /** %W of a day in January, from the day and its weekday (0 for Sunday). */
  lemma JanuaryMondayField(y: int, d: int, wd: int)
    requires y >= 1 && 1 <= d <= 31 && Weekday(y, 1, d) == wd
    ensures ValidTimestamp(Midnight(y, 1, d))
    ensures Field('W', Midnight(y, 1, d)) == ['0', DigitChar((d + 6 - (wd + 6) % 7) / 7)]
  {
    var x := JanuaryMondayWeek(y, d, wd);
    assert Field('W', Midnight(y, 1, d)) == Pad(x, 2);
    PadTwo(x);
    assert DigitChar(0) == '0';
  }

  /** The Sunday-based week number of January `d`: one digit. */
  lemma JanuarySundayWeek(y: int, d: int, wd: int) returns (x: nat)
    requires y >= 1 && 1 <= d <= 31 && Weekday(y, 1, d) == wd
    ensures x == SundayWeek(y, 1, d) && x == (d + 6 - wd) / 7 && x / 10 == 0 && x % 10 == x
  {
    assert Ordinal(y, 1, d) == d;
    x := (d + 6 - wd) / 7;
  }

  /** The Monday-based week number of January `d`: one digit. */
  lemma JanuaryMondayWeek(y: int, d: int, wd: int) returns (x: nat)
    requires y >= 1 && 1 <= d <= 31 && Weekday(y, 1, d) == wd
    ensures x == MondayWeek(y, 1, d) && x == (d + 6 - (wd + 6) % 7) / 7 && x / 10 == 0 && x % 10 == x
  {
    assert Ordinal(y, 1, d) == d;
    x := (d + 6 - (wd + 6) % 7) / 7;
  }

  lemma WeekNumberText()
    ensures "%U" == ['%', 'U'] && "%W" == ['%', 'W']
  {
  }

  /** %U and %W of a day in January whose two week numbers are given as text. */
  lemma JanuaryWeekNumbers(y: int, d: int, wd: int, sunday: string, monday: string)
    requires y >= 1 && 1 <= d <= 31 && Weekday(y, 1, d) == wd
    requires sunday == ['0', DigitChar((d + 6 - wd) / 7)]
    requires monday == ['0', DigitChar((d + 6 - (wd + 6) % 7) / 7)]
    ensures ValidTimestamp(Midnight(y, 1, d))
    ensures Strftime("%U", Midnight(y, 1, d)) == sunday && Strftime("%W", Midnight(y, 1, d)) == monday
  {
    JanuarySundayField(y, d, wd);
    JanuaryMondayField(y, d, wd);
    WeekNumberText();
    SingleStep("%U", 'U', Midnight(y, 1, d), sunday);
    SingleStep("%W", 'W', Midnight(y, 1, d), monday);
  }

  /** The weekday of a day in January 2009, whose first day is a Thursday. */
  lemma January2009(d: int, wd: int)
    requires 1 <= d <= 31 && wd == (d + 3) % 7
    ensures Weekday(2009, 1, d) == wd
  {
    NewYear2009();
    WeekdayFromNewYear(2009, 1, d);
    assert Ordinal(2009, 1, d) == d;
  }

  lemma NewYear2009()
    ensures Weekday(2009, 1, 1) == 4
  {
  }

  lemma FirstDayText()
    ensures "00" == ['0', DigitChar((1 + 6 - 4) / 7)] && "00" == ['0', DigitChar((1 + 6 - (4 + 6) % 7) / 7)]
  {
  }

  /** 2009-01-01, a Thursday: neither a Sunday nor a Monday has begun a week yet. */
  lemma FirstDayVector()
    ensures ValidTimestamp(Midnight(2009, 1, 1))
    ensures Strftime("%W", Midnight(2009, 1, 1)) == "00" && Strftime("%U", Midnight(2009, 1, 1)) == "00"
  {
    January2009(1, 4);
    FirstDayText();
    JanuaryWeekNumbers(2009, 1, 4, "00", "00");
  }

  lemma FirstSundayText()
    ensures "01" == ['0', DigitChar((4 + 6 - 0) / 7)] && "00" == ['0', DigitChar((4 + 6 - (0 + 6) % 7) / 7)]
  {
  }

  /** 2009-01-04, the first Sunday: week 1 for %U, still week 0 for %W. */
  lemma FirstSundayVector()
    ensures ValidTimestamp(Midnight(2009, 1, 4))
    ensures Strftime("%W", Midnight(2009, 1, 4)) == "00" && Strftime("%U", Midnight(2009, 1, 4)) == "01"
  {
    January2009(4, 0);
    FirstSundayText();
    JanuaryWeekNumbers(2009, 4, 0, "01", "00");
  }

  lemma FirstMondayText()
    ensures "01" == ['0', DigitChar((5 + 6 - 1) / 7)] && "01" == ['0', DigitChar((5 + 6 - (1 + 6) % 7) / 7)]
  {
  }

  /** 2009-01-05, the first Monday: week 1 for both. */
  lemma FirstMondayVector()
    ensures ValidTimestamp(Midnight(2009, 1, 5))
    ensures Strftime("%W", Midnight(2009, 1, 5)) == "01" && Strftime("%U", Midnight(2009, 1, 5)) == "01"
  {
    January2009(5, 1);
    FirstMondayText();
    JanuaryWeekNumbers(2009, 5, 1, "01", "01");
  }

  /** 2016-01-23 00:11:10 UTC. */
  const Jan2016: Timestamp := Timestamp(2016, 1, 23, 0, 11, 10, 0, "UTC")

  lemma Jan2016Fields()
    ensures ValidTimestamp(Jan2016) && Field('U', Jan2016) == "03" && Field('Y', Jan2016) == "2016"
  {
    assert Weekday(2016, 1, 23) == 6;
    assert Ordinal(2016, 1, 23) == 23;
  }

  lemma YearWeekText()
    ensures "%U" == ['%', 'U'] && "w%U" == "w" + "%U" && "w03" == "w" + "03" && NoPercent("w")
    ensures "%Yw%U" == ['%', 'Y'] + "w%U" && "2016w03" == "2016" + "w03"
  {
  }

  lemma YearWeekVector()
    ensures ValidTimestamp(Jan2016) && Strftime("%Yw%U", Jan2016) == "2016w03"
  {
    Jan2016Fields();
    YearWeekText();
    SingleStep("%U", 'U', Jan2016, "03");
    TextStep("w%U", "w", "%U", Jan2016, "03", "w03");
    FieldStep("%Yw%U", 'Y', "w%U", Jan2016, "2016", "w03", "2016w03");
  }

  lemma IsoFormatText()
    ensures "%w" == ['%', 'w'] && "-%w" == "-" + "%w" && NoPercent("-") && NoPercent("-W")
    ensures "%V-%w" == ['%', 'V'] + "-%w" && "-W%V-%w" == "-W" + "%V-%w"
    ensures "%G-W%V-%w" == ['%', 'G'] + "-W%V-%w"
  {
  }

  /** %G-W%V-%w in terms of its three fields. */
  lemma IsoPieces(t: Timestamp)
    requires ValidTimestamp(t)
    ensures Strftime("%G-W%V-%w", t) == Field('G', t) + ("-W" + (Field('V', t) + ("-" + Field('w', t))))
  {
    var (g, v, w) := (Field('G', t), Field('V', t), Field('w', t));
    IsoFormatText();
    SingleStep("%w", 'w', t, w);
    TextStep("-%w", "-", "%w", t, w, "-" + w);
    FieldStep("%V-%w", 'V', "-%w", t, v, "-" + w, v + ("-" + w));
    TextStep("-W%V-%w", "-W", "%V-%w", t, v + ("-" + w), "-W" + (v + ("-" + w)));
    FieldStep("%G-W%V-%w", 'G', "-W%V-%w", t, g, "-W" + (v + ("-" + w)), g + ("-W" + (v + ("-" + w))));
  }

  /** The ISO fields of a date whose ISO week date and weekday are known. */
  lemma IsoFields(t: Timestamp, g: nat, v: nat, w: nat)
    requires ValidTimestamp(t) && IsoWeek(t.year, t.month, t.day) == IsoWeekDate(g, v)
    requires Weekday(t.year, t.month, t.day) == w
    ensures Field('G', t) == Pad(g, 4) && Field('V', t) == Pad(v, 2) && Field('w', t) == Pad(w, 1)
  {
  }

  /** %G-W%V-%w renders the ISO year, the ISO week and the Sunday-based weekday. */
  lemma IsoFormat(t: Timestamp, g: nat, v: nat, w: nat)
    requires ValidTimestamp(t) && IsoWeek(t.year, t.month, t.day) == IsoWeekDate(g, v)
    requires Weekday(t.year, t.month, t.day) == w
    ensures Strftime("%G-W%V-%w", t) == Pad(g, 4) + ("-W" + (Pad(v, 2) + ("-" + Pad(w, 1))))
  {
    IsoPieces(t);
    IsoFields(t, g, v, w);
  }

  /**
   * The ISO week date from the day of year, the weekday and the ISO week
   * counts of the year and the year before: the raw week rolls back to the
   * last week of the previous ISO year when it is 0 and forward to week 1
   * of the next when it runs past the year's weeks.
   */
  lemma IsoWeekOf(y: int, m: int, d: int, k: int, wd: int, weeksBefore: int, weeks: int)
    requires ValidDate(y, m, d) && Ordinal(y, m, d) == k && Weekday(y, m, d) == wd
    requires WeeksInYear(y - 1) == weeksBefore && WeeksInYear(y) == weeks
    ensures var raw := (k - (if wd == 0 then 7 else wd) + 10) / 7;
      IsoWeek(y, m, d) == if raw == 0 then IsoWeekDate(y - 1, weeksBefore)
        else if raw > weeks then IsoWeekDate(y + 1, 1) else IsoWeekDate(y, raw)
  {
    assert RawIsoWeek(y, m, d) == (k - (if wd == 0 then 7 else wd) + 10) / 7;
  }

  /** %G-W%V-%w of a date whose ISO week date and weekday are known. */
  lemma IsoRendering(t: Timestamp, k: int, wd: nat, weeksBefore: int, weeks: int, g: nat, v: nat)
    requires ValidTimestamp(t) && Ordinal(t.year, t.month, t.day) == k && Weekday(t.year, t.month, t.day) == wd
    requires WeeksInYear(t.year - 1) == weeksBefore && WeeksInYear(t.year) == weeks
    requires var raw := (k - (if wd == 0 then 7 else wd) + 10) / 7;
      IsoWeekDate(g, v) == if raw == 0 then IsoWeekDate(t.year - 1, weeksBefore)
        else if raw > weeks then IsoWeekDate(t.year + 1, 1) else IsoWeekDate(t.year, raw)
    ensures Strftime("%G-W%V-%w", t) == Pad(g, 4) + ("-W" + (Pad(v, 2) + ("-" + Pad(wd, 1))))
  {
    IsoWeekOf(t.year, t.month, t.day, k, wd, weeksBefore, weeks);
    IsoFormat(t, g, v, wd);
  }

  /** The text %G-W%V-%w renders, character by character. */
  lemma IsoText(g: nat, v: nat, w: nat)
    requires 1000 <= g < 10000 && v < 100 && w < 10
    ensures Pad(g, 4) + ("-W" + (Pad(v, 2) + ("-" + Pad(w, 1))))
      == [DigitChar(g / 1000), DigitChar(g / 100 % 10), DigitChar(g / 10 % 10), DigitChar(g % 10),
          '-', 'W', DigitChar(v / 10), DigitChar(v % 10), '-', DigitChar(w)]
  {
    PadFour(g);
    PadTwo(v);
  }

  /**
   * %G-W%V-%w of a date, counted from the number of days before January 1st
   * of the year before: both years' January 1st weekdays, the date's
   * weekday and day of year, and the week counts of both years follow by
   * day counting.
   */
  lemma IsoFromNewYear(t: Timestamp, start: int, g: nat, v: nat, wd: nat, text: string)
    requires ValidTimestamp(t) && DaysBeforeYear(t.year - 1) == start
    requires 1000 <= g < 10000 && v < 100 && wd < 7
    requires var y := t.year;
      var before := (start + 1) % 7;
      var jan1 := (before + DaysInYear(y - 1)) % 7;
      var k := DaysBeforeMonth(y, t.month) + t.day;
      var weeksBefore := if before == 4 || (IsLeap(y - 1) && before == 3) then 53 else 52;
      var weeks := if jan1 == 4 || (IsLeap(y) && jan1 == 3) then 53 else 52;
      var raw := (k - (if wd == 0 then 7 else wd) + 10) / 7;
      && wd == (jan1 + k - 1) % 7
      && IsoWeekDate(g, v) == if raw == 0 then IsoWeekDate(y - 1, weeksBefore)
        else if raw > weeks then IsoWeekDate(y + 1, 1) else IsoWeekDate(y, raw)
    requires text == [DigitChar(g / 1000), DigitChar(g / 100 % 10), DigitChar(g / 10 % 10), DigitChar(g % 10),
      '-', 'W', DigitChar(v / 10), DigitChar(v % 10), '-', DigitChar(wd)]
    ensures Strftime("%G-W%V-%w", t) == text
  {
    var (y, m, d) := (t.year, t.month, t.day);
    assert Weekday(y - 1, 1, 1) == (start + 1) % 7;
    NewYearWeekdayStep(y - 1);
    WeekdayFromNewYear(y, m, d);
    IsoRendering(t, Ordinal(y, m, d), wd, WeeksInYear(y - 1), WeeksInYear(y), g, v);
    IsoText(g, v, wd);
  }

  lemma Iso2005Jan01Vector()
    ensures ValidTimestamp(Midnight(2005, 1, 1)) && Strftime("%G-W%V-%w", Midnight(2005, 1, 1)) == "2004-W53-6"
  {
    IsoFromNewYear(Midnight(2005, 1, 1), 731580, 2004, 53, 6, "2004-W53-6");
  }

  lemma Iso2005Jan02Vector()
    ensures ValidTimestamp(Midnight(2005, 1, 2)) && Strftime("%G-W%V-%w", Midnight(2005, 1, 2)) == "2004-W53-0"
  {
    IsoFromNewYear(Midnight(2005, 1, 2), 731580, 2004, 53, 0, "2004-W53-0");
  }

  lemma Iso2005Dec31Vector()
    ensures ValidTimestamp(Midnight(2005, 12, 31)) && Strftime("%G-W%V-%w", Midnight(2005, 12, 31)) == "2005-W52-6"
  {
    IsoFromNewYear(Midnight(2005, 12, 31), 731580, 2005, 52, 6, "2005-W52-6");
  }

  lemma Iso2007Jan01Vector()
    ensures ValidTimestamp(Midnight(2007, 1, 1)) && Strftime("%G-W%V-%w", Midnight(2007, 1, 1)) == "2007-W01-1"
  {
    IsoFromNewYear(Midnight(2007, 1, 1), 732311, 2007, 1, 1, "2007-W01-1");
  }

  lemma Iso2007Dec30Vector()
    ensures ValidTimestamp(Midnight(2007, 12, 30)) && Strftime("%G-W%V-%w", Midnight(2007, 12, 30)) == "2007-W52-0"
  {
    IsoFromNewYear(Midnight(2007, 12, 30), 732311, 2007, 52, 0, "2007-W52-0");
  }

  lemma Iso2007Dec31Vector()
    ensures ValidTimestamp(Midnight(2007, 12, 31)) && Strftime("%G-W%V-%w", Midnight(2007, 12, 31)) == "2008-W01-1"
  {
    IsoFromNewYear(Midnight(2007, 12, 31), 732311, 2008, 1, 1, "2008-W01-1");
  }

  lemma Iso2008Jan01Vector()
    ensures ValidTimestamp(Midnight(2008, 1, 1)) && Strftime("%G-W%V-%w", Midnight(2008, 1, 1)) == "2008-W01-2"
  {
    IsoFromNewYear(Midnight(2008, 1, 1), 732676, 2008, 1, 2, "2008-W01-2");
  }

  lemma Iso2008Dec28Vector()
    ensures ValidTimestamp(Midnight(2008, 12, 28)) && Strftime("%G-W%V-%w", Midnight(2008, 12, 28)) == "2008-W52-0"
  {
    IsoFromNewYear(Midnight(2008, 12, 28), 732676, 2008, 52, 0, "2008-W52-0");
  }

  lemma Iso2008Dec29Vector()
    ensures ValidTimestamp(Midnight(2008, 12, 29)) && Strftime("%G-W%V-%w", Midnight(2008, 12, 29)) == "2009-W01-1"
  {
    IsoFromNewYear(Midnight(2008, 12, 29), 732676, 2009, 1, 1, "2009-W01-1");
  }

  lemma Iso2008Dec30Vector()
    ensures ValidTimestamp(Midnight(2008, 12, 30)) && Strftime("%G-W%V-%w", Midnight(2008, 12, 30)) == "2009-W01-2"
  {
    IsoFromNewYear(Midnight(2008, 12, 30), 732676, 2009, 1, 2, "2009-W01-2");
  }

  lemma Iso2008Dec31Vector()
    ensures ValidTimestamp(Midnight(2008, 12, 31)) && Strftime("%G-W%V-%w", Midnight(2008, 12, 31)) == "2009-W01-3"
  {
    IsoFromNewYear(Midnight(2008, 12, 31), 732676, 2009, 1, 3, "2009-W01-3");
  }

  lemma Iso2009Jan01Vector()
    ensures ValidTimestamp(Midnight(2009, 1, 1)) && Strftime("%G-W%V-%w", Midnight(2009, 1, 1)) == "2009-W01-4"
  {
    IsoFromNewYear(Midnight(2009, 1, 1), 733041, 2009, 1, 4, "2009-W01-4");
  }

  lemma Iso2009Dec31Vector()
    ensures ValidTimestamp(Midnight(2009, 12, 31)) && Strftime("%G-W%V-%w", Midnight(2009, 12, 31)) == "2009-W53-4"
  {
    IsoFromNewYear(Midnight(2009, 12, 31), 733041, 2009, 53, 4, "2009-W53-4");
  }

  lemma Iso2010Jan01Vector()
    ensures ValidTimestamp(Midnight(2010, 1, 1)) && Strftime("%G-W%V-%w", Midnight(2010, 1, 1)) == "2009-W53-5"
  {
    IsoFromNewYear(Midnight(2010, 1, 1), 733407, 2009, 53, 5, "2009-W53-5");
  }

  lemma Iso2010Jan02Vector()
    ensures ValidTimestamp(Midnight(2010, 1, 2)) && Strftime("%G-W%V-%w", Midnight(2010, 1, 2)) == "2009-W53-6"
  {
    IsoFromNewYear(Midnight(2010, 1, 2), 733407, 2009, 53, 6, "2009-W53-6");
  }

  lemma Iso2010Jan03Vector()
    ensures ValidTimestamp(Midnight(2010, 1, 3)) && Strftime("%G-W%V-%w", Midnight(2010, 1, 3)) == "2009-W53-0"
  {
    IsoFromNewYear(Midnight(2010, 1, 3), 733407, 2009, 53, 0, "2009-W53-0");
  }
}
