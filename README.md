# strftime for Go, modelled in Dafny

This project models the go-strftime formatter. The formatter renders a
timestamp as text from a C-style `strftime` format string. It has three
entry points:

- `Format(format, t)` renders in one call;
- `NewFormatter(format)` compiles a format once;
- `Formatter.Format(t)` and `Formatter.FormatTo(buf, t)` render a
  compiled format, the second by appending to a caller's byte buffer.

The behaviour is the one fixed by the repository's tests (`strftime_test.go`),
which pin every directive against reference vectors. The model has five parts:

- `Decimal` (decimal.dfy): zero-padded decimal rendering, digit runs and
  their values, with round-trip, width, truncated-prefix and last-two-digit
  facts.
- `Calendar` (calendar.dfy): proleptic Gregorian arithmetic. It covers
  the day of the year, the weekday, and the simple week numbers %U and %W
  of section 7.23.3.5 of ISO/IEC 9899:1999. It also covers the ISO 8601
  week date behind %G and %V, computed as (ordinal - ISO weekday + 10) / 7
  with roll-back and roll-forward. The ISO week date is proved against an
  independent reference: ISO year Y starts on the Monday of the week that
  holds January 4th.
- `Directives` (directives.dfy): the timestamp record, the fixed name
  tables and the field rule of each directive letter. It also holds the
  plan step (`Literal`, `Directive`, `Fraction`) and the fold `Render` of a
  plan over a timestamp. %c, %x and %X render the plans they abbreviate.
- `Compiler` (compiler.dfy): the format grammar `Scan`, one token at a
  time, and the compiler `Compile`. `Compile` is a left-to-right loop with
  a pending-literal buffer and a digit-run lookahead. It is proved to
  produce a plan that says the same as the grammar, with neighbouring
  literal characters gathered.
- `Renderer` (renderer.dfy): `Strftime(f, t)`, the rendering of a format;
  an append-only `Buffer`; and the `Formatter` class, with `FormatTo`
  appending one step at a time. It also has the one-shot `Format` and
  the proof that all entry points agree.

Two further modules state the formatter's laws. `Laws` (laws.dfy) holds the
laws for every continuation of a format: escapes, digit runs, unknown
directives, literal text, fractions and composite directives.
`TestVectors` (testvectors.dfy) holds the test table of the repository as
lemmas.

Grammar of a format, as the tests fix it:

- `%%` is one `%`.
- `%` followed by digits and `n` is the sub-second directive. The digits
  must read as a width from 1 to 9. It renders the first N of the nine
  nanosecond digits, truncated.
- `%` followed by digits and anything else is copied as `%` and the
  digits. This holds even before a directive letter. The next character
  starts afresh, so a `%` there begins a new directive.
- `%` followed by a directive letter is that directive's field.
- `%` followed by any other character is copied as it stands.
- Compilation and rendering never fail.

## Model

| member | source | states |
|---|---|---|
| Decimal.Pad | strftime_test.go:20-38 | the number in decimal, zero-padded on the left to at least `w` digits (%d %H %M %S %m %y %Y %j %U %W %V %G %w and the fraction); its width and read-back are stated by PadShape and PadRoundTrip |
| Decimal.DigitRun | strftime_test.go:42-44 | the length of the run of digits at the head of a string: everything before it is a digit and the character after it is not |
| Decimal.PadShape | strftime_test.go:20-38 | zero padding yields digits only, at least `w` of them, and exactly `w` when the number fits in `w` digits |
| Decimal.PadRoundTrip | strftime_test.go:20-38 | reading a padded number back gives the number: padding adds only leading zeros |
| Decimal.PadPrefix | strftime_test.go:36-38 | the first `k` of `w` padded digits are the number with its last `w - k` digits cut off (truncation, not rounding) |
| Decimal.LastTwoDigits | strftime_test.go:33-34 | the last two characters of a number padded to two or more digits are its value modulo 100 padded to two digits |
| Calendar.DaysBeforeMonth | strftime_test.go:23 | the days of the year before the first of a month, from the month table plus one after February in a leap year; DaysBeforeMonthIsSum proves it against adding up month lengths |
| Calendar.Ordinal | strftime_test.go:23 | the day of the year lies in 1 .. the length of the year |
| Calendar.DayNumber | strftime_test.go:15-35 | days since 0001-01-01 (day 0) of a date in the proleptic Gregorian calendar; DayNumberNext proves consecutive dates get consecutive numbers |
| Calendar.Weekday | strftime_test.go:29 | the weekday 0 (Sunday) .. 6 (Saturday) that %w renders and %a %A name, from the day number (day 0 is a Monday); DayNumberNext proves it advances by one each day |
| Calendar.IsoWeekday | strftime_test.go:116-131 | the ISO weekday 1 (Monday) .. 7 (Sunday) used by the ISO week formula; IsoWeekdayOfDayNumber ties it to the day number |
| Calendar.DaysBeforeMonthIsSum | strftime_test.go:23 | the month table agrees with adding up month lengths one by one, and the twelve months make up the year |
| Calendar.DaysBeforeYearStep | strftime_test.go:116-131 | January 1st of the next year is as many days on as the year is long |
| Calendar.DayNumberNext | strftime_test.go:29 | the calendar day after a valid date is valid, has the next day number, and the next weekday |
| Calendar.WeekdayFromNewYear | strftime_test.go:109-114 | a date's weekday is January 1st's weekday moved on by the days since |
| Calendar.NewYearWeekdayStep | strftime_test.go:116-131 | January 1st's weekday moves on by the length of the year before |
| Calendar.SundayWeek | strftime_test.go:109-115 | %U as (yday + 7 - wday) / 7 with 0-based yday and wday 0 for Sunday (the vector at line 28 and the boundary rows); SundayWeekCountsSundays proves it counts Sundays |
| Calendar.MondayWeek | strftime_test.go:109-115 | %W as (yday + 7 - (wday + 6) % 7) / 7 (the vector at line 30 and the boundary rows); MondayWeekCountsMondays proves it counts Mondays |
| Calendar.WeekFormulaCountsAnchors | strftime_test.go:28-30 | the simple week formula (yday + 7 - offset) / 7 equals the number of days with the anchor weekday among the first k days of the year |
| Calendar.SundayWeekCountsSundays | strftime_test.go:109-115 | %U equals the number of Sundays from January 1st up to and including the date |
| Calendar.MondayWeekCountsMondays | strftime_test.go:109-115 | %W equals the number of Mondays from January 1st up to and including the date |
| Calendar.WeeksInYear | strftime_test.go:116-131 | 53 when January 1st is a Thursday, or a Wednesday in a leap year, otherwise 52; IsoYearLength proves it is the length of the ISO year in weeks |
| Calendar.RawIsoWeek | strftime_test.go:116-131 | the unadjusted ISO week (ordinal - ISO weekday + 10) / 7; RawIsoWeekFromStart proves it counts weeks from the Monday of the week holding January 4th |
| Calendar.IsoWeek | strftime_test.go:116-131 | the ISO year and week behind %G and %V: a raw week 0 rolls back to the last week of the year before, a raw week beyond WeeksInYear rolls forward to week 1 of the next year; IsoWeekMatchesReference and IsoWeekBounds state what it means |
| Calendar.IsoWeekdayOfDayNumber | strftime_test.go:116-131 | the ISO weekday is the day number modulo 7, plus one |
| Calendar.RawIsoWeekFromStart | strftime_test.go:116-131 | the raw week is the whole weeks since the ISO start of the calendar year, plus one |
| Calendar.IsoYearStartShape | strftime_test.go:116-131 | an ISO year starts on a Monday within three days of January 1st |
| Calendar.IsoYearLength | strftime_test.go:116-131 | ISO year `y` is exactly WeeksInYear(y) weeks long (53 when January 1st is a Thursday, or a Wednesday in a leap year) |
| Calendar.IsoWeekMatchesReference | strftime_test.go:116-131 | the ISO week from (ordinal - ISO weekday + 10) / 7 with roll-back and roll-forward agrees with the reference: the ISO year holds the day, and the week counts whole weeks from the Monday of the week holding January 4th |
| Calendar.IsoYearStartIncreasing | strftime_test.go:116-131 | ISO years start in increasing order |
| Calendar.IsoYearUnique | strftime_test.go:116-131 | every day lies in exactly one ISO year |
| Calendar.IsoWeekRange | strftime_test.go:116-131 | %V lies within the weeks of its ISO year |
| Calendar.IsoYearEarlier | strftime_test.go:116-117 | %G is the year before only for a date among the first three days of January |
| Calendar.IsoYearLater | strftime_test.go:121-126 | %G is the year after only for a date among the last three days of December |
| Calendar.IsoWeekBounds | strftime_test.go:116-131 | %V lies in 1 .. 53 within its ISO year's weeks, and %G is the calendar year, the year before (early January only) or the year after (late December only) |
| Directives.Hour12 | strftime_test.go:22 | the hour on the 12-hour clock, 12 for hours 0 and 12; ClockRoundTrip proves it lies in 1 .. 12 and with %p gives the hour back |
| Directives.IsPM | strftime_test.go:26 | the afternoon half of the day, from hour 12 on, which %p renders as PM |
| Directives.ClockRoundTrip | strftime_test.go:22-26 | the 12-hour hour lies in 1 .. 12, and with the AM/PM marker gives the 24-hour hour back |
| Directives.FractionDigits | strftime_test.go:36-38 | %Nn is exactly N digits: the nanosecond count truncated to its first N of nine digits |
| Directives.Composition | strftime_test.go:19 | the plan %c, %x and %X stand for: DateTimePlan (weekday, day, month, year, time, zone), DatePlan (month/day/two-digit year) and TimePlan (hours:minutes:seconds); CompositionSpelling proves them equal to the abbreviations "%a, %d %b %Y %H:%M:%S %Z", "%m/%d/%y" and "%H:%M:%S" |
| Directives.Field | strftime_test.go:15-35 | the directive table: the text each directive letter renders for a timestamp (names from fixed tables, zero-padded numbers, the ISO and simple week numbers, the zone, and %c %x %X through their plans); the field lemmas below and the vectors state what each renders |
| Directives.RenderStep | strftime_test.go:15-48 | the text one plan step contributes: a literal's text, a directive's field, or the fraction digits of its width |
| Directives.Render | strftime_test.go:46 | the renderer's fold: the steps' texts concatenated in plan order; RenderAppend, RenderFlatten and CompiledPlanRenders state its laws |
| Directives.PadFits | strftime_test.go:20-27 | a number that fits in `w` digits renders as exactly `w` digits that read back as the number |
| Directives.ClockFields | strftime_test.go:21-27 | %H %M %S %I render two digits that read back as hour, minute, second and 12-hour hour; %p is AM before noon and PM after; %I with %p gives the hour back |
| Directives.DayFields | strftime_test.go:20-24 | %d %m %j render two, two and three digits that read back as day, month and day of year |
| Directives.YearFields | strftime_test.go:33-34 | %Y reads back as the year with at least four digits, and %y is its last two characters |
| Directives.SimpleWeekFields | strftime_test.go:28-30 | %w reads back as the weekday, %U and %W (two digits) as the number of Sundays and Mondays so far this year |
| Directives.IsoWeekFields | strftime_test.go:116-131 | %G reads back as the ISO year holding the day, %V as the two-digit week of that ISO year the day falls in |
| Compiler.Chars | strftime_test.go:46 | one literal step per character, in order |
| Compiler.Token | strftime_test.go:40-48 | the first token of a format: `%%`, `%` with digits and `n` of width 1 .. 9, `%` with other digits (copied), `%` with a directive letter, or any other character (copied); it takes at least one and at most all characters, and the Scan lemmas state each rule |
| Compiler.Scan | strftime_test.go:40-48 | the format grammar: the format's tokens in order; Compile is proved to produce a plan that flattens to it |
| Compiler.ScanToken | strftime_test.go:40-48 | scanning from an index takes the token there and continues after it |
| Compiler.FlattenAppend | strftime_test.go:46 | splitting literals into characters commutes with joining plans |
| Compiler.ScanAtomic | strftime_test.go:40-48 | the grammar produces literal text one character per step |
| Compiler.ScanFlat | strftime_test.go:40-48 | the grammar's plan is its own flattening, so it is itself a plan Compile could return, uncoalesced |
| Compiler.ReadDigitRun | strftime_test.go:42-44 | the loop reads the maximal run of digits after `%` and its decimal value |
| Compiler.ScanPlain | strftime_test.go:46 | a character other than `%` is a literal step of its own |
| Compiler.ScanLonePercent | strftime_test.go:40-48 | a `%` at the very end of a format is a literal `%` |
| Compiler.ScanEscape | strftime_test.go:41-42 | `%%` is one literal `%` |
| Compiler.ScanFraction | strftime_test.go:43-44 | `%`, digits reading 1 .. 9 and `n` is the sub-second directive of that width |
| Compiler.ScanDigitRun | strftime_test.go:42-44 | `%` and digits not followed by such an `n` is literal `%` and digits, and the next character starts afresh |
| Compiler.ScanLetter | strftime_test.go:60-66 | `%` and a directive letter is that directive; `%` and any other character is copied |
| Compiler.PercentToken | strftime_test.go:41-44 | reads a `%` token with the digit-run lookahead and returns the step the grammar gives |
| Compiler.NextToken | strftime_test.go:40-48 | reads the token at an index and returns the step the grammar gives and the index past it |
| Compiler.Compile | strftime_test.go:40-48 | compilation never fails; the plan says the same as the token grammar, with no empty literal and no two literals side by side |
| Renderer.Strftime | strftime_test.go:51-57 | the text a format renders for a timestamp: the grammar's plan rendered; the Laws and vectors state what it gives |
| Renderer.RenderAppend | strftime_test.go:46 | rendering a joined plan joins the renderings, in order |
| Renderer.RenderSnoc | strftime_test.go:75-79 | one more step at the end of a plan appends its text |
| Renderer.RenderChars | strftime_test.go:46 | a literal split into one step per character renders as the literal |
| Renderer.RenderFlatten | strftime_test.go:68-74 | gathering literal characters into longer steps does not change the text |
| Renderer.CompiledPlanRenders | strftime_test.go:68-74 | a compiled plan renders exactly what its format string stands for |
| Renderer.Buffer.constructor | strftime_test.go:75 | a new buffer is empty |
| Renderer.Buffer.Write | strftime_test.go:75-77 | appending to the buffer keeps what it held and adds the text at the end |
| Renderer.Formatter.constructor | strftime_test.go:70 | NewFormatter never fails and keeps a plan that agrees with the grammar |
| Renderer.Formatter.FormatTo | strftime_test.go:75-79 | appends to the caller's buffer exactly the one-shot rendering of the format, keeping what the buffer held |
| Renderer.Formatter.Format | strftime_test.go:70-74 | a compiled formatter renders as the one-shot call |
| Renderer.Format | strftime_test.go:51-57 | the one-shot call renders the format |
| Renderer.EntryPointsAgree | strftime_test.go:68-81 | the one-shot call, a compiled formatter's Format and its FormatTo into an empty buffer give the same text |
| Laws.StrftimeStep | strftime_test.go:46 | when the grammar takes a plan from the head of a format, the text takes its rendering |
| Laws.EmptyFormat | strftime_test.go:48 | the empty format renders as the empty string |
| Laws.PlainText | strftime_test.go:46 | text without `%` at the head of a format is copied unchanged and in order |
| Laws.LiteralFormat | strftime_test.go:46-48 | a format without `%` renders as itself |
| Laws.Escape | strftime_test.go:41-42 | `%%` renders as one `%`, for every continuation |
| Laws.TrailingPercent | strftime_test.go:40-48 | a lone `%` at the end is copied |
| Laws.DirectiveField | strftime_test.go:15-35 | a directive letter renders as its field, for every continuation |
| Laws.UnknownDirective | strftime_test.go:60-66 | `%` and a character that is not `%`, a digit or a directive letter is copied as it stands, for every continuation |
| Laws.FractionDirective | strftime_test.go:36-38 | `%`, digits reading 1 .. 9 and `n` renders as that many leading digits of the nanosecond count |
| Laws.DigitRunPassthrough | strftime_test.go:42-44 | `%` and digits not followed by a width's `n` are copied, and what follows starts afresh |
| Laws.SpellRenders | strftime_test.go:19 | a plan written back out as format text renders as the plan |
| Laws.CompositionSpelling | strftime_test.go:31-32 | %c, %x and %X are the plans of their abbreviations "%a, %d %b %Y %H:%M:%S %Z", "%m/%d/%y" and "%H:%M:%S" |
| Laws.CompositeExpands | strftime_test.go:19 | %c, %x and %X render as their abbreviations, for every continuation |
| TestVectors.RefValid | strftime_test.go:13 | the reference time 2009-11-08 23:01:02.000000003 UTC is a valid timestamp |
| TestVectors.Single | strftime_test.go:15-35 | a one-directive format renders as that directive's field |
| TestVectors.TextStep | strftime_test.go:46 | text without `%` followed by a format renders as the text and the format's rendering |
| TestVectors.FieldStep | strftime_test.go:46 | a directive followed by a format renders as the field and the format's rendering |
| TestVectors.SingleStep | strftime_test.go:15-35 | a one-directive format renders as the directive's field |
| TestVectors.EscapeStep | strftime_test.go:41-42 | `%%` followed by a format renders as `%` and the format's rendering |
| TestVectors.DigitStep | strftime_test.go:42-44 | `%` and one digit followed by neither a digit nor `n` are copied |
| TestVectors.WeekdayField | strftime_test.go:15 | field `a` of the reference time is "Sun" |
| TestVectors.WeekdayVector | strftime_test.go:15 | `%a` renders the reference time as "Sun" |
| TestVectors.WeekdayNameField | strftime_test.go:16 | field `A` of the reference time is "Sunday" |
| TestVectors.WeekdayNameVector | strftime_test.go:16 | `%A` renders the reference time as "Sunday" |
| TestVectors.MonthField | strftime_test.go:17 | field `b` of the reference time is "Nov" |
| TestVectors.MonthVector | strftime_test.go:17 | `%b` renders the reference time as "Nov" |
| TestVectors.MonthNameField | strftime_test.go:18 | field `B` of the reference time is "November" |
| TestVectors.MonthNameVector | strftime_test.go:18 | `%B` renders the reference time as "November" |
| TestVectors.DayField | strftime_test.go:20 | field `d` of the reference time is "08" |
| TestVectors.DayVector | strftime_test.go:20 | `%d` renders the reference time as "08" |
| TestVectors.HourField | strftime_test.go:21 | field `H` of the reference time is "23" |
| TestVectors.HourVector | strftime_test.go:21 | `%H` renders the reference time as "23" |
| TestVectors.Hour12Field | strftime_test.go:22 | field `I` of the reference time is "11" |
| TestVectors.Hour12Vector | strftime_test.go:22 | `%I` renders the reference time as "11" |
| TestVectors.DayOfYearField | strftime_test.go:23 | field `j` of the reference time is "312" |
| TestVectors.DayOfYearVector | strftime_test.go:23 | `%j` renders the reference time as "312" |
| TestVectors.MonthNumberField | strftime_test.go:24 | field `m` of the reference time is "11" |
| TestVectors.MonthNumberVector | strftime_test.go:24 | `%m` renders the reference time as "11" |
| TestVectors.MinuteField | strftime_test.go:25 | field `M` of the reference time is "01" |
| TestVectors.MinuteVector | strftime_test.go:25 | `%M` renders the reference time as "01" |
| TestVectors.MeridiemField | strftime_test.go:26 | field `p` of the reference time is "PM" |
| TestVectors.MeridiemVector | strftime_test.go:26 | `%p` renders the reference time as "PM" |
| TestVectors.SecondField | strftime_test.go:27 | field `S` of the reference time is "02" |
| TestVectors.SecondVector | strftime_test.go:27 | `%S` renders the reference time as "02" |
| TestVectors.SundayWeekField | strftime_test.go:28 | field `U` of the reference time is "45" |
| TestVectors.SundayWeekVector | strftime_test.go:28 | `%U` renders the reference time as "45" |
| TestVectors.WeekdayNumberField | strftime_test.go:29 | field `w` of the reference time is "0" |
| TestVectors.WeekdayNumberVector | strftime_test.go:29 | `%w` renders the reference time as "0" |
| TestVectors.MondayWeekField | strftime_test.go:30 | field `W` of the reference time is "44" |
| TestVectors.MondayWeekVector | strftime_test.go:30 | `%W` renders the reference time as "44" |
| TestVectors.ShortDateField | strftime_test.go:31 | field `x` of the reference time is "11/08/09" |
| TestVectors.ShortDateVector | strftime_test.go:31 | `%x` renders the reference time as "11/08/09" |
| TestVectors.TimeOfDayField | strftime_test.go:32 | field `X` of the reference time is "23:01:02" |
| TestVectors.TimeOfDayVector | strftime_test.go:32 | `%X` renders the reference time as "23:01:02" |
| TestVectors.ShortYearField | strftime_test.go:33 | field `y` of the reference time is "09" |
| TestVectors.ShortYearVector | strftime_test.go:33 | `%y` renders the reference time as "09" |
| TestVectors.YearField | strftime_test.go:34 | field `Y` of the reference time is "2009" |
| TestVectors.YearVector | strftime_test.go:34 | `%Y` renders the reference time as "2009" |
| TestVectors.ZoneField | strftime_test.go:35 | field `Z` of the reference time is "UTC" |
| TestVectors.ZoneVector | strftime_test.go:35 | `%Z` renders the reference time as "UTC" |
| TestVectors.DateTimeField | strftime_test.go:19 | field `c` of the reference time is "Sun, 08 Nov 2009 23:01:02 UTC" |
| TestVectors.DateTimeHeadVector | strftime_test.go:19 | the first five steps of %c render the reference time as "Sun, 08 Nov" |
| TestVectors.DateTimeMiddleVector | strftime_test.go:19 | the middle five steps of %c render " 2009 23:" |
| TestVectors.DateTimeTailVector | strftime_test.go:19 | the last five steps of %c render "01:02 UTC" |
| TestVectors.DateTimeVector | strftime_test.go:19 | `%c` renders the reference time as "Sun, 08 Nov 2009 23:01:02 UTC" |
| TestVectors.FractionAlone | strftime_test.go:36-38 | `%Nn` alone renders the first N digits of the nanoseconds |
| TestVectors.FractionOf | strftime_test.go:36-38 | the first `w` fraction digits are the nanoseconds divided by 10^(9-w), padded to `w` |
| TestVectors.Fraction3Digits | strftime_test.go:36 | 3 ns truncated to three digits is "000" |
| TestVectors.Fraction6Digits | strftime_test.go:37 | 3 ns truncated to six digits is "000000" |
| TestVectors.Fraction9Digits | strftime_test.go:38 | 3 ns in nine digits is "000000003" |
| TestVectors.Fraction3Vector | strftime_test.go:36 | `%3n` renders the reference time as "000" |
| TestVectors.Fraction6Vector | strftime_test.go:37 | `%6n` renders "000000" |
| TestVectors.Fraction9Vector | strftime_test.go:38 | `%9n` renders "000000003" |
| TestVectors.EscapeVector | strftime_test.go:41-42 | `%%` renders "%" |
| TestVectors.EscapeYearVector | strftime_test.go:41 | `%%%Y` renders "%2009" |
| TestVectors.DigitsThenEscapeVector | strftime_test.go:42 | `%3%%` renders "%3%" |
| TestVectors.DigitsThenFractionVector | strftime_test.go:43 | `%3%3n` renders "%3000" |
| TestVectors.LettersThenFraction | strftime_test.go:44 | `xy%3n` renders "xy000" |
| TestVectors.DigitsBeforeLetterVector | strftime_test.go:44 | `%3xy%3n` renders "%3xy000": the digit run is copied even before the letter x |
| TestVectors.EmbeddedReport | strftime_test.go:46 | `/report` renders as itself |
| TestVectors.EmbeddedFromMonth | strftime_test.go:46 | `%m/report` renders "11/report" |
| TestVectors.EmbeddedFromSlash | strftime_test.go:46 | `/%m/report` renders "/11/report" |
| TestVectors.EmbeddedFromYear | strftime_test.go:46 | `%Y/%m/report` renders "2009/11/report" |
| TestVectors.EmbeddedVector | strftime_test.go:46 | `/path/%Y/%m/report` renders "/path/2009/11/report" |
| TestVectors.EmptyVector | strftime_test.go:48 | the empty format renders "" |
| TestVectors.UnknownVector | strftime_test.go:60-66 | `%g` renders as itself |
| TestVectors.JanuarySundayField | strftime_test.go:109-114 | %U of a January day is "0" and the digit (d + 6 - weekday) / 7 |
| TestVectors.JanuaryMondayField | strftime_test.go:109-114 | %W of a January day is "0" and the digit (d + 6 - (weekday + 6) % 7) / 7 |
| TestVectors.JanuarySundayWeek | strftime_test.go:109-114 | %U of a January day is below ten and given by its day and weekday |
| TestVectors.JanuaryMondayWeek | strftime_test.go:109-114 | %W of a January day is below ten and given by its day and weekday |
| TestVectors.JanuaryWeekNumbers | strftime_test.go:109-114 | `%U` and `%W` render January days from their day and weekday |
| TestVectors.NewYear2009 | strftime_test.go:103 | January 1st 2009 is a Thursday |
| TestVectors.January2009 | strftime_test.go:103-105 | the weekday of January d, 2009 is (d + 3) % 7 |
| TestVectors.FirstDayVector | strftime_test.go:109-110 | on 2009-01-01 %W and %U are "00" |
| TestVectors.FirstSundayVector | strftime_test.go:111-112 | on 2009-01-04 %W is "00" and %U is "01" |
| TestVectors.FirstMondayVector | strftime_test.go:113-114 | on 2009-01-05 %W and %U are "01" |
| TestVectors.Jan2016Fields | strftime_test.go:115 | on 2016-01-23 %U is "03" and %Y is "2016" |
| TestVectors.YearWeekVector | strftime_test.go:115 | `%Yw%U` renders 2016-01-23 as "2016w03" |
| TestVectors.IsoPieces | strftime_test.go:116-131 | `%G-W%V-%w` renders as the %G field, "-W", the %V field, "-" and the %w field |
| TestVectors.IsoFields | strftime_test.go:116-131 | %G, %V and %w are the ISO year, ISO week and weekday, padded to 4, 2 and 1 |
| TestVectors.IsoFormat | strftime_test.go:116-131 | `%G-W%V-%w` renders the padded ISO year, week and weekday |
| TestVectors.IsoWeekOf | strftime_test.go:116-131 | the ISO week date from the ordinal, weekday and week counts of the year and the year before |
| TestVectors.IsoRendering | strftime_test.go:116-131 | `%G-W%V-%w` from the ordinal, weekday and week counts |
| TestVectors.IsoFromNewYear | strftime_test.go:116-131 | `%G-W%V-%w` from the day count before the year before |
| TestVectors.Iso2005Jan01Vector | strftime_test.go:116 | `%G-W%V-%w` renders 2005-01-01 as "2004-W53-6" |
| TestVectors.Iso2005Jan02Vector | strftime_test.go:117 | `%G-W%V-%w` renders 2005-01-02 as "2004-W53-0" |
| TestVectors.Iso2005Dec31Vector | strftime_test.go:118 | `%G-W%V-%w` renders 2005-12-31 as "2005-W52-6" |
| TestVectors.Iso2007Jan01Vector | strftime_test.go:119 | `%G-W%V-%w` renders 2007-01-01 as "2007-W01-1" |
| TestVectors.Iso2007Dec30Vector | strftime_test.go:120 | `%G-W%V-%w` renders 2007-12-30 as "2007-W52-0" |
| TestVectors.Iso2007Dec31Vector | strftime_test.go:121 | `%G-W%V-%w` renders 2007-12-31 as "2008-W01-1" |
| TestVectors.Iso2008Jan01Vector | strftime_test.go:122 | `%G-W%V-%w` renders 2008-01-01 as "2008-W01-2" |
| TestVectors.Iso2008Dec28Vector | strftime_test.go:123 | `%G-W%V-%w` renders 2008-12-28 as "2008-W52-0" |
| TestVectors.Iso2008Dec29Vector | strftime_test.go:124 | `%G-W%V-%w` renders 2008-12-29 as "2009-W01-1" |
| TestVectors.Iso2008Dec30Vector | strftime_test.go:125 | `%G-W%V-%w` renders 2008-12-30 as "2009-W01-2" |
| TestVectors.Iso2008Dec31Vector | strftime_test.go:126 | `%G-W%V-%w` renders 2008-12-31 as "2009-W01-3" |
| TestVectors.Iso2009Jan01Vector | strftime_test.go:127 | `%G-W%V-%w` renders 2009-01-01 as "2009-W01-4" |
| TestVectors.Iso2009Dec31Vector | strftime_test.go:128 | `%G-W%V-%w` renders 2009-12-31 as "2009-W53-4" |
| TestVectors.Iso2010Jan01Vector | strftime_test.go:129 | `%G-W%V-%w` renders 2010-01-01 as "2009-W53-5" |
| TestVectors.Iso2010Jan02Vector | strftime_test.go:130 | `%G-W%V-%w` renders 2010-01-02 as "2009-W53-6" |
| TestVectors.Iso2010Jan03Vector | strftime_test.go:131 | `%G-W%V-%w` renders 2010-01-03 as "2009-W53-0" |

## Left out

- Go's `time.Time` is not modelled: conversion from an instant, time zones and the location database. A timestamp is a record of year, month, day, hour, minute, second, nanosecond and zone abbreviation, already normalised. `ValidTimestamp` asks for year 1 or later, so Go's rendering of years before 1 is not modelled.
- Weekday and month names are fixed English tables; no locale logic.
- `bytes.Buffer` and `io.Writer` are modelled as the `Buffer` class, whose `bytes` field is a `string` that is only appended to. Byte encoding is not modelled: text is a sequence of characters.
- The tests do not fix a bare `%n`, a width of 0 or above 9, or a lone `%` at the end of a format. The model copies these through as literal text. No lemma claims more about them than that.
- The tests also do not fix a zero-padded width such as `%03n` or `%009n`. The model reads the digits by value, so these render as `%3n` and `%9n` do; this is a choice, not something the tests pin down.
- Concurrent reuse of a compiled `Formatter` is not modelled: the plan is an immutable `const`.
- The Go test functions themselves (`t.Fatalf`, loops over the tables) are not modelled. Each table row is a lemma instead.
- The `Formatter`'s format string is a ghost field. The running program keeps only the compiled plan.
