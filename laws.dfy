/**
 * What a format string renders as, token by token: literal text is copied,
 * `%%` is one `%`, a directive letter is its field, `%` and digits before
 * `n` is the truncated fraction of a second, and every other `%` sequence
 * is copied as it stands. Rendering never fails.
 */
module Laws {
  import opened Decimal
  import opened Directives
  import opened Compiler
  import opened Renderer

  /** When the grammar takes `plan` from the head of `s`, the text takes its rendering. */
  lemma StrftimeStep(s: string, plan: seq<Step>, rest: string, t: Timestamp)
    requires ValidTimestamp(t) && Scan(s) == plan + Scan(rest)
    ensures Strftime(s, t) == Render(plan, t) + Strftime(rest, t)
  {
    RenderAppend(plan, Scan(rest), t);
  }

  /** The empty format renders as the empty string. */
  lemma EmptyFormat(t: Timestamp)
    requires ValidTimestamp(t)
    ensures Strftime([], t) == []
  {
    assert Scan([]) == [];
  }

  predicate NoPercent(s: string) {
    '%' !in s
  }

  /** Text without `%` in front of a format is copied unchanged and in order. */
  lemma {:induction false} PlainText(s: string, f: string, t: Timestamp)
    requires ValidTimestamp(t) && NoPercent(s)
    ensures Strftime(s + f, t) == s + Strftime(f, t)
  {
    if s != [] {
      var g := s + f;
      ScanPlain(g);
      assert g[1..] == s[1..] + f;
      StrftimeStep(g, Chars([g[0]]), s[1..] + f, t);
      RenderChars([g[0]], t);
      PlainText(s[1..], f, t);
      assert s == [s[0]] + s[1..];
    } else {
      assert s + f == f;
    }
  }

  /** A format without `%` renders as itself. */
  lemma LiteralFormat(s: string, t: Timestamp)
    requires ValidTimestamp(t) && NoPercent(s)
    ensures Strftime(s, t) == s
  {
    PlainText(s, [], t);
    EmptyFormat(t);
    assert s + [] == s;
  }

  /** `%%` renders as a single `%`. */
  lemma Escape(f: string, t: Timestamp)
    requires ValidTimestamp(t)
    ensures Strftime("%%" + f, t) == "%" + Strftime(f, t)
  {
    var g := "%%" + f;
    ScanEscape(g);
    assert g[2..] == f;
    StrftimeStep(g, [Literal("%")], f, t);
    RenderOne(Literal("%"), t);
  }

  /** A `%` at the very end of a format is copied. */
  lemma TrailingPercent(t: Timestamp)
    requires ValidTimestamp(t)
    ensures Strftime("%", t) == "%"
  {
    ScanLonePercent("%");
    RenderChars("%", t);
  }

  /** A directive letter renders as its field. */
  lemma DirectiveField(c: Code, f: string, t: Timestamp)
    requires ValidTimestamp(t)
    ensures Strftime(['%', c] + f, t) == Field(c, t) + Strftime(f, t)
  {
    var g := ['%', c] + f;
    ScanLetter(g);
    assert g[2..] == f;
    StrftimeStep(g, [Directive(c)], f, t);
    RenderOne(Directive(c), t);
  }

  /** `%` followed by a letter that names no directive is copied as it stands. */
  lemma UnknownDirective(c: char, f: string, t: Timestamp)
    requires ValidTimestamp(t) && c != '%' && !IsDigit(c) && !IsCode(c)
    ensures Strftime(['%', c] + f, t) == ['%', c] + Strftime(f, t)
  {
    var g := ['%', c] + f;
    ScanLetter(g);
    assert g[2..] == f && g[..2] == ['%', c];
    StrftimeStep(g, Chars(['%', c]), f, t);
    RenderChars(['%', c], t);
  }

  /**
   * `%` and digits followed by `n`, the digits reading as a width from 1
   * to 9, renders as that many leading digits of the nanosecond count.
   */
  lemma FractionDirective(ds: string, f: string, t: Timestamp)
    requires ValidTimestamp(t) && ds != [] && AllDigits(ds) && 1 <= DecimalValue(ds) <= 9
    ensures Strftime("%" + ds + "n" + f, t) == FractionDigits(t.nanosecond, DecimalValue(ds)) + Strftime(f, t)
  {
    var g := "%" + ds + "n" + f;
    var k := |ds|;
    assert g[1..1 + k] == ds && g[1 + k] == 'n' && g[2 + k..] == f;
    ScanFraction(g, k);
    var w: Width := DecimalValue(ds);
    StrftimeStep(g, [Fraction(w)], f, t);
    RenderOne(Fraction(w), t);
  }

  /**
   * `%` and digits not followed by `n` (or whose value is no width from 1
   * to 9) is copied as it stands; whatever follows the digits, a letter
   * or another `%`, starts afresh.
   */
  lemma DigitRunPassthrough(ds: string, f: string, t: Timestamp)
    requires ValidTimestamp(t) && ds != [] && AllDigits(ds)
    requires f != [] ==> !IsDigit(f[0])
    requires !(f != [] && f[0] == 'n' && 1 <= DecimalValue(ds) <= 9)
    ensures Strftime("%" + ds + f, t) == "%" + ds + Strftime(f, t)
  {
    var g := "%" + ds + f;
    var k := |ds|;
    assert g[1..1 + k] == ds && g[..1 + k] == "%" + ds && g[1 + k..] == f;
    ScanDigitRun(g, k);
    StrftimeStep(g, Chars("%" + ds), f, t);
    RenderChars("%" + ds, t);
  }

  /** The format text that spells out one step. */
  function SpellStep(s: Step): string {
    match s
    case Literal(text) => text
    case Directive(c) => ['%', c]
    case Fraction(w) => ['%', DigitChar(w), 'n']
  }

  /** The format text that spells out a plan, step after step. */
  function Spell(plan: seq<Step>): string {
    if plan == [] then [] else SpellStep(plan[0]) + Spell(plan[1..])
  }

  /** A plan whose literal texts hold no `%`, so that its spelling reads back as the plan. */
  predicate Spellable(plan: seq<Step>) {
    forall i :: 0 <= i < |plan| ==> SpellableStep(plan[i])
  }

  predicate SpellableStep(s: Step) {
    s.Literal? ==> NoPercent(s.text)
  }

  lemma SpellableRest(plan: seq<Step>)
    requires plan != [] && Spellable(plan)
    ensures SpellableStep(plan[0]) && Spellable(plan[1..])
  {
    var rest := plan[1..];
    forall i | 0 <= i < |rest|
      ensures SpellableStep(rest[i])
    {
      assert rest[i] == plan[i + 1];
    }
  }

  /** The spelling of a step, wherever it appears, renders as the step. */
  lemma SpellStepRenders(s: Step, f: string, t: Timestamp)
    requires ValidTimestamp(t) && SpellableStep(s)
    ensures Strftime(SpellStep(s) + f, t) == RenderStep(s, t) + Strftime(f, t)
  {
    match s
    case Literal(text) =>
      PlainText(text, f, t);
    case Directive(c) =>
      DirectiveField(c, f, t);
    case Fraction(w) =>
      var ds := [DigitChar(w)];
      assert DecimalValue(ds) == DecimalValue([]) * 10 + DigitValue(ds[0]);
      assert SpellStep(s) + f == "%" + ds + "n" + f;
      FractionDirective(ds, f, t);
  }

  /** The spelling of a plan, wherever it appears, renders as the plan. */
  lemma {:induction false} SpellRenders(plan: seq<Step>, f: string, t: Timestamp)
    requires ValidTimestamp(t) && Spellable(plan)
    ensures Strftime(Spell(plan) + f, t) == Render(plan, t) + Strftime(f, t)
  {
    if plan == [] {
      assert Spell(plan) + f == f;
    } else {
      var head, rest := plan[0], plan[1..];
      var tail := Spell(rest) + f;
      SpellableRest(plan);
      SpellRenders(rest, f, t);
      Regroup(SpellStep(head), Spell(rest), f);
      SpellStepRenders(head, tail, t);
      var a, b, c := RenderStep(head, t), Render(rest, t), Strftime(f, t);
      assert Render(plan, t) == a + b;
      Regroup(a, b, c);
    }
  }

  /** The format text a composite directive abbreviates. */
  function Abbreviation(c: char): string
    requires IsComposite(c)
  {
    if c == 'c' then "%a, %d %b %Y %H:%M:%S %Z" else if c == 'x' then "%m/%d/%y" else "%H:%M:%S"
  }

  lemma SpellAt(p: seq<Step>, k: nat)
    requires k < |p|
    ensures Spell(p[k..]) == SpellStep(p[k]) + Spell(p[k + 1..])
  {
    assert p[k..][1..] == p[k + 1..];
  }

  /** Spelling distributes over the concatenation of plans. */
  lemma {:induction false} SpellAppend(a: seq<Step>, b: seq<Step>)
    ensures Spell(a + b) == Spell(a) + Spell(b)
  {
    if a == [] {
      assert a + b == b;
    } else {
      var ab := a + b;
      assert ab[0] == a[0] && ab[1..] == a[1..] + b;
      SpellAppend(a[1..], b);
      Regroup(SpellStep(a[0]), Spell(a[1..]), Spell(b));
    }
  }

  /** The spelling of a five-step plan, step by step. */
  lemma SpellFive(p: seq<Step>)
    requires |p| == 5
    ensures Spell(p) == SpellStep(p[0]) + (SpellStep(p[1]) + (SpellStep(p[2]) + (SpellStep(p[3]) + SpellStep(p[4]))))
  {
    SpellAt(p, 4);
    assert p[5..] == [];
    assert Spell(p[4..]) == SpellStep(p[4]);
    SpellAt(p, 3);
    SpellAt(p, 2);
    SpellAt(p, 1);
    SpellAt(p, 0);
    assert p[0..] == p;
  }

  /** The spelling of a fifteen-step plan, five steps at a time. */
  lemma SpellThirds(p: seq<Step>)
    requires |p| == 15
    ensures Spell(p) == Spell(p[..5]) + (Spell(p[5..10]) + Spell(p[10..]))
  {
    assert p == p[..5] + (p[5..10] + p[10..]);
    SpellAppend(p[..5], p[5..10] + p[10..]);
    SpellAppend(p[5..10], p[10..]);
  }

  lemma DateTimeHead()
    ensures Spell(DateTimePlan[..5]) == "%a, %d %b"
  {
    SpellFive(DateTimePlan[..5]);
  }

  lemma DateTimeMiddle()
    ensures Spell(DateTimePlan[5..10]) == " %Y %H:"
  {
    SpellFive(DateTimePlan[5..10]);
  }

  lemma DateTimeTail()
    ensures Spell(DateTimePlan[10..]) == "%M:%S %Z"
  {
    SpellFive(DateTimePlan[10..]);
  }

  lemma DateTimeSpelling()
    ensures Spellable(DateTimePlan) && Spell(DateTimePlan) == "%a, %d %b %Y %H:%M:%S %Z"
  {
    DateTimeSpellable();
    SpellThirds(DateTimePlan);
    DateTimeHead();
    DateTimeMiddle();
    DateTimeTail();
    DateTimeJoin(Spell(DateTimePlan[..5]), Spell(DateTimePlan[5..10]), Spell(DateTimePlan[10..]));
  }

  lemma DateTimeSpellable()
    ensures Spellable(DateTimePlan)
  {
  }

  lemma DateTimeJoin(a: string, b: string, c: string)
    requires a == "%a, %d %b" && b == " %Y %H:" && c == "%M:%S %Z"
    ensures a + (b + c) == "%a, %d %b %Y %H:%M:%S %Z"
  {
  }

  lemma DateSpelling()
    ensures Spellable(DatePlan) && Spell(DatePlan) == "%m/%d/%y"
  {
    SpellFive(DatePlan);
  }

  lemma TimeSpelling()
    ensures Spellable(TimePlan) && Spell(TimePlan) == "%H:%M:%S"
  {
    SpellFive(TimePlan);
  }

  /** Each composite's plan is spelled by its abbreviation. */
  lemma CompositionSpelling(c: char)
    requires IsComposite(c)
    ensures Spellable(Composition(c)) && Spell(Composition(c)) == Abbreviation(c)
  {
    if c == 'c' {
      DateTimeSpelling();
    } else if c == 'x' {
      DateSpelling();
    } else {
      TimeSpelling();
    }
  }

  /**
   * Wherever it appears, a composite directive renders as the format it
   * abbreviates would: %c as %a, %d %b %Y %H:%M:%S %Z, %x as %m/%d/%y and
   * %X as %H:%M:%S.
   */
  lemma CompositeExpands(c: Code, f: string, t: Timestamp)
    requires ValidTimestamp(t) && IsComposite(c)
    ensures Strftime(['%', c] + f, t) == Strftime(Abbreviation(c) + f, t)
  {
    CompositionSpelling(c);
    SpellRenders(Composition(c), f, t);
    DirectiveField(c, f, t);
    assert Field(c, t) == Render(Composition(c), t);
  }
}
