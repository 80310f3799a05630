/**
 * The format compiler: a format string becomes a plan of literal text and
 * directive steps. Scan is the grammar, one step per token with every
 * literal character on its own; Compile is the left-to-right scanner that
 * gathers neighbouring literal characters into one step.
 */
module Compiler {
  import opened Decimal
  import opened Directives

  /** One literal step per character. */
  function Chars(s: string): (r: seq<Step>)
    ensures |r| == |s|
    ensures forall i :: 0 <= i < |s| ==> r[i] == Literal([s[i]])
  {
    if s == [] then [] else [Literal([s[0]])] + Chars(s[1..])
  }

  /** Every literal step holds exactly one character. */
  predicate Atomic(plan: seq<Step>) {
    forall i :: 0 <= i < |plan| ==> plan[i].Literal? ==> |plan[i].text| == 1
  }

  /**
   * The first token of a non-empty format: the steps it stands for and its
   * length. `%%` is a literal `%`; `%` followed by digits and `n` is the
   * sub-second directive of that width; `%` followed by digits and anything
   * else is the literal `%` and digits, the next character starting
   * afresh; `%` and a directive letter is that directive; `%` and any other
   * character, or a `%` at the very end, is copied as it stands.
   */
  function Token(f: string): (r: (seq<Step>, nat))
    requires f != []
    ensures 1 <= r.1 <= |f|
  {
    if f[0] != '%' then (Chars(f[..1]), 1)
    else if |f| == 1 then (Chars(f), 1)
    else if f[1] == '%' then ([Literal("%")], 2)
    else
      var k := DigitRun(f[1..]);
      assert f[1..1 + k] == f[1..][..k];
      if k > 0 then
        var w := DecimalValue(f[1..1 + k]);
        if 1 + k < |f| && f[1 + k] == 'n' && 1 <= w <= 9 then ([Fraction(w)], 2 + k)
        else (Chars(f[..1 + k]), 1 + k)
      else if IsCode(f[1]) then ([Directive(f[1])], 2)
      else (Chars(f[..2]), 2)
  }

  /** The token grammar: a format is the sequence of its tokens, every literal character a step of its own. */
  function Scan(f: string): (plan: seq<Step>)
    decreases |f|
  {
    if f == [] then [] else Token(f).0 + Scan(f[Token(f).1..])
  }

  /** Scanning from index `i` takes the token there and goes on after it. */
  lemma ScanToken(f: string, i: nat, toks: seq<Step>, next: nat)
    requires i < next <= |f| && Token(f[i..]) == (toks, next - i)
    ensures Scan(f[i..]) == toks + Scan(f[next..])
  {
    assert f[i..][next - i..] == f[next..];
  }

  /** The plan with each literal step split into one step per character. */
  function Flatten(plan: seq<Step>): seq<Step> {
    if plan == [] then []
    else (if plan[0].Literal? then Chars(plan[0].text) else [plan[0]]) + Flatten(plan[1..])
  }

  /** No empty literal step, and no two literal steps side by side. */
  predicate Coalesced(plan: seq<Step>) {
    (forall i :: 0 <= i < |plan| ==> plan[i].Literal? ==> plan[i].text != [])
    && (forall i :: 0 <= i < |plan| - 1 ==> plan[i].Literal? ==> !plan[i + 1].Literal?)
  }

  lemma {:induction false} FlattenAppend(a: seq<Step>, b: seq<Step>)
    ensures Flatten(a + b) == Flatten(a) + Flatten(b)
  {
    if a != [] {
      var head := if a[0].Literal? then Chars(a[0].text) else [a[0]];
      FlattenAppend(a[1..], b);
      assert (a + b)[0] == a[0];
      assert (a + b)[1..] == a[1..] + b;
      assert Flatten(a + b) == head + Flatten(a[1..] + b);
      assert Flatten(a) == head + Flatten(a[1..]);
    } else {
      assert a + b == b;
    }
  }

  lemma CharsAppend(a: string, b: string)
    ensures Chars(a + b) == Chars(a) + Chars(b)
  {
  }

  /** Flattening leaves an atomic plan as it is. */
  lemma {:induction false} FlattenAtomic(plan: seq<Step>)
    requires Atomic(plan)
    ensures Flatten(plan) == plan
  {
    if plan != [] {
      FlattenAtomic(plan[1..]);
      if plan[0].Literal? {
        assert plan[0].text == [plan[0].text[0]];
        assert Chars(plan[0].text) == [plan[0]];
      }
    }
  }

  /** Every token's steps are atomic: literal text is only ever produced one character per step. */
  lemma TokenAtomic(f: string)
    requires f != []
    ensures Atomic(Token(f).0)
  {
  }

  /** The token grammar produces an atomic plan. */
  lemma {:induction false} ScanAtomic(f: string)
    ensures Atomic(Scan(f))
    decreases |f|
  {
    if f != [] {
      var (toks, k) := Token(f);
      TokenAtomic(f);
      ScanAtomic(f[k..]);
      var rest := Scan(f[k..]);
      assert Scan(f) == toks + rest;
      forall i | 0 <= i < |toks + rest| && (toks + rest)[i].Literal?
        ensures |(toks + rest)[i].text| == 1
      {
        if i < |toks| {
          assert (toks + rest)[i] == toks[i];
        } else {
          assert (toks + rest)[i] == rest[i - |toks|];
        }
      }
    }
  }

  /** The grammar's plan is its own flattening, so it is one of the plans Compile may return. */
  lemma ScanFlat(f: string)
    ensures Flatten(Scan(f)) == Scan(f)
  {
    ScanAtomic(f);
    FlattenAtomic(Scan(f));
  }

  /** The pending literal text, if any, closed off as a step. */
  function Flush(plan: seq<Step>, lit: string): seq<Step> {
    if lit == [] then plan else plan + [Literal(lit)]
  }

  lemma FlushFlatten(plan: seq<Step>, lit: string)
    ensures Flatten(Flush(plan, lit)) == Flatten(plan) + Chars(lit)
  {
    if lit != [] {
      FlattenAppend(plan, [Literal(lit)]);
      assert Flatten([Literal(lit)]) == Chars(lit) + Flatten([]);
    }
  }

  lemma DigitRunIs(s: string, k: nat)
    requires k <= |s| && AllDigits(s[..k]) && (k < |s| ==> !IsDigit(s[k]))
    ensures DigitRun(s) == k
    decreases k
  {
    if k > 0 {
      assert s[1..][..k - 1] == s[1..k];
      DigitRunIs(s[1..], k - 1);
    }
  }

  lemma DecimalValueSnoc(s: string, c: char)
    requires AllDigits(s) && IsDigit(c)
    ensures AllDigits(s + [c]) && DecimalValue(s + [c]) == DecimalValue(s) * 10 + DigitValue(c)
  {
    assert (s + [c])[..|s|] == s;
  }

  /** Reads the run of digits of `f` from index `from` on, and its decimal value. */
  method ReadDigitRun(f: string, from: nat) returns (j: nat, w: nat)
    requires from <= |f|
    ensures from <= j <= |f|
    ensures AllDigits(f[from..j]) && (j < |f| ==> !IsDigit(f[j]))
    ensures w == DecimalValue(f[from..j])
  {
    j, w := from, 0;
    while j < |f| && IsDigit(f[j])
      invariant from <= j <= |f|
      invariant AllDigits(f[from..j]) && w == DecimalValue(f[from..j])
    {
      DecimalValueSnoc(f[from..j], f[j]);
      assert f[from..j + 1] == f[from..j] + [f[j]];
      w := w * 10 + DigitValue(f[j]);
      j := j + 1;
    }
  }

  // One lemma per token kind: how Scan takes the token at the head of `s`.

  lemma ScanPlain(s: string)
    requires s != [] && s[0] != '%'
    ensures Scan(s) == Chars([s[0]]) + Scan(s[1..])
  {
    assert s[..1] == [s[0]];
  }

  lemma ScanLonePercent(s: string)
    requires s == "%"
    ensures Scan(s) == Chars("%")
  {
    assert Scan(s) == Token(s).0 + Scan([]);
  }

  lemma ScanEscape(s: string)
    requires |s| >= 2 && s[0] == '%' && s[1] == '%'
    ensures Scan(s) == [Literal("%")] + Scan(s[2..])
  {
  }

  lemma TokenFraction(s: string, k: nat)
    requires 2 + k <= |s| && k > 0 && s[0] == '%' && AllDigits(s[1..1 + k]) && s[1 + k] == 'n'
    requires 1 <= DecimalValue(s[1..1 + k]) <= 9
    ensures Token(s) == ([Fraction(DecimalValue(s[1..1 + k]))], 2 + k)
  {
    assert s[1..][..k] == s[1..1 + k];
    DigitRunIs(s[1..], k);
  }

  lemma ScanFraction(s: string, k: nat)
    requires 2 + k <= |s| && k > 0 && s[0] == '%' && AllDigits(s[1..1 + k]) && s[1 + k] == 'n'
    requires 1 <= DecimalValue(s[1..1 + k]) <= 9
    ensures Scan(s) == [Fraction(DecimalValue(s[1..1 + k]))] + Scan(s[2 + k..])
  {
    TokenFraction(s, k);
  }

  lemma TokenDigitRun(s: string, k: nat)
    requires 1 + k <= |s| && k > 0 && s[0] == '%' && AllDigits(s[1..1 + k])
    requires 1 + k < |s| ==> !IsDigit(s[1 + k])
    requires !(1 + k < |s| && s[1 + k] == 'n' && 1 <= DecimalValue(s[1..1 + k]) <= 9)
    ensures Token(s) == (Chars(s[..1 + k]), 1 + k)
  {
    assert s[1..][..k] == s[1..1 + k];
    DigitRunIs(s[1..], k);
  }

  lemma ScanDigitRun(s: string, k: nat)
    requires 1 + k <= |s| && k > 0 && s[0] == '%' && AllDigits(s[1..1 + k])
    requires 1 + k < |s| ==> !IsDigit(s[1 + k])
    requires !(1 + k < |s| && s[1 + k] == 'n' && 1 <= DecimalValue(s[1..1 + k]) <= 9)
    ensures Scan(s) == Chars(s[..1 + k]) + Scan(s[1 + k..])
  {
    TokenDigitRun(s, k);
  }

  lemma TokenLetter(s: string)
    requires |s| >= 2 && s[0] == '%' && s[1] != '%' && !IsDigit(s[1])
    ensures Token(s) == if IsCode(s[1]) then ([Directive(s[1])], 2) else (Chars(s[..2]), 2)
  {
    DigitRunIs(s[1..], 0);
  }

  lemma ScanLetter(s: string)
    requires |s| >= 2 && s[0] == '%' && s[1] != '%' && !IsDigit(s[1])
    ensures Scan(s) == if IsCode(s[1]) then [Directive(s[1])] + Scan(s[2..]) else Chars(s[..2]) + Scan(s[2..])
  {
    TokenLetter(s);
  }

  /** A coalesced plan that does not end in a literal step, so the pending literal may follow it. */
  predicate Open(plan: seq<Step>) {
    Coalesced(plan) && (plan != [] ==> !plan[|plan| - 1].Literal?)
  }

  /** Moving text from the input into the pending literal keeps the plan's meaning. */
  lemma ExtendLiteral(plan: seq<Step>, lit: string, text: string, tail: seq<Step>, tail': seq<Step>, whole: seq<Step>)
    requires Flatten(plan) + Chars(lit) + tail == whole
    requires tail == Chars(text) + tail'
    ensures Flatten(plan) + Chars(lit + text) + tail' == whole
  {
    CharsAppend(lit, text);
  }

  /** Closing the pending literal and appending a directive step keeps the plan's meaning. */
  lemma PushStep(plan: seq<Step>, lit: string, step: Step, tail: seq<Step>, tail': seq<Step>, whole: seq<Step>)
    requires Flatten(plan) + Chars(lit) + tail == whole
    requires tail == [step] + tail' && !step.Literal?
    ensures Flatten(Flush(plan, lit) + [step]) + Chars([]) + tail' == whole
  {
    FlushFlatten(plan, lit);
    FlattenAppend(Flush(plan, lit), [step]);
    assert Flatten([step]) == [step] + Flatten([]);
  }

  /** Closing the pending literal and appending a directive step keeps the plan open. */
  lemma PushStepOpen(plan: seq<Step>, lit: string, step: Step)
    requires Open(plan) && !step.Literal?
    ensures Open(Flush(plan, lit) + [step])
  {
  }

  /** Closing the pending literal at the end of the input. */
  lemma FinalFlush(plan: seq<Step>, lit: string, whole: seq<Step>)
    requires Flatten(plan) + Chars(lit) == whole
    requires Open(plan)
    ensures Flatten(Flush(plan, lit)) == whole
    ensures Coalesced(Flush(plan, lit))
  {
    FlushFlatten(plan, lit);
  }

  lemma FlattenOne(step: Step)
    ensures Flatten([step]) == if step.Literal? then Chars(step.text) else [step]
  {
    assert Flatten([step]) == (if step.Literal? then Chars(step.text) else [step]) + Flatten([]);
  }

  // The same token lemmas, for the token at index `i` of a format `f`.

  lemma TokenFractionAt(f: string, i: nat, j: nat)
    requires i + 1 < j < |f| && f[i] == '%' && AllDigits(f[i + 1..j]) && f[j] == 'n'
    requires 1 <= DecimalValue(f[i + 1..j]) <= 9
    ensures Token(f[i..]) == ([Fraction(DecimalValue(f[i + 1..j]))], j + 1 - i)
  {
    var s, k := f[i..], j - i - 1;
    assert s[1..1 + k] == f[i + 1..j];
    TokenFraction(s, k);
  }

  lemma TokenDigitRunAt(f: string, i: nat, j: nat)
    requires i + 1 < j <= |f| && f[i] == '%' && AllDigits(f[i + 1..j])
    requires j < |f| ==> !IsDigit(f[j])
    requires !(j < |f| && f[j] == 'n' && 1 <= DecimalValue(f[i + 1..j]) <= 9)
    ensures Token(f[i..]) == (Chars(f[i..j]), j - i)
  {
    var s, k := f[i..], j - i - 1;
    assert s[1..1 + k] == f[i + 1..j] && s[..1 + k] == f[i..j];
    TokenDigitRun(s, k);
  }

  lemma TokenLetterAt(f: string, i: nat)
    requires i + 1 < |f| && f[i] == '%' && f[i + 1] != '%' && !IsDigit(f[i + 1])
    ensures Token(f[i..]) == if IsCode(f[i + 1]) then ([Directive(f[i + 1])], 2) else (Chars(f[i..i + 2]), 2)
  {
    var s := f[i..];
    assert s[..2] == f[i..i + 2];
    TokenLetter(s);
  }

  /** Reads a token that starts with `%` followed by neither `%` nor the end of the format. */
  method PercentToken(f: string, i: nat) returns (step: Step, next: nat)
    requires i + 1 < |f| && f[i] == '%' && f[i + 1] != '%'
    ensures i < next <= |f|
    ensures Token(f[i..]) == (if step.Literal? then Chars(step.text) else [step], next - i)
    ensures step.Literal? ==> step.text != []
  {
    var j, w := ReadDigitRun(f, i + 1);
    if j > i + 1 {
      if j < |f| && f[j] == 'n' && 1 <= w <= 9 {
        TokenFractionAt(f, i, j);
        step, next := Fraction(w), j + 1;
      } else {
        TokenDigitRunAt(f, i, j);
        step, next := Literal(f[i..j]), j;
      }
    } else {
      TokenLetterAt(f, i);
      if IsCode(f[i + 1]) {
        step := Directive(f[i + 1]);
      } else {
        step := Literal(f[i..i + 2]);
      }
      next := i + 2;
    }
  }

  /**
   * Reads the token of `f` that starts at index `i`: a run of literal text,
   * a directive or a sub-second directive, and the index just past it.
   */
  method NextToken(f: string, i: nat) returns (step: Step, next: nat)
    requires i < |f|
    ensures i < next <= |f|
    ensures Token(f[i..]) == (Flatten([step]), next - i)
    ensures step.Literal? ==> step.text != []
  {
    if f[i] != '%' {
      assert f[i..][..1] == [f[i]];
      step, next := Literal([f[i]]), i + 1;
    } else if i + 1 == |f| {
      assert f[i..] == "%";
      step, next := Literal("%"), i + 1;
    } else if f[i + 1] == '%' {
      ScanEscapeToken(f[i..]);
      step, next := Literal("%"), i + 2;
    } else {
      step, next := PercentToken(f, i);
    }
    FlattenOne(step);
  }

  /** `%%` is one literal `%`, the same step whether spelled out or gathered. */
  lemma ScanEscapeToken(s: string)
    requires |s| >= 2 && s[0] == '%' && s[1] == '%'
    ensures Token(s) == ([Literal("%")], 2) && Chars("%") == [Literal("%")]
  {
    assert Chars("%") == [Literal(['%'])] + Chars([]);
  }

  /**
   * Compiles a format string into a plan: the plan says the same as the
   * token grammar, with neighbouring literal characters gathered into one
   * step. Compilation has no failure case.
   */
  method Compile(f: string) returns (plan: seq<Step>)
    ensures Flatten(plan) == Scan(f)
    ensures Coalesced(plan)
  {
    ghost var whole := Scan(f);
    plan := [];
    var lit: string := [];
    var i := 0;
    assert f[0..] == f;
    while i < |f|
      invariant 0 <= i <= |f|
      invariant Flatten(plan) + Chars(lit) + Scan(f[i..]) == whole
      invariant Open(plan)
    {
      var step, next := NextToken(f, i);
      ScanToken(f, i, Flatten([step]), next);
      ghost var tail, tail' := Scan(f[i..]), Scan(f[next..]);
      FlattenOne(step);
      if step.Literal? {
        ExtendLiteral(plan, lit, step.text, tail, tail', whole);
        lit := lit + step.text;
      } else {
        PushStep(plan, lit, step, tail, tail', whole);
        PushStepOpen(plan, lit, step);
        plan := Flush(plan, lit) + [step];
        lit := [];
      }
      i := next;
    }
    assert f[i..] == [] && Scan(f[i..]) == [];
    FinalFlush(plan, lit, whole);
    plan := Flush(plan, lit);
  }
}
