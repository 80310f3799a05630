/**
 * Rendering: a plan is folded over a timestamp, each step contributing its
 * text in order. Strftime is the meaning of a format string; the one-shot
 * Format, a compiled Formatter's Format and its FormatTo into a caller's
 * buffer all produce exactly that text.
 */
module Renderer {
  import opened Decimal
  import opened Directives
  import opened Compiler

  /** The text a format string stands for at a timestamp. */
  function Strftime(f: string, t: Timestamp): string
    requires ValidTimestamp(t)
  {
    Render(Scan(f), t)
  }

  /** Concatenation regroups freely. */
  lemma Regroup(a: string, b: string, c: string)
    ensures a + (b + c) == (a + b) + c
  {
    assert forall i :: 0 <= i < |a| + |b| + |c| ==> (a + (b + c))[i] == ((a + b) + c)[i];
  }

  /** Rendering distributes over the concatenation of plans. */
  lemma {:induction false} RenderAppend(a: seq<Step>, b: seq<Step>, t: Timestamp)
    requires ValidTimestamp(t)
    ensures Render(a + b, t) == Render(a, t) + Render(b, t)
  {
    if a == [] {
      assert a + b == b;
    } else {
      var ab := a + b;
      assert ab[0] == a[0] && ab[1..] == a[1..] + b;
      RenderAppend(a[1..], b, t);
      var head, rest, tail := RenderStep(a[0], t), Render(a[1..], t), Render(b, t);
      assert Render(ab, t) == head + (rest + tail);
      assert Render(a, t) == head + rest;
      Regroup(head, rest, tail);
    }
  }

  /** Appending one step to a plan appends that step's text. */
  lemma RenderSnoc(p: seq<Step>, s: Step, t: Timestamp)
    requires ValidTimestamp(t)
    ensures Render(p + [s], t) == Render(p, t) + RenderStep(s, t)
  {
    RenderAppend(p, [s], t);
    RenderOne(s, t);
  }

  /** Text written ahead of a plan's first `i` steps, extended by step `i`. */
  lemma WritePrefix(before: string, plan: seq<Step>, i: nat, t: Timestamp)
    requires ValidTimestamp(t) && i < |plan|
    ensures before + Render(plan[..i + 1], t) == before + Render(plan[..i], t) + RenderStep(plan[i], t)
  {
    assert plan[..i + 1] == plan[..i] + [plan[i]];
    RenderSnoc(plan[..i], plan[i], t);
  }

  /** A one-step plan renders as that step. */
  lemma RenderOne(s: Step, t: Timestamp)
    requires ValidTimestamp(t)
    ensures Render([s], t) == RenderStep(s, t)
  {
    assert Render([s], t) == RenderStep(s, t) + Render([], t);
  }

  /** A literal step in front of a plan contributes its text and nothing else. */
  lemma LiteralCons(x: string, rest: seq<Step>, t: Timestamp)
    requires ValidTimestamp(t)
    ensures Render([Literal(x)] + rest, t) == x + Render(rest, t)
  {
    RenderAppend([Literal(x)], rest, t);
    RenderOne(Literal(x), t);
  }

  /** A literal split into one step per character renders as the literal. */
  lemma {:induction false} RenderChars(s: string, t: Timestamp)
    requires ValidTimestamp(t)
    ensures Render(Chars(s), t) == s
  {
    if s != [] {
      RenderChars(s[1..], t);
      assert Chars(s) == [Literal([s[0]])] + Chars(s[1..]);
      LiteralCons([s[0]], Chars(s[1..]), t);
      assert s == [s[0]] + s[1..];
    }
  }

  /** Gathering literal characters into longer literal steps does not change the text. */
  lemma {:induction false} RenderFlatten(plan: seq<Step>, t: Timestamp)
    requires ValidTimestamp(t)
    ensures Render(Flatten(plan), t) == Render(plan, t)
  {
    if plan != [] {
      var head := if plan[0].Literal? then Chars(plan[0].text) else [plan[0]];
      assert Flatten(plan) == head + Flatten(plan[1..]);
      RenderAppend(head, Flatten(plan[1..]), t);
      RenderFlatten(plan[1..], t);
      if plan[0].Literal? {
        RenderChars(plan[0].text, t);
      } else {
        RenderOne(plan[0], t);
      }
      RenderOne(plan[0], t);
      RenderAppend([plan[0]], plan[1..], t);
      assert plan == [plan[0]] + plan[1..];
    }
  }

  /** A compiled plan renders exactly what its format string stands for. */
  lemma CompiledPlanRenders(f: string, plan: seq<Step>, t: Timestamp)
    requires ValidTimestamp(t) && Flatten(plan) == Scan(f)
    ensures Render(plan, t) == Strftime(f, t)
  {
    RenderFlatten(plan, t);
  }

  /** A byte buffer that is only ever appended to. */
  class Buffer {
    var bytes: string

    constructor()
      ensures bytes == []
    {
      bytes := [];
    }

    method Write(s: string)
      modifies this
      ensures bytes == old(bytes) + s
    {
      bytes := bytes + s;
    }
  }

  /** A format string compiled once, to be rendered for any number of timestamps. */
  class Formatter {
    const plan: seq<Step>
    ghost const format: string

    ghost predicate Valid() {
      Flatten(plan) == Scan(format) && Coalesced(plan)
    }

    /** Compiling a format never fails. */
    constructor(format: string)
      ensures this.format == format && Valid()
    {
      var p := Compile(format);
      plan := p;
      this.format := format;
    }

    /** Appends the rendering of `t` to the caller's buffer, step by step. */
    method FormatTo(buf: Buffer, t: Timestamp)
      requires Valid() && ValidTimestamp(t)
      modifies buf
      ensures buf.bytes == old(buf.bytes) + Strftime(format, t)
    {
      var i := 0;
      while i < |plan|
        invariant 0 <= i <= |plan|
        invariant buf.bytes == old(buf.bytes) + Render(plan[..i], t)
      {
        WritePrefix(old(buf.bytes), plan, i, t);
        buf.Write(RenderStep(plan[i], t));
        i := i + 1;
      }
      assert plan[..|plan|] == plan;
      CompiledPlanRenders(format, plan, t);
    }

    /** The rendering of `t` as a fresh string. */
    method Format(t: Timestamp) returns (s: string)
      requires Valid() && ValidTimestamp(t)
      ensures s == Strftime(format, t)
    {
      var buf := new Buffer();
      FormatTo(buf, t);
      s := buf.bytes;
    }
  }

  /** The one-shot entry point: compile and render in one call. */
  method Format(f: string, t: Timestamp) returns (s: string)
    requires ValidTimestamp(t)
    ensures s == Strftime(f, t)
  {
    var formatter := new Formatter(f);
    s := formatter.Format(t);
  }

  /**
   * The three entry points agree: the one-shot call, a compiled formatter's
   * Format, and its FormatTo into an empty buffer give the same text.
   */
  method EntryPointsAgree(f: string, t: Timestamp) returns (oneShot: string, compiled: string, written: string)
    requires ValidTimestamp(t)
    ensures oneShot == compiled == written == Strftime(f, t)
  {
    oneShot := Format(f, t);
    var formatter := new Formatter(f);
    compiled := formatter.Format(t);
    var buf := new Buffer();
    formatter.FormatTo(buf, t);
    written := buf.bytes;
  }
}
