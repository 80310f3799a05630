/**
 * Decimal digits: zero-padded rendering of natural numbers, the value of a
 * digit run, and the facts the directives rely on (width, round trip,
 * truncated prefixes, last two digits).
 */
module Decimal {

  predicate IsDigit(c: char) {
    '0' <= c <= '9'
  }

  function DigitChar(d: nat): (c: char)
    requires d < 10
    ensures IsDigit(c) && DigitValue(c) == d
  {
    ('0' as int + d) as char
  }

  function DigitValue(c: char): nat
    requires IsDigit(c)
  {
    c as int - '0' as int
  }

  predicate AllDigits(s: string) {
    forall i :: 0 <= i < |s| ==> IsDigit(s[i])
  }

  /** The value of a digit string, read most significant digit first. */
  function DecimalValue(s: string): nat
    requires AllDigits(s)
  {
    if s == [] then 0 else DecimalValue(s[..|s| - 1]) * 10 + DigitValue(s[|s| - 1])
  }

  /** `s` is a digit string whose value is `v`. */
  predicate ReadsAs(s: string, v: int) {
    AllDigits(s) && DecimalValue(s) == v
  }

  /** The length of the run of digits at the start of `s`. */
  function DigitRun(s: string): (k: nat)
    ensures k <= |s|
    ensures AllDigits(s[..k])
    ensures k < |s| ==> !IsDigit(s[k])
  {
    if s != [] && IsDigit(s[0]) then
      var k := 1 + DigitRun(s[1..]);
      assert s[..k] == [s[0]] + s[1..][..k - 1];
      k
    else 0
  }

  function Pow10(k: nat): (p: nat)
    ensures p >= 1
  {
    if k == 0 then 1 else 10 * Pow10(k - 1)
  }

  /**
   * `n` in decimal, padded on the left with zeros to at least `w` digits;
   * a number with more digits than `w` is written out in full.
   */
  function Pad(n: nat, w: nat): string
    decreases n + w
  {
    if n < 10 && w <= 1 then [DigitChar(n)]
    else Pad(n / 10, if w == 0 then 0 else w - 1) + [DigitChar(n % 10)]
  }

  /** Padding yields digits only, never fewer than `w` of them, and exactly `w` when `n` fits. */
  lemma {:induction false} PadShape(n: nat, w: nat)
    ensures AllDigits(Pad(n, w))
    ensures |Pad(n, w)| >= w && |Pad(n, w)| >= 1
    ensures 1 <= w && n < Pow10(w) ==> |Pad(n, w)| == w
    decreases n + w
  {
    if !(n < 10 && w <= 1) {
      var w' := if w == 0 then 0 else w - 1;
      PadShape(n / 10, w');
      if 1 <= w && n < Pow10(w) {
        assert w >= 2;
        assert n / 10 < Pow10(w - 1);
      }
    }
  }

  /** Reading a padded number back gives the number: padding adds only leading zeros. */
  lemma {:induction false} PadRoundTrip(n: nat, w: nat)
    ensures AllDigits(Pad(n, w)) && DecimalValue(Pad(n, w)) == n
    decreases n + w
  {
    PadShape(n, w);
    if !(n < 10 && w <= 1) {
      var w' := if w == 0 then 0 else w - 1;
      var s := Pad(n, w);
      PadRoundTrip(n / 10, w');
      assert s[..|s| - 1] == Pad(n / 10, w');
    }
  }

  lemma DivDiv10(n: nat, p: nat)
    requires p >= 1
    ensures n / 10 / p == n / (10 * p)
  {
    var q := n / 10 / p;
    var r1 := n % 10;
    var r2 := (n / 10) % p;
    assert n / 10 == p * q + r2;
    assert n == 10 * (p * q + r2) + r1;
    assert n == (10 * p) * q + (10 * r2 + r1);
    assert 0 <= 10 * r2 + r1 < 10 * p;
    DivUnique(n, 10 * p, q, 10 * r2 + r1);
  }

  lemma DivUnique(n: int, d: int, q: int, r: int)
    requires d > 0 && 0 <= r < d && n == d * q + r
    ensures n / d == q
  {
    var q' := n / d;
    var r' := n % d;
    assert n == d * q' + r';
    if q' > q {
      assert d * q' >= d * (q + 1) by { MulMonotone(d, q + 1, q'); }
      assert false;
    } else if q' < q {
      assert d * q >= d * (q' + 1) by { MulMonotone(d, q' + 1, q); }
      assert false;
    }
  }

  lemma MulMonotone(d: int, a: int, b: int)
    requires d > 0 && a <= b
    ensures d * a <= d * b
  {
    assert d * b - d * a == d * (b - a);
  }

  /**
   * The first `k` digits of `n` padded to `w` digits are the digits of
   * `n` with its last `w - k` digits cut off: a prefix truncates, it never
   * rounds.
   */
  lemma {:induction false} PadPrefix(n: nat, w: nat, k: nat)
    requires 1 <= k <= w && n < Pow10(w)
    ensures |Pad(n, w)| == w
    ensures Pad(n, w)[..k] == Pad(n / Pow10(w - k), k)
    decreases w
  {
    PadShape(n, w);
    if k < w {
      assert !(n < 10 && w <= 1);
      assert n / 10 < Pow10(w - 1);
      PadPrefix(n / 10, w - 1, k);
      PadShape(n / 10, w - 1);
      assert Pad(n, w)[..k] == Pad(n / 10, w - 1)[..k];
      DivDiv10(n, Pow10(w - 1 - k));
    }
  }

  /** The last character of a padded number is its units digit. */
  lemma PadLast(n: nat, w: nat)
    ensures |Pad(n, w)| >= 1 && Pad(n, w)[|Pad(n, w)| - 1] == DigitChar(n % 10)
  {
    PadShape(n, w);
  }

  lemma Mod100Digits(n: nat)
    ensures n % 100 / 10 == n / 10 % 10 && n % 100 % 10 == n % 10
  {
    var q := n / 100;
    var r := n % 100;
    assert n == 100 * q + r;
    DivUnique(n, 10, 10 * q + r / 10, r % 10);
    DivUnique(n / 10, 10, q, r / 10);
  }

  lemma PadTwo(x: nat)
    requires x < 100
    ensures Pad(x, 2) == [DigitChar(x / 10), DigitChar(x % 10)]
  {
    assert Pad(x, 2) == Pad(x / 10, 1) + [DigitChar(x % 10)];
  }

  lemma PadFour(x: nat)
    requires 1000 <= x < 10000
    ensures Pad(x, 4) == [DigitChar(x / 1000), DigitChar(x / 100 % 10), DigitChar(x / 10 % 10), DigitChar(x % 10)]
  {
    assert Pad(x, 4) == Pad(x / 10, 3) + [DigitChar(x % 10)];
    assert Pad(x / 10, 3) == Pad(x / 10 / 10, 2) + [DigitChar(x / 10 % 10)];
    DivDiv10(x, 10);
    DivDiv10(x, 100);
    PadTwo(x / 100);
  }

  /** The last two characters of a number padded to at least two digits are its value modulo 100. */
  lemma LastTwoDigits(n: nat, w: nat)
    requires w >= 2
    ensures |Pad(n, w)| >= 2
    ensures Pad(n, w)[|Pad(n, w)| - 2..] == Pad(n % 100, 2)
  {
    var s := Pad(n, w);
    var front := Pad(n / 10, w - 1);
    assert s == front + [DigitChar(n % 10)];
    PadLast(n / 10, w - 1);
    var tens := front[|front| - 1];
    assert s[|s| - 2..] == [tens, DigitChar(n % 10)];
    Mod100Digits(n);
    PadTwo(n % 100);
  }
}
