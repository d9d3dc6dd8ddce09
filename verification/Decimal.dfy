/** Decimal rendering and reading of natural numbers, and the lexicographic
    order of strings: the `format!`/`parse` pair that the calendar, the wire
    timestamps, the log bodies and the series labels all go through. */
module Decimal {

  predicate IsDigit(c: char) {
    '0' <= c <= '9'
  }

  function DigitChar(d: nat): (c: char)
    requires d < 10
    ensures IsDigit(c) && DigitValue(c) == d
  {
    '0' + d as char
  }

  function DigitValue(c: char): (d: nat)
    requires IsDigit(c)
    ensures d < 10
  {
    (c - '0') as nat
  }

  predicate AllDigits(s: string) {
    forall i :: 0 <= i < |s| ==> IsDigit(s[i])
  }

  /** Rust's `{n}` for an unsigned number. */
  function Print(n: nat): (s: string)
    ensures AllDigits(s) && |s| >= 1
  {
    if n < 10 then [DigitChar(n)] else Print(n / 10) + [DigitChar(n % 10)]
  }

  /** Rust's `{n}` for a signed number. */
  function PrintInt(n: int): string {
    if n < 0 then "-" + Print(-n) else Print(n)
  }

  /** The number a digit string denotes (most significant digit first). */
  function Value(s: string): nat
    requires AllDigits(s)
  {
    if s == [] then 0 else Value(s[..|s| - 1]) * 10 + DigitValue(s[|s| - 1])
  }

  function Zeros(k: nat): (s: string)
    ensures |s| == k && AllDigits(s)
    ensures forall i :: 0 <= i < k ==> s[i] == '0'
  {
    seq(k, _ => '0')
  }

  /** Rust's `{n:0w}`: zero-padded on the left to at least `w` characters. */
  function Pad(n: nat, w: nat): (s: string)
    ensures AllDigits(s) && |s| >= 1 && |s| >= w
  {
    var p := Print(n);
    if |p| >= w then p else Zeros(w - |p|) + p
  }

  function Pow10(k: nat): nat {
    if k == 0 then 1 else 10 * Pow10(k - 1)
  }

  lemma ValueSnoc(s: string, c: char)
    requires AllDigits(s) && IsDigit(c)
    ensures AllDigits(s + [c]) && Value(s + [c]) == Value(s) * 10 + DigitValue(c)
  {
    assert (s + [c])[..|s|] == s;
  }

  /** Reading back what was printed. */
  lemma {:induction false} ValuePrint(n: nat)
    ensures Value(Print(n)) == n
  {
    if n >= 10 {
      ValuePrint(n / 10);
      ValueSnoc(Print(n / 10), DigitChar(n % 10));
    } else {
      ValueSnoc("", DigitChar(n));
    }
  }

  lemma {:induction false} ValueZeros(k: nat, s: string)
    requires AllDigits(s)
    ensures Value(Zeros(k) + s) == Value(s)
    decreases |s|, k
  {
    if s != [] {
      var front := s[..|s| - 1];
      ValueZeros(k, front);
      ValueSnoc(Zeros(k) + front, s[|s| - 1]);
      assert Zeros(k) + s == (Zeros(k) + front) + [s[|s| - 1]];
    } else if k > 0 {
      ValueZeros(k - 1, s);
      assert Zeros(k) + s == (Zeros(k - 1) + s) + ['0'];
      ValueSnoc(Zeros(k - 1) + s, '0');
    }
  }

  lemma {:induction false} ValuePad(n: nat, w: nat)
    ensures Value(Pad(n, w)) == n
  {
    ValuePrint(n);
    ValueZeros(if |Print(n)| < w then w - |Print(n)| else 0, Print(n));
  }

  lemma PrintInjective(m: nat, n: nat)
    requires Print(m) == Print(n)
    ensures m == n
  {
    ValuePrint(m);
    ValuePrint(n);
  }

  lemma PadInjective(m: nat, n: nat, w: nat)
    requires Pad(m, w) == Pad(n, w)
    ensures m == n
  {
    ValuePad(m, w);
    ValuePad(n, w);
  }

  /** Below 10^w the padded form has exactly `w` characters. */
  lemma {:induction false} PrintWidth(n: nat, w: nat)
    requires 1 <= w && n < Pow10(w)
    ensures |Print(n)| <= w
  {
    if n >= 10 {
      assert Pow10(w) == 10 * Pow10(w - 1);
      PrintWidth(n / 10, w - 1);
    }
  }

  // ----- lexicographic order -----

  predicate LexLess(a: string, b: string) {
    b != [] && (a == [] || a[0] < b[0] || (a[0] == b[0] && LexLess(a[1..], b[1..])))
  }

  lemma {:induction false} LexIrreflexive(a: string)
    ensures !LexLess(a, a)
  {
    if a != [] { LexIrreflexive(a[1..]); }
  }

  lemma {:induction false} LexAsymmetric(a: string, b: string)
    requires LexLess(a, b)
    ensures !LexLess(b, a)
  {
    if a != [] && a[0] == b[0] { LexAsymmetric(a[1..], b[1..]); }
  }

  lemma {:induction false} LexPrefix(p: string, a: string, b: string)
    requires LexLess(a, b)
    ensures LexLess(p + a, p + b)
  {
    if p == [] {
      assert p + a == a && p + b == b;
    } else {
      LexPrefix(p[1..], a, b);
      assert (p + a)[1..] == p[1..] + a && (p + b)[1..] == p[1..] + b;
    }
  }

  /** A difference inside equally long leading fields decides the comparison. */
  lemma {:induction false} LexField(a: string, b: string, x: string, y: string)
    requires |a| == |b| && LexLess(a, b)
    ensures LexLess(a + x, b + y)
  {
    if a[0] == b[0] {
      LexField(a[1..], b[1..], x, y);
      assert (a + x)[1..] == a[1..] + x && (b + y)[1..] == b[1..] + y;
    }
  }

  /** Equally long digit strings compare as the numbers they denote. */
  lemma {:induction false} LexOfValues(a: string, b: string)
    requires AllDigits(a) && AllDigits(b) && |a| == |b| && Value(a) < Value(b)
    ensures LexLess(a, b)
  {
    if a != [] {
      var k := |a| - 1;
      var (a', b') := (a[..k], b[..k]);
      assert a == a' + [a[k]] && b == b' + [b[k]];
      if Value(a') < Value(b') {
        LexOfValues(a', b');
        LexField(a', b', [a[k]], [b[k]]);
      } else {
        SameValue(a', b');
        LexPrefix(a', [a[k]], [b[k]]);
      }
    }
  }

  lemma {:induction false} SameValue(a: string, b: string)
    requires AllDigits(a) && AllDigits(b) && |a| == |b| && Value(a) == Value(b)
    ensures a == b
  {
    if a != [] {
      var k := |a| - 1;
      SameValue(a[..k], b[..k]);
      assert a == a[..k] + [a[k]] && b == b[..k] + [b[k]];
    }
  }
}
