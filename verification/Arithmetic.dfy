/** Integer arithmetic shared by the components: division in Rust's sense, and
    the few facts about products and quotients the proofs go through. */
module Arithmetic {

  const I64_MIN := -0x8000_0000_0000_0000
  const I64_MAX := 0x7FFF_FFFF_FFFF_FFFF

  function Min(a: nat, b: nat): nat { if a <= b then a else b }

  function Max(a: nat, b: nat): nat { if a < b then b else a }

  /** Rust's `/` on signed integers truncates toward zero. */
  function TruncDiv(a: int, b: int): int
    requires b > 0
  {
    if a >= 0 then a / b else -((-a) / b)
  }

  function CeilDiv(a: int, b: int): (q: int)
    requires b > 0
    ensures a >= 0 ==> q >= 0
  {
    (a + b - 1) / b
  }

  lemma MulLe(x: int, y: int, d: int)
    requires x <= y && d >= 0
    ensures x * d <= y * d
  {
    assert (y - x) * d >= 0;
    assert (y - x) * d == y * d - x * d;
  }

  lemma Spread(x: int, y: int, b: int)
    ensures (x + y) * b == x * b + y * b
  {
  }

  lemma Positive(x: int, y: int)
    requires x > 0 && y > 0
    ensures x * y > 0
  {
  }

  lemma SmallMultiple(d: int, k: int)
    requires -d < d * k < d
    ensures k == 0
  {
    assert k >= 1 ==> d * k >= d;
    assert k <= -1 ==> d * k <= -d;
  }

  lemma DivUnique(n: int, d: int, q: int, r: int)
    requires 0 <= r < d && n == d * q + r
    ensures n / d == q && n % d == r
  {
    var (p, m) := (n / d, n % d);
    assert n == d * p + m;
    assert d * (p - q) == d * p - d * q;
    SmallMultiple(d, p - q);
  }

  lemma DivBetween(n: int, d: int, q: int)
    requires d > 0 && q * d <= n < (q + 1) * d
    ensures n / d == q
  {
    Spread(q, 1, d);
    DivUnique(n, d, q, n - d * q);
  }
}
