/** 64-bit machine words as naturals: the bitwise operations, defined on the
    binary expansion, and how they act on single bits. */
module Words {

  function Pow2(k: nat): (p: nat)
    ensures p >= 1
  {
    if k == 0 then 1 else 2 * Pow2(k - 1)
  }

  const WORDS := 0x1_0000_0000_0000_0000

  predicate IsWord(n: nat) {
    n < WORDS
  }

  predicate Bit(n: nat, i: nat) {
    if i == 0 then n % 2 == 1 else Bit(n / 2, i - 1)
  }

  function Digit(b: bool): nat {
    if b then 1 else 0
  }

  function Xor(a: nat, b: nat): nat
    decreases a + b
  {
    if a == 0 && b == 0 then 0 else Digit((a % 2 == 1) != (b % 2 == 1)) + 2 * Xor(a / 2, b / 2)
  }

  function Or(a: nat, b: nat): nat
    decreases a + b
  {
    if a == 0 && b == 0 then 0 else Digit(a % 2 == 1 || b % 2 == 1) + 2 * Or(a / 2, b / 2)
  }

  /** `n >> k`. */
  function Shr(n: nat, k: nat): (r: nat)
    ensures r <= n
  {
    if k == 0 then n else Shr(n / 2, k - 1)
  }

  /** `n << k` on a 64-bit word: the high bits fall off. */
  function Shl(n: nat, k: nat): (r: nat)
    ensures IsWord(r)
  {
    (n * Pow2(k)) % WORDS
  }

  lemma ShlSmall(n: nat, k: nat)
    requires n * Pow2(k) < WORDS
    ensures Shl(n, k) == n * Pow2(k)
  {
  }

  lemma PowByte()
    ensures Pow2(1) == 2 && Pow2(8) == 256
  {
    assert Pow2(2) == 4;
    PowSum(2, 2);
    PowSum(4, 4);
  }

  lemma Pow64()
    ensures Pow2(64) == WORDS
  {
    hide Pow2;
    PowByte();
    PowSum(8, 8);
    PowSum(16, 16);
    PowSum(32, 32);
  }

  lemma {:induction false} PowSum(a: nat, b: nat)
    ensures Pow2(a + b) == Pow2(a) * Pow2(b)
  {
    if a > 0 { PowSum(a - 1, b); }
  }

  // ----- bits -----

  lemma {:induction false} BitZero(i: nat)
    ensures !Bit(0, i)
  {
    if i > 0 { BitZero(i - 1); }
  }

  lemma {:induction false} BitXor(a: nat, b: nat, i: nat)
    ensures Bit(Xor(a, b), i) <==> Bit(a, i) != Bit(b, i)
    decreases i
  {
    if a == 0 && b == 0 {
      BitZero(i);
    } else if i > 0 {
      BitXor(a / 2, b / 2, i - 1);
    }
  }

  lemma {:induction false} BitOr(a: nat, b: nat, i: nat)
    ensures Bit(Or(a, b), i) <==> Bit(a, i) || Bit(b, i)
    decreases i
  {
    if a == 0 && b == 0 {
      BitZero(i);
    } else if i > 0 {
      BitOr(a / 2, b / 2, i - 1);
    }
  }

  lemma {:induction false} BitHigh(n: nat, k: nat, i: nat)
    requires n < Pow2(k) && k <= i
    ensures !Bit(n, i)
  {
    if k == 0 { BitZero(i); } else { BitHigh(n / 2, k - 1, i - 1); }
  }

  lemma {:induction false} BitShr(n: nat, k: nat, i: nat)
    ensures Bit(Shr(n, k), i) <==> Bit(n, i + k)
    decreases k
  {
    if k > 0 {
      BitShr(n / 2, k - 1, i);
    }
  }

  /** Numbers below 2^k with the same low `k` bits are equal. */
  lemma {:induction false} BitsDecide(a: nat, b: nat, k: nat)
    requires a < Pow2(k) && b < Pow2(k)
    requires forall i: nat :: i < k ==> Bit(a, i) == Bit(b, i)
    ensures a == b
  {
    if k > 0 {
      forall i: nat | i < k - 1 ensures Bit(a / 2, i) == Bit(b / 2, i) {
        assert Bit(a, i + 1) == Bit(b, i + 1);
      }
      BitsDecide(a / 2, b / 2, k - 1);
      assert Bit(a, 0) == Bit(b, 0);
    }
  }

  lemma {:induction false} XorBound(a: nat, b: nat, k: nat)
    requires a < Pow2(k) && b < Pow2(k)
    ensures Xor(a, b) < Pow2(k)
  {
    if k > 0 && !(a == 0 && b == 0) { XorBound(a / 2, b / 2, k - 1); }
  }

  lemma {:induction false} OrBound(a: nat, b: nat, k: nat)
    requires a < Pow2(k) && b < Pow2(k)
    ensures Or(a, b) < Pow2(k)
  {
    if k > 0 && !(a == 0 && b == 0) { OrBound(a / 2, b / 2, k - 1); }
  }

  lemma XorWord(a: nat, b: nat)
    requires IsWord(a) && IsWord(b)
    ensures IsWord(Xor(a, b))
  {
    Pow64();
    XorBound(a, b, 64);
  }

  lemma OrWord(a: nat, b: nat)
    requires IsWord(a) && IsWord(b)
    ensures IsWord(Or(a, b))
  {
    Pow64();
    OrBound(a, b, 64);
  }

  lemma WordsByBits(a: nat, b: nat)
    requires IsWord(a) && IsWord(b)
    requires forall i: nat :: i < 64 ==> Bit(a, i) == Bit(b, i)
    ensures a == b
  {
    Pow64();
    BitsDecide(a, b, 64);
  }

  /** Exclusive or with a fixed word is its own inverse. */
  lemma XorCancel(s: nat, a: nat)
    requires IsWord(s) && IsWord(a)
    ensures Xor(s, Xor(s, a)) == a
  {
    XorWord(s, a);
    XorWord(s, Xor(s, a));
    forall i: nat | i < 64 ensures Bit(Xor(s, Xor(s, a)), i) == Bit(a, i) {
      BitXor(s, Xor(s, a), i);
      BitXor(s, a, i);
    }
    WordsByBits(Xor(s, Xor(s, a)), a);
  }

  lemma OrIdempotent(a: nat)
    requires IsWord(a)
    ensures Or(a, a) == a
  {
    OrWord(a, a);
    forall i: nat | i < 64 ensures Bit(Or(a, a), i) == Bit(a, i) { BitOr(a, a, i); }
    WordsByBits(Or(a, a), a);
  }

  /** Disjoint bit ranges: or is addition. */
  lemma {:induction false} OrDisjoint(q: nat, b: nat, k: nat)
    requires b < Pow2(k)
    ensures Or(q * Pow2(k), b) == q * Pow2(k) + b
    decreases k, q
  {
    if k == 0 {
      assert q * Pow2(0) == q;
      OrZero(q);
    } else {
      var a := q * Pow2(k);
      assert a == 2 * (q * Pow2(k - 1));
      OrDisjoint(q, b / 2, k - 1);
      if a == 0 && b == 0 {
      } else {
        assert a / 2 == q * Pow2(k - 1);
      }
    }
  }

  lemma {:induction false} OrZero(a: nat)
    ensures Or(a, 0) == a
  {
    if a > 0 { OrZero(a / 2); }
  }
}
