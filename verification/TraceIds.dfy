/** Trace and span identifiers of `e2e/src/traces_corpus.rs`: the splitmix64
    mix as a permutation of 64-bit words, and exactly how far the uniqueness of
    generated ids reaches. */
module TraceIds {
  import opened Arithmetic
  import opened Words

  // ----- the mix and its inverse -----

  const GAMMA := 0x9E37_79B9_7F4A_7C15
  const MUL1 := 0xBF58_476D_1CE4_E5B9
  const MUL2 := 0x94D0_49BB_1331_11EB
  const INV1 := 0x96DE_1B17_3F11_9089
  const INV2 := 0x3196_42B2_D24D_8EC3

  function XorShift(z: nat, k: nat): nat {
    Xor(z, Shr(z, k))
  }

  function WrappingMul(a: nat, b: nat): (r: nat)
    ensures IsWord(r)
  {
    (a * b) % WORDS
  }

  function WrappingAdd(a: nat, b: nat): (r: nat)
    ensures IsWord(r)
  {
    (a + b) % WORDS
  }

  /** `splitmix64`. */
  function Mix(x: nat): nat {
    var s := WrappingAdd(x, GAMMA);
    var a := WrappingMul(XorShift(s, 30), MUL1);
    var b := WrappingMul(XorShift(a, 27), MUL2);
    XorShift(b, 31)
  }

  /** Undoes one xor-shift by more than a third of the word. */
  function Unshift(w: nat, k: nat): nat {
    Xor(XorShift(w, k), Shr(w, 2 * k))
  }

  /** The inverse rounds in the opposite order. */
  function Unmix(w: nat): nat {
    var b := Unshift(w, 31);
    var a := Unshift(WrappingMul(b, INV2), 27);
    var s := Unshift(WrappingMul(a, INV1), 30);
    WrappingAdd(s, WORDS - GAMMA)
  }

  lemma XorShiftWord(z: nat, k: nat)
    requires IsWord(z)
    ensures IsWord(XorShift(z, k)) && IsWord(Unshift(z, k))
  {
    XorWord(z, Shr(z, k));
    XorWord(XorShift(z, k), Shr(z, 2 * k));
  }

  lemma BitXorShift(z: nat, k: nat, i: nat)
    ensures Bit(XorShift(z, k), i) <==> Bit(z, i) != Bit(z, i + k)
  {
    BitXor(z, Shr(z, k), i);
    BitShr(z, k, i);
  }

  lemma BitUnshift(w: nat, k: nat, i: nat)
    ensures Bit(Unshift(w, k), i) <==> (Bit(w, i) != Bit(w, i + k)) != Bit(w, i + 2 * k)
  {
    BitXor(XorShift(w, k), Shr(w, 2 * k), i);
    BitXorShift(w, k, i);
    BitShr(w, 2 * k, i);
  }

  lemma WordBitHigh(z: nat, i: nat)
    requires IsWord(z) && i >= 64
    ensures !Bit(z, i)
  {
    Pow64();
    BitHigh(z, 64, i);
  }

  lemma UnshiftInverts(z: nat, k: nat)
    requires IsWord(z) && k >= 22
    ensures Unshift(XorShift(z, k), k) == z && XorShift(Unshift(z, k), k) == z
  {
    var (w, v) := (XorShift(z, k), Unshift(z, k));
    XorShiftWord(z, k);
    XorShiftWord(w, k);
    XorShiftWord(v, k);
    forall i: nat | i < 64 ensures Bit(Unshift(w, k), i) == Bit(z, i) && Bit(XorShift(v, k), i) == Bit(z, i) {
      hide XorShift, Unshift, Bit;
      BitUnshift(w, k, i);
      BitXorShift(z, k, i);
      BitXorShift(z, k, i + k);
      BitXorShift(z, k, i + 2 * k);
      BitXorShift(v, k, i);
      BitUnshift(z, k, i);
      BitUnshift(z, k, i + k);
      WordBitHigh(z, i + 3 * k);
      assert i + k + k == i + 2 * k && i + 2 * k + k == i + 3 * k && i + k + 2 * k == i + 3 * k;
    }
    WordsByBits(Unshift(w, k), z);
    WordsByBits(XorShift(v, k), z);
  }

  /** Multiplying by `c` and then by its inverse modulo 2^64. */
  lemma MulInverts(z: nat, c: nat, d: nat, e: nat)
    requires IsWord(z) && c * d == 1 + e * WORDS
    ensures WrappingMul(WrappingMul(z, c), d) == z
  {
    var (q, r) := ((z * c) / WORDS, (z * c) % WORDS);
    assert z * c == q * WORDS + r;
    calc {
      r * d;
      (z * c) * d - q * WORDS * d;
      { assert (z * c) * d == z * (c * d); }
      z * (1 + e * WORDS) - q * WORDS * d;
      { assert z * (1 + e * WORDS) == z + WORDS * (z * e); assert q * WORDS * d == WORDS * (q * d); }
      z + WORDS * (z * e - q * d);
    }
    DivUnique(r * d, WORDS, z * e - q * d, z);
  }

  lemma Mul1Inverts(z: nat)
    requires IsWord(z)
    ensures WrappingMul(WrappingMul(z, MUL1), INV1) == z && WrappingMul(WrappingMul(z, INV1), MUL1) == z
  {
    var e := (MUL1 * INV1) / WORDS;
    MulInverts(z, MUL1, INV1, e);
    MulInverts(z, INV1, MUL1, e);
  }

  lemma Mul2Inverts(z: nat)
    requires IsWord(z)
    ensures WrappingMul(WrappingMul(z, MUL2), INV2) == z && WrappingMul(WrappingMul(z, INV2), MUL2) == z
  {
    var e := (MUL2 * INV2) / WORDS;
    MulInverts(z, MUL2, INV2, e);
    MulInverts(z, INV2, MUL2, e);
  }

  lemma AddInverts(x: nat, c: nat)
    requires IsWord(x) && c <= WORDS
    ensures WrappingAdd(WrappingAdd(x, c), WORDS - c) == x
    ensures WrappingAdd(WrappingAdd(x, WORDS - c), c) == x
  {
    Wrap(x + c);
    Wrap(x + WORDS - c);
    Wrap(WrappingAdd(x, c) + WORDS - c);
    Wrap(WrappingAdd(x, WORDS - c) + c);
  }

  lemma Wrap(n: nat)
    requires n < 2 * WORDS
    ensures n % WORDS == (if n < WORDS then n else n - WORDS)
  {
    if n >= WORDS { DivUnique(n, WORDS, 1, n - WORDS); } else { DivUnique(n, WORDS, 0, n); }
  }

  /** splitmix64 is a bijection on 64-bit words. */
  lemma MixIsBijection(x: nat)
    requires IsWord(x)
    ensures IsWord(Mix(x)) && Unmix(Mix(x)) == x
    ensures IsWord(Unmix(x)) && Mix(Unmix(x)) == x
  {
    hide WrappingAdd, WrappingMul, XorShift, Unshift;
    var s := WrappingAdd(x, GAMMA);
    var a := WrappingMul(XorShift(s, 30), MUL1);
    var b := WrappingMul(XorShift(a, 27), MUL2);
    AddInverts(x, GAMMA);
    Round(s, 30);
    Mul1Inverts(XorShift(s, 30));
    Round(a, 27);
    Mul2Inverts(XorShift(a, 27));
    Round(b, 31);

    var b' := Unshift(x, 31);
    var m2 := WrappingMul(b', INV2);
    var a' := Unshift(m2, 27);
    var m1 := WrappingMul(a', INV1);
    Round(x, 31);
    Mul2Inverts(b');
    Round(m2, 27);
    Mul1Inverts(a');
    Round(m1, 30);
    AddInverts(Unshift(m1, 30), GAMMA);
  }

  lemma Round(z: nat, k: nat)
    requires IsWord(z) && k >= 22
    ensures IsWord(XorShift(z, k)) && IsWord(Unshift(z, k))
    ensures Unshift(XorShift(z, k), k) == z && XorShift(Unshift(z, k), k) == z
  {
    XorShiftWord(z, k);
    UnshiftInverts(z, k);
  }

  lemma MixInjective(x: nat, y: nat)
    requires IsWord(x) && IsWord(y) && Mix(x) == Mix(y)
    ensures x == y
  {
    hide Mix, Unmix;
    MixIsBijection(x);
    MixIsBijection(y);
  }

  /** `splitmix64`, statement by statement. */
  method SplitMix64(seed: nat) returns (r: nat)
    requires IsWord(seed)
    ensures IsWord(r) && r == Mix(seed)
    ensures Unmix(r) == seed
  {
    hide Unmix, Shr, Xor;
    var x := WrappingAdd(seed, GAMMA);
    var z := x;
    z := WrappingMul(Xor(z, Shr(z, 30)), MUL1);
    z := WrappingMul(Xor(z, Shr(z, 27)), MUL2);
    r := Xor(z, Shr(z, 31));
    MixIsBijection(seed);
  }

  // ----- identifiers -----

  /** `id_seed`: the run identity folded into the fixture seed, byte by byte. */
  method IdSeed(seed: nat, runId: seq<nat>) returns (acc: nat)
    requires IsWord(seed) && forall i :: 0 <= i < |runId| ==> runId[i] < 256
    ensures IsWord(acc)
    ensures Unfold(acc, runId) == seed
  {
    hide Unmix, Mix, Xor;
    acc := seed;
    var i := 0;
    while i < |runId|
      invariant 0 <= i <= |runId| && IsWord(acc)
      invariant Unfold(acc, runId[..i]) == seed
    {
      XorWord(acc, runId[i]);
      XorCancelRight(acc, runId[i]);
      ghost var before := acc;
      acc := SplitMix64(Xor(acc, runId[i]));
      assert runId[..i + 1][..i] == runId[..i];
      assert Unfold(acc, runId[..i + 1]) == Unfold(before, runId[..i]);
      i := i + 1;
    }
    assert runId[..i] == runId;
  }

  lemma XorCancelRight(a: nat, b: nat)
    requires IsWord(a) && IsWord(b)
    ensures Xor(Xor(a, b), b) == a
  {
    XorCommutes(a, b);
    XorWord(a, b);
    XorCommutes(Xor(a, b), b);
    XorCancel(b, a);
  }

  lemma {:induction false} XorCommutes(a: nat, b: nat)
    ensures Xor(a, b) == Xor(b, a)
    decreases a + b
  {
    if a != 0 || b != 0 { XorCommutes(a / 2, b / 2); }
  }

  /** Reads the seed back out of a folded id seed. */
  function Unfold(acc: nat, runId: seq<nat>): nat
    decreases |runId|
  {
    if runId == [] then acc
    else Unfold(Xor(Unmix(acc), runId[|runId| - 1]), runId[..|runId| - 1])
  }

  const TRACE_DOMAIN := 0x100_0000_0000
  const SPAN_DOMAIN := 0x200_0000_0000
  const REMAP := 0x0705_0301_0906_0402

  function TraceWord(t: nat, half: nat): nat {
    Or(TRACE_DOMAIN, if half == 0 then Shl(t, 1) else Or(Shl(t, 1), 1))
  }

  function SpanWord(t: nat, s: nat): nat {
    Or(Or(SPAN_DOMAIN, Shl(t, 8)), s)
  }

  function TraceHalf(seed: nat, t: nat, half: nat): nat {
    Mix(Xor(seed, TraceWord(t, half)))
  }

  function RawSpan(seed: nat, t: nat, s: nat): nat {
    Mix(Xor(seed, SpanWord(t, s)))
  }

  /** `to_be_bytes`. */
  function BeBytes(n: nat, k: nat): (b: seq<nat>)
    ensures |b| == k
  {
    if k == 0 then [] else BeBytes(n / 256, k - 1) + [n % 256]
  }

  /** `trace_id_for`. */
  function TraceId(seed: nat, t: nat): seq<nat> {
    BeBytes(TraceHalf(seed, t, 0), 8) + BeBytes(TraceHalf(seed, t, 1), 8)
  }

  /** `span_id_for`. */
  function SpanId(seed: nat, t: nat, s: nat): seq<nat> {
    var raw := RawSpan(seed, t, s);
    BeBytes(if raw == 0 then REMAP else raw, 8)
  }

  lemma {:induction false} BeBytesInjective(m: nat, n: nat, k: nat)
    requires m < Pow2(8 * k) && n < Pow2(8 * k) && BeBytes(m, k) == BeBytes(n, k)
    ensures m == n
  {
    if k > 0 {
      assert Pow2(8) == 256;
      PowSum(8, 8 * (k - 1));
      assert 8 + 8 * (k - 1) == 8 * k;
      DivBound(m, Pow2(8 * (k - 1)));
      DivBound(n, Pow2(8 * (k - 1)));
      SnocInjective(BeBytes(m / 256, k - 1), m % 256, BeBytes(n / 256, k - 1), n % 256);
      BeBytesInjective(m / 256, n / 256, k - 1);
    }
  }

  lemma DivBound(m: nat, p: nat)
    requires m < 256 * p
    ensures m / 256 < p
  {
  }

  lemma SnocInjective(a: seq<nat>, x: nat, b: seq<nat>, y: nat)
    requires a + [x] == b + [y]
    ensures a == b && x == y
  {
    assert a == (a + [x])[..|a|] && x == (a + [x])[|a|];
    assert b == (b + [y])[..|b|] && y == (b + [y])[|b|];
  }

  lemma WordBytesInjective(m: nat, n: nat)
    requires IsWord(m) && IsWord(n) && BeBytes(m, 8) == BeBytes(n, 8)
    ensures m == n
  {
    Pow64();
    BeBytesInjective(m, n, 8);
  }

  lemma Powers()
    ensures Pow2(1) == 2 && Pow2(8) == 256 && Pow2(33) == 0x2_0000_0000 && Pow2(39) == 0x80_0000_0000
    ensures Pow2(40) == TRACE_DOMAIN && Pow2(41) == SPAN_DOMAIN
  {
    hide Pow2;
    PowByte();
    PowSum(8, 8);
    PowSum(16, 16);
    PowSum(1, 32);
    PowSum(33, 8);
    PowSum(1, 40);
    PowSum(1, 39);
  }

  lemma WordsAreWords(t: nat, h: nat, s: nat)
    requires IsWord(s)
    ensures IsWord(TraceWord(t, h)) && IsWord(SpanWord(t, s))
  {
    OrWord(Shl(t, 1), 1);
    OrWord(TRACE_DOMAIN, if h == 0 then Shl(t, 1) else Or(Shl(t, 1), 1));
    OrWord(SPAN_DOMAIN, Shl(t, 8));
    OrWord(Or(SPAN_DOMAIN, Shl(t, 8)), s);
  }

  /** Below the domain bit the trace word is a plain sum. */
  lemma TraceWordSum(t: nat, h: nat)
    requires t < Pow2(39) && h < 2
    ensures TraceWord(t, h) == TRACE_DOMAIN + 2 * t + h
  {
    hide Or, Shl;
    Powers();
    ShlSmall(t, 1);
    OrDisjoint(t, h, 1);
    OrDisjoint(1, 2 * t + h, 40);
  }

  lemma SpanWordSum(t: nat, s: nat)
    requires t < Pow2(33) && s < 256
    ensures SpanWord(t, s) == SPAN_DOMAIN + 256 * t + s
  {
    hide Or, Shl;
    Powers();
    ShlSmall(t, 8);
    OrDisjoint(1, 256 * t, 41);
    assert Or(SPAN_DOMAIN, Shl(t, 8)) == (0x2_0000_0000 + t) * Pow2(8);
    OrDisjoint(0x2_0000_0000 + t, s, 8);
  }

  /** Equal mixed words come from equal input words. */
  lemma SameInput(seed: nat, a: nat, b: nat)
    requires IsWord(seed) && IsWord(a) && IsWord(b)
    ensures IsWord(Mix(Xor(seed, a)))
    ensures Mix(Xor(seed, a)) == Mix(Xor(seed, b)) ==> a == b
  {
    hide Mix, Xor;
    XorWord(seed, a);
    XorWord(seed, b);
    MixIsBijection(Xor(seed, a));
    XorCancel(seed, a);
    XorCancel(seed, b);
    if Mix(Xor(seed, a)) == Mix(Xor(seed, b)) { MixInjective(Xor(seed, a), Xor(seed, b)); }
  }

  // ----- trace ids -----

  ghost predicate TraceIdsDistinct(seed: nat, n: nat) {
    forall t: nat, u: nat :: t < u < n ==> TraceId(seed, t) != TraceId(seed, u)
  }

  /** A corpus of `n` traces has pairwise distinct trace ids exactly when its
      indices stay below the domain bit. */
  lemma TraceIdsDistinctExactly(seed: nat, n: nat)
    requires IsWord(seed) && IsWord(n)
    ensures TraceIdsDistinct(seed, n) <==> n <= Pow2(39)
  {
    hide TraceId, Pow2;
    if n <= Pow2(39) {
      forall t: nat, u: nat | t < u < n ensures TraceId(seed, t) != TraceId(seed, u) {
        if TraceId(seed, t) == TraceId(seed, u) { SameTraceId(seed, t, u); }
      }
    } else {
      TraceIdsWrap(seed);
      assert TraceId(seed, 0) == TraceId(seed, Pow2(39));
    }
  }

  lemma SameTraceId(seed: nat, t: nat, u: nat)
    requires IsWord(seed) && t < Pow2(39) && u < Pow2(39) && TraceId(seed, t) == TraceId(seed, u)
    ensures t == u
  {
    hide Mix, Xor, TraceWord, BeBytes;
    WordsAreWords(t, 0, 0);
    WordsAreWords(u, 0, 0);
    SameInput(seed, TraceWord(t, 0), TraceWord(u, 0));
    SameInput(seed, TraceWord(u, 0), TraceWord(u, 0));
    var (a, b) := (TraceHalf(seed, t, 0), TraceHalf(seed, u, 0));
    assert BeBytes(a, 8) == TraceId(seed, t)[..8] && BeBytes(b, 8) == TraceId(seed, u)[..8];
    WordBytesInjective(a, b);
    TraceWordSum(t, 0);
    TraceWordSum(u, 0);
  }

  /** Index 2^39 reuses the id of index 0: its shifted index is the domain bit itself. */
  lemma TraceIdsWrap(seed: nat)
    ensures TraceId(seed, Pow2(39)) == TraceId(seed, 0)
  {
    hide Mix, Xor, BeBytes, TraceWord;
    TraceWordWraps(0);
    TraceWordWraps(1);
  }

  lemma TraceWordWraps(h: nat)
    ensures TraceWord(Pow2(39), h) == TraceWord(0, h)
  {
    hide Or;
    Powers();
    ShlSmall(Pow2(39), 1);
    ShlSmall(0, 1);
    OrIdempotent(TRACE_DOMAIN);
    OrZero(TRACE_DOMAIN);
    OrAbsorbs(TRACE_DOMAIN, 1);
    OrDisjoint(0, 1, 1);
  }

  lemma OrAbsorbs(a: nat, b: nat)
    requires IsWord(a) && IsWord(b)
    ensures Or(a, Or(a, b)) == Or(a, b)
  {
    OrWord(a, b);
    OrWord(a, Or(a, b));
    forall i: nat | i < 64 ensures Bit(Or(a, Or(a, b)), i) == Bit(Or(a, b), i) {
      BitOr(a, Or(a, b), i);
      BitOr(a, b, i);
    }
    WordsByBits(Or(a, Or(a, b)), Or(a, b));
  }

  /** The two halves of one id never agree, whatever the index; so no id is all zeros. */
  lemma TraceIdNotZero(seed: nat, t: nat)
    requires IsWord(seed)
    ensures TraceHalf(seed, t, 0) != TraceHalf(seed, t, 1)
    ensures TraceId(seed, t) != BeBytes(0, 8) + BeBytes(0, 8)
  {
    hide Mix, Xor, TraceWord, BeBytes;
    WordsAreWords(t, 0, 0);
    WordsAreWords(t, 1, 0);
    TraceWordParity(t);
    SameInput(seed, TraceWord(t, 0), TraceWord(t, 1));
    SameInput(seed, TraceWord(t, 1), TraceWord(t, 1));
    var (a, b, z) := (BeBytes(TraceHalf(seed, t, 0), 8), BeBytes(TraceHalf(seed, t, 1), 8), BeBytes(0, 8));
    if a + b == z + z {
      assert (a + b)[..8] == a && (z + z)[..8] == z && (a + b)[8..] == b && (z + z)[8..] == z;
      WordBytesInjective(TraceHalf(seed, t, 0), TraceHalf(seed, t, 1));
    }
  }

  lemma TraceWordParity(t: nat)
    ensures TraceWord(t, 0) != TraceWord(t, 1)
  {
    hide Or;
    var w := Shl(t, 1);
    assert Pow2(1) == 2;
    assert !Bit(w, 0) && !Bit(TRACE_DOMAIN, 0) && Bit(1, 0);
    BitOr(TRACE_DOMAIN, w, 0);
    BitOr(w, 1, 0);
    BitOr(TRACE_DOMAIN, Or(w, 1), 0);
  }

  /** Trace-id halves and raw span ids come from disjoint input domains. */
  lemma HalvesAvoidSpans(seed: nat, t: nat, h: nat, u: nat, s: nat)
    requires IsWord(seed) && t < Pow2(39) && h < 2 && IsWord(s)
    ensures TraceHalf(seed, t, h) != RawSpan(seed, u, s)
  {
    hide Mix, Xor, TraceWord, SpanWord;
    WordsAreWords(t, h, 0);
    WordsAreWords(u, 0, s);
    TraceWordSum(t, h);
    Powers();
    BitHigh(TraceWord(t, h), 41, 41);
    SpanWordHasDomainBit(u, s);
    SameInput(seed, TraceWord(t, h), SpanWord(u, s));
  }

  lemma SpanWordHasDomainBit(u: nat, s: nat)
    ensures Bit(SpanWord(u, s), 41)
  {
    hide Or, Shl;
    Powers();
    BitPow(41);
    BitOr(SPAN_DOMAIN, Shl(u, 8), 41);
    BitOr(Or(SPAN_DOMAIN, Shl(u, 8)), s, 41);
  }

  lemma {:induction false} BitPow(k: nat)
    ensures Bit(Pow2(k), k)
  {
    if k > 0 { BitPow(k - 1); }
  }

  // ----- span ids -----

  function SpanCount(t: nat): nat {
    3 + t % 3
  }

  predicate Generated(n: nat, t: nat, s: nat) {
    t < n && s < SpanCount(t)
  }

  ghost predicate SpanIdsDistinct(seed: nat, n: nat) {
    forall t: nat, s: nat, u: nat, r: nat ::
      Generated(n, t, s) && Generated(n, u, r) && SpanId(seed, t, s) == SpanId(seed, u, r) ==> t == u && s == r
  }

  /** Some generated span has this raw id. */
  ghost predicate Hits(seed: nat, n: nat, raw: nat) {
    exists t: nat, s: nat :: Generated(n, t, s) && SpanWord(t, s) == Xor(seed, Unmix(raw))
  }

  /** The zero remap lands on another generated id. */
  ghost predicate RemapCollides(seed: nat, n: nat) {
    Hits(seed, n, 0) && Hits(seed, n, REMAP)
  }

  lemma SpanIdNotZero(seed: nat, t: nat, s: nat)
    requires IsWord(seed) && IsWord(s)
    ensures SpanId(seed, t, s) != BeBytes(0, 8)
  {
    hide Mix, Xor, SpanWord, BeBytes;
    WordsAreWords(t, 0, s);
    SameInput(seed, SpanWord(t, s), SpanWord(t, s));
    var raw := RawSpan(seed, t, s);
    var id := if raw == 0 then REMAP else raw;
    if SpanId(seed, t, s) == BeBytes(0, 8) { WordBytesInjective(id, 0); }
  }

  /** Span ids of an `n`-trace corpus are pairwise distinct exactly when the
      indices stay below the domain bit and the zero remap does not collide. */
  lemma SpanIdsDistinctExactly(seed: nat, n: nat)
    requires IsWord(seed) && IsWord(n)
    ensures SpanIdsDistinct(seed, n) <==> n <= Pow2(33) && !RemapCollides(seed, n)
  {
    hide SpanId, SpanWord, Xor, Unmix;
    if n > Pow2(33) {
      SpanIdsWrap(seed);
      assert Generated(n, 0, 0) && Generated(n, Pow2(33), 0);
    } else if RemapCollides(seed, n) {
      var t: nat, s: nat :| Generated(n, t, s) && SpanWord(t, s) == Xor(seed, Unmix(0));
      var u: nat, r: nat :| Generated(n, u, r) && SpanWord(u, r) == Xor(seed, Unmix(REMAP));
      RawOf(seed, t, s, 0);
      RawOf(seed, u, r, REMAP);
      SharedRemap(seed, t, s, u, r);
    } else {
      forall t: nat, s: nat, u: nat, r: nat
        | Generated(n, t, s) && Generated(n, u, r) && SpanId(seed, t, s) == SpanId(seed, u, r)
        ensures t == u && s == r
      {
        SameSpanId(seed, n, t, s, u, r);
      }
    }
  }

  /** The raw id is `raw` exactly for the input word that unmixes to it. */
  lemma RawOf(seed: nat, t: nat, s: nat, raw: nat)
    requires IsWord(seed) && IsWord(s) && IsWord(raw)
    ensures IsWord(RawSpan(seed, t, s))
    ensures RawSpan(seed, t, s) == raw <==> SpanWord(t, s) == Xor(seed, Unmix(raw))
  {
    hide Mix, Unmix, Xor, SpanWord;
    var w := SpanWord(t, s);
    WordsAreWords(t, 0, s);
    XorWord(seed, w);
    MixIsBijection(Xor(seed, w));
    MixIsBijection(raw);
    XorCancel(seed, w);
    XorCancel(seed, Unmix(raw));
  }

  lemma SharedRemap(seed: nat, t: nat, s: nat, u: nat, r: nat)
    requires RawSpan(seed, t, s) == 0 && RawSpan(seed, u, r) == REMAP
    ensures SpanId(seed, t, s) == SpanId(seed, u, r) && !(t == u && s == r)
  {
  }

  lemma SpanIdsWrap(seed: nat)
    ensures SpanId(seed, Pow2(33), 0) == SpanId(seed, 0, 0)
  {
    hide Mix, Xor, BeBytes, Or;
    Powers();
    ShlSmall(Pow2(33), 8);
    ShlSmall(0, 8);
    OrIdempotent(SPAN_DOMAIN);
    OrZero(SPAN_DOMAIN);
  }

  lemma SameSpanId(seed: nat, n: nat, t: nat, s: nat, u: nat, r: nat)
    requires IsWord(seed) && n <= Pow2(33) && !RemapCollides(seed, n)
    requires Generated(n, t, s) && Generated(n, u, r) && SpanId(seed, t, s) == SpanId(seed, u, r)
    ensures t == u && s == r
  {
    hide Mix, Unmix, Xor, SpanWord, BeBytes, RawSpan;
    var (a, b) := (RawSpan(seed, t, s), RawSpan(seed, u, r));
    RawOf(seed, t, s, 0);
    RawOf(seed, t, s, REMAP);
    RawOf(seed, u, r, 0);
    RawOf(seed, u, r, REMAP);
    WordBytesInjective(if a == 0 then REMAP else a, if b == 0 then REMAP else b);
    assert a == b;
    RawOf(seed, t, s, b);
    RawOf(seed, u, r, b);
    SpanWordSum(t, s);
    SpanWordSum(u, r);
  }
}
