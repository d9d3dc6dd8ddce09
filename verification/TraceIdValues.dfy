/** The identifiers of `e2e/src/traces_corpus.rs` as values: the mix at a
    published point, the words an id's bytes read back to, and exactly when two
    runs share an id. */
module TraceIdValues {
  import opened Arithmetic
  import opened TraceIds
  import opened Words

  // ----- a published value of the mix -----

  function Differ(x: nat, y: nat): nat { if x == y then 0 else 1 }

  /** One bit of an exclusive or. */
  lemma XorBit(a: nat, b: nat, x: nat, y: nat)
    requires x < 2 && y < 2
    ensures Xor(2 * a + x, 2 * b + y) == 2 * Xor(a, b) + Differ(x, y)
  {
    assert (2 * a + x) / 2 == a && (2 * a + x) % 2 == x && (2 * b + y) / 2 == b && (2 * b + y) % 2 == y;
    assert a == 0 && b == 0 ==> Xor(a, b) == 0;
  }

  /** One hexadecimal digit. */
  lemma XorHex(a: nat, b: nat, x3: nat, x2: nat, x1: nat, x0: nat, y3: nat, y2: nat, y1: nat, y0: nat)
    requires x0 < 2 && x1 < 2 && x2 < 2 && x3 < 2 && y0 < 2 && y1 < 2 && y2 < 2 && y3 < 2
    ensures Xor(16 * a + (8 * x3 + 4 * x2 + 2 * x1 + x0), 16 * b + (8 * y3 + 4 * y2 + 2 * y1 + y0))
         == 16 * Xor(a, b) + 8 * Differ(x3, y3) + 4 * Differ(x2, y2) + 2 * Differ(x1, y1) + Differ(x0, y0)
  {
    hide Xor;
    XorBit(a, b, x3, y3);
    XorBit(2 * a + x3, 2 * b + y3, x2, y2);
    XorBit(2 * (2 * a + x3) + x2, 2 * (2 * b + y3) + y2, x1, y1);
    XorBit(2 * (2 * (2 * a + x3) + x2) + x1, 2 * (2 * (2 * b + y3) + y2) + y1, x0, y0);
  }

  lemma {:induction false} XorZero(a: nat)
    ensures Xor(a, 0) == a
  {
    if a > 0 {
      XorZero(a / 2);
      XorBit(a / 2, 0, a % 2, 0);
    }
  }

  lemma {:induction false} ShrDivides(n: nat, k: nat)
    ensures Shr(n, k) == n / Pow2(k)
  {
    if k > 0 {
      ShrDivides(n / 2, k - 1);
      DivTwice(n, Pow2(k - 1));
    }
  }

  lemma DivTwice(n: nat, p: nat)
    requires p > 0
    ensures n / 2 / p == n / (2 * p)
  {
    var (h, d) := (n / 2, n % 2);
    var (q, r) := (h / p, h % p);
    assert n == 2 * h + d && h == q * p + r;
    assert q * (2 * p) == 2 * (q * p);
    DivUnique(n, 2 * p, q, 2 * r + d);
  }

  lemma ShiftAmounts(n: nat)
    ensures Shr(n, 27) == n / 0x800_0000 && Shr(n, 30) == n / 0x4000_0000 && Shr(n, 31) == n / 0x8000_0000
  {
    hide Pow2, Shr;
    ShrDivides(n, 27);
    ShrDivides(n, 30);
    ShrDivides(n, 31);
    PowByte();
    PowSum(1, 1);
    PowSum(1, 2);
    PowSum(8, 8);
    PowSum(16, 8);
    PowSum(24, 3);
    PowSum(27, 3);
    PowSum(30, 1);
  }

  lemma FirstShift()
    ensures XorShift(0x9E37_79B9_7F4A_7C15, 30) == 0x9E37_79BB_0797_9AF0
  {
    hide Xor, Shr;
    ShiftAmounts(0x9E37_79B9_7F4A_7C15);
    XorZero(0x9E3_779B);
    XorHex(0x9E3_779B, 0x0, 1, 0, 0, 1, 0, 0, 1, 0);
    XorHex(0x9E37_79B9, 0x2, 0, 1, 1, 1, 0, 1, 1, 1);
    XorHex(0x9_E377_9B97, 0x27, 1, 1, 1, 1, 1, 0, 0, 0);
    XorHex(0x9E_3779_B97F, 0x278, 0, 1, 0, 0, 1, 1, 0, 1);
    XorHex(0x9E3_779B_97F4, 0x278D, 1, 0, 1, 0, 1, 1, 0, 1);
    XorHex(0x9E37_79B9_7F4A, 0x2_78DD, 0, 1, 1, 1, 1, 1, 1, 0);
    XorHex(0x9_E377_9B97_F4A7, 0x27_8DDE, 1, 1, 0, 0, 0, 1, 1, 0);
    XorHex(0x9E_3779_B97F_4A7C, 0x278_DDE6, 0, 0, 0, 1, 1, 1, 1, 0);
    XorHex(0x9E3_779B_97F4_A7C1, 0x278D_DE6E, 0, 1, 0, 1, 0, 1, 0, 1);
  }

  lemma SecondShift()
    ensures XorShift(0x6F68_261B_57E7_A770, 27) == 0x6F68_2616_BAE3_641A
  {
    hide Xor, Shr;
    ShiftAmounts(0x6F68_261B_57E7_A770);
    XorZero(0x6F6_8261);
    XorHex(0x6F6_8261, 0x0, 1, 0, 1, 1, 1, 1, 0, 1);
    XorHex(0x6F68_261B, 0xD, 0, 1, 0, 1, 1, 1, 1, 0);
    XorHex(0x6_F682_61B5, 0xDE, 0, 1, 1, 1, 1, 1, 0, 1);
    XorHex(0x6F_6826_1B57, 0xDED, 1, 1, 1, 0, 0, 0, 0, 0);
    XorHex(0x6F6_8261_B57E, 0xDED0, 0, 1, 1, 1, 0, 1, 0, 0);
    XorHex(0x6F68_261B_57E7, 0xD_ED04, 1, 0, 1, 0, 1, 1, 0, 0);
    XorHex(0x6_F682_61B5_7E7A, 0xDE_D04C, 0, 1, 1, 1, 0, 0, 1, 1);
    XorHex(0x6F_6826_1B57_E7A7, 0xDED_04C3, 0, 1, 1, 1, 0, 1, 1, 0);
    XorHex(0x6F6_8261_B57E_7A77, 0xDED0_4C36, 0, 0, 0, 0, 1, 0, 1, 0);
  }

  lemma ThirdShift()
    ensures XorShift(0xE220_A838_BF5C_9DDE, 31) == 0xE220_A839_7B1D_CDAF
  {
    hide Xor, Shr;
    ShiftAmounts(0xE220_A838_BF5C_9DDE);
    XorZero(0xE22_0A83);
    XorHex(0xE22_0A83, 0x0, 1, 0, 0, 0, 0, 0, 0, 1);
    XorHex(0xE220_A838, 0x1, 1, 0, 1, 1, 1, 1, 0, 0);
    XorHex(0xE_220A_838B, 0x1C, 1, 1, 1, 1, 0, 1, 0, 0);
    XorHex(0xE2_20A8_38BF, 0x1C4, 0, 1, 0, 1, 0, 1, 0, 0);
    XorHex(0xE22_0A83_8BF5, 0x1C44, 1, 1, 0, 0, 0, 0, 0, 1);
    XorHex(0xE220_A838_BF5C, 0x1_C441, 1, 0, 0, 1, 0, 1, 0, 1);
    XorHex(0xE_220A_838B_F5C9, 0x1C_4415, 1, 1, 0, 1, 0, 0, 0, 0);
    XorHex(0xE2_20A8_38BF_5C9D, 0x1C4_4150, 1, 1, 0, 1, 0, 1, 1, 1);
    XorHex(0xE22_0A83_8BF5_C9DD, 0x1C44_1507, 1, 1, 1, 0, 0, 0, 0, 1);
  }


  lemma Products()
    ensures WrappingMul(0x9E37_79BB_0797_9AF0, MUL1) == 0x6F68_261B_57E7_A770
    ensures WrappingMul(0x6F68_2616_BAE3_641A, MUL2) == 0xE220_A838_BF5C_9DDE
  {
    DivUnique(0x9E37_79BB_0797_9AF0 * MUL1, WORDS, 0x7641_F309_3531_F526, 0x6F68_261B_57E7_A770);
    DivUnique(0x6F68_2616_BAE3_641A * MUL2, WORDS, 0x40C2_DABA_32CD_B214, 0xE220_A838_BF5C_9DDE);
  }

  /** The first output of splitmix64 from state 0, as published with the generator. */
  lemma MixOfZero()
    ensures Mix(0) == 0xE220_A839_7B1D_CDAF
  {
    hide XorShift, WrappingMul;
    FirstShift();
    SecondShift();
    ThirdShift();
    Products();
  }

  // ----- what the bytes read back to -----

  /** Big-endian reading. */
  function FromBe(b: seq<nat>): nat {
    if b == [] then 0 else 256 * FromBe(b[..|b| - 1]) + b[|b| - 1]
  }

  lemma {:induction false} BytesReadBack(n: nat, k: nat)
    requires n < Pow2(8 * k)
    ensures FromBe(BeBytes(n, k)) == n
    ensures forall i :: 0 <= i < k ==> BeBytes(n, k)[i] < 256
  {
    if k > 0 {
      PowByte();
      PowSum(8, 8 * (k - 1));
      DivBound(n, Pow2(8 * (k - 1)));
      BytesReadBack(n / 256, k - 1);
      var b := BeBytes(n, k);
      assert b[..k - 1] == BeBytes(n / 256, k - 1) && b[k - 1] == n % 256;
    }
  }

  lemma WordReadsBack(n: nat)
    requires IsWord(n)
    ensures FromBe(BeBytes(n, 8)) == n && forall i :: 0 <= i < 8 ==> BeBytes(n, 8)[i] < 256
  {
    Pow64();
    BytesReadBack(n, 8);
  }

  /** The first eight bytes of a trace id are the mix of the even word of its index, the last
      eight of the odd one. */
  lemma TraceIdReadsBack(seed: nat, t: nat)
    requires IsWord(seed) && t < Pow2(39)
    ensures var id := TraceId(seed, t);
      && |id| == 16 && (forall i :: 0 <= i < 16 ==> id[i] < 256)
      && FromBe(id[..8]) == Mix(Xor(seed, 0x100_0000_0000 + 2 * t))
      && FromBe(id[8..]) == Mix(Xor(seed, 0x100_0000_0000 + 2 * t + 1))
  {
    hide Mix, Xor, TraceWord, BeBytes, FromBe;
    var (hi, lo) := (TraceHalf(seed, t, 0), TraceHalf(seed, t, 1));
    TraceWordSum(t, 0);
    TraceWordSum(t, 1);
    WordsAreWords(t, 0, 0);
    WordsAreWords(t, 1, 0);
    SameInput(seed, TraceWord(t, 0), TraceWord(t, 0));
    SameInput(seed, TraceWord(t, 1), TraceWord(t, 1));
    WordReadsBack(hi);
    WordReadsBack(lo);
    assert TraceId(seed, t)[..8] == BeBytes(hi, 8) && TraceId(seed, t)[8..] == BeBytes(lo, 8);
  }

  /** A span id is the mix of its own word, and the remap constant where that is zero. */
  lemma SpanIdReadsBack(seed: nat, t: nat, s: nat)
    requires IsWord(seed) && t < Pow2(33) && s < 256
    ensures var raw := Mix(Xor(seed, 0x200_0000_0000 + 256 * t + s));
      && |SpanId(seed, t, s)| == 8 && (forall i :: 0 <= i < 8 ==> SpanId(seed, t, s)[i] < 256)
      && FromBe(SpanId(seed, t, s)) == if raw == 0 then 0x0705_0301_0906_0402 else raw
  {
    hide Mix, Xor, SpanWord, BeBytes, FromBe;
    SpanWordSum(t, s);
    WordsAreWords(t, 0, s);
    SameInput(seed, SpanWord(t, s), SpanWord(t, s));
    var raw := RawSpan(seed, t, s);
    WordReadsBack(if raw == 0 then REMAP else raw);
  }

  // ----- two runs -----

  /** Moving a word across. */
  lemma XorAcross(a: nat, x: nat, b: nat, y: nat)
    requires IsWord(a) && IsWord(x) && IsWord(b) && IsWord(y)
    ensures Xor(a, x) == Xor(b, y) <==> Xor(a, b) == Xor(x, y)
  {
    if Xor(a, x) == Xor(b, y) { XorMoves(a, x, b, y); }
    if Xor(a, b) == Xor(x, y) { XorMoves(a, b, x, y); }
  }

  lemma XorMoves(a: nat, x: nat, b: nat, y: nat)
    requires IsWord(a) && IsWord(x) && IsWord(b) && IsWord(y) && Xor(a, x) == Xor(b, y)
    ensures Xor(a, b) == Xor(x, y)
  {
    hide Bit, Xor;
    XorWord(a, b);
    XorWord(x, y);
    forall i: nat | i < 64 ensures Bit(Xor(a, b), i) == Bit(Xor(x, y), i) {
      BitXor(a, x, i);
      BitXor(b, y, i);
      BitXor(a, b, i);
      BitXor(x, y, i);
    }
    WordsByBits(Xor(a, b), Xor(x, y));
  }

  /** A common leading bit cancels. */
  lemma {:induction false} XorAbove(k: nat, x: nat, y: nat)
    requires x < Pow2(k) && y < Pow2(k)
    ensures Xor(Pow2(k) + x, Pow2(k) + y) == Xor(x, y)
  {
    hide Xor, Differ;
    if k == 0 {
      XorSelf(1);
      XorSelf(0);
    } else {
      var (p, a, b) := (Pow2(k - 1), x / 2, y / 2);
      assert Pow2(k) + x == 2 * (p + a) + x % 2 && Pow2(k) + y == 2 * (p + b) + y % 2;
      XorAbove(k - 1, a, b);
      XorBit(p + a, p + b, x % 2, y % 2);
      XorBit(a, b, x % 2, y % 2);
    }
  }

  /** Mixed words of two runs agree exactly when the words differ as the id seeds do. */
  lemma SameMixed(a: nat, x: nat, b: nat, y: nat)
    requires IsWord(a) && IsWord(x) && IsWord(b) && IsWord(y)
    ensures IsWord(Mix(Xor(a, x))) && IsWord(Mix(Xor(b, y)))
    ensures Mix(Xor(a, x)) == Mix(Xor(b, y)) <==> Xor(a, b) == Xor(x, y)
  {
    hide Mix, Unmix, Xor;
    XorWord(a, x);
    XorWord(b, y);
    MixIsBijection(Xor(a, x));
    MixIsBijection(Xor(b, y));
    XorAcross(a, x, b, y);
  }

  lemma TraceWordsDiffer(t: nat, u: nat, h: nat)
    requires t < Pow2(39) && u < Pow2(39) && h < 2
    ensures Xor(TraceWord(t, h), TraceWord(u, h)) == 2 * Xor(t, u)
  {
    hide Xor, Pow2, TraceWord;
    Powers();
    TraceWordSum(t, h);
    TraceWordSum(u, h);
    XorAbove(39, t, u);
    XorBit(Pow2(39) + t, Pow2(39) + u, h, h);
  }

  /** Two runs give two traces one id exactly when their id seeds differ as the doubled indices do. */
  lemma RunsShareTraceIdExactly(a: nat, t: nat, b: nat, u: nat)
    requires IsWord(a) && IsWord(b) && t < Pow2(39) && u < Pow2(39)
    ensures TraceId(a, t) == TraceId(b, u) <==> Xor(a, b) == 2 * Xor(t, u)
  {
    hide Mix, Xor, TraceWord, BeBytes, Pow2;
    forall h: nat | h < 2
      ensures TraceHalf(a, t, h) == TraceHalf(b, u, h) <==> Xor(a, b) == 2 * Xor(t, u)
      ensures BeBytes(TraceHalf(a, t, h), 8) == BeBytes(TraceHalf(b, u, h), 8)
         <==> TraceHalf(a, t, h) == TraceHalf(b, u, h)
    {
      TraceWordsDiffer(t, u, h);
      WordsAreWords(t, h, 0);
      WordsAreWords(u, h, 0);
      SameMixed(a, TraceWord(t, h), b, TraceWord(u, h));
      var (x, y) := (TraceHalf(a, t, h), TraceHalf(b, u, h));
      if BeBytes(x, 8) == BeBytes(y, 8) { WordBytesInjective(x, y); }
    }
    assert BeBytes(TraceHalf(a, t, 0), 8) == TraceId(a, t)[..8];
    assert BeBytes(TraceHalf(b, u, 0), 8) == TraceId(b, u)[..8];
  }

  /** The same for spans, before the zero remap. */
  lemma RunsShareRawSpanExactly(a: nat, t: nat, s: nat, b: nat, u: nat, r: nat)
    requires IsWord(a) && IsWord(b) && t < Pow2(33) && u < Pow2(33) && s < 256 && r < 256
    ensures RawSpan(a, t, s) == RawSpan(b, u, r) <==> Xor(a, b) == Xor(256 * t + s, 256 * u + r)
  {
    hide Mix, Xor, SpanWord, Pow2;
    Powers();
    SpanWordSum(t, s);
    SpanWordSum(u, r);
    XorAbove(41, 256 * t + s, 256 * u + r);
    WordsAreWords(t, 0, s);
    WordsAreWords(u, 0, r);
    SameMixed(a, SpanWord(t, s), b, SpanWord(u, r));
  }

  /** Runs do share ids when their id seeds differ in bit 1 alone. */
  lemma NeighbouringSeedsShareAnId(a: nat)
    requires IsWord(a)
    ensures IsWord(Xor(a, 2)) && Xor(a, 2) != a && TraceId(a, 0) == TraceId(Xor(a, 2), 1)
  {
    hide Xor, TraceId, Pow2;
    Powers();
    XorWord(a, 2);
    XorCancel(a, 2);
    XorZero(1);
    XorCommutes(0, 1);
    RunsShareTraceIdExactly(a, 0, Xor(a, 2), 1);
    if Xor(a, 2) == a { XorSelf(a); }
  }

  lemma {:induction false} XorSelf(a: nat)
    ensures Xor(a, a) == 0
  {
    if a > 0 { XorSelf(a / 2); }
  }

  /** Runs whose id seeds differ in bit 41 or above share none. */
  lemma DistantSeedsShareNothing(a: nat, b: nat)
    requires IsWord(a) && IsWord(b) && Xor(a, b) >= Pow2(41)
    ensures forall t: nat, u: nat :: t < Pow2(39) && u < Pow2(39) ==> TraceId(a, t) != TraceId(b, u)
    ensures forall t: nat, s: nat, u: nat, r: nat :: t < Pow2(33) && u < Pow2(33) && s < 256 && r < 256 ==>
      RawSpan(a, t, s) != RawSpan(b, u, r)
  {
    hide Xor, TraceId, RawSpan, Pow2;
    Powers();
    forall t: nat, u: nat | t < Pow2(39) && u < Pow2(39) ensures TraceId(a, t) != TraceId(b, u) {
      RunsShareTraceIdExactly(a, t, b, u);
      XorBound(t, u, 39);
    }
    forall t: nat, s: nat, u: nat, r: nat | t < Pow2(33) && u < Pow2(33) && s < 256 && r < 256
      ensures RawSpan(a, t, s) != RawSpan(b, u, r)
    {
      RunsShareRawSpanExactly(a, t, s, b, u, r);
      XorBound(256 * t + s, 256 * u + r, 41);
    }
  }

  // ----- the fold of the run id -----

  lemma {:induction false} UnfoldInjective(acc: nat, acc': nat, runId: seq<nat>)
    requires IsWord(acc) && IsWord(acc') && forall i :: 0 <= i < |runId| ==> runId[i] < 256
    requires Unfold(acc, runId) == Unfold(acc', runId)
    ensures acc == acc'
    decreases |runId|
  {
    hide Unmix, Mix, Xor;
    if runId != [] {
      var b := runId[|runId| - 1];
      MixIsBijection(acc);
      MixIsBijection(acc');
      XorWord(Unmix(acc), b);
      XorWord(Unmix(acc'), b);
      XorCancelRight(Unmix(acc), b);
      XorCancelRight(Unmix(acc'), b);
      UnfoldInjective(Xor(Unmix(acc), b), Xor(Unmix(acc'), b), runId[..|runId| - 1]);
    }
  }

  /** Run ids that differ in one byte never fold to one id seed. */
  lemma {:induction false} OneByteApart(acc: nat, p: seq<nat>, q: seq<nat>, i: nat)
    requires IsWord(acc) && |p| == |q| && i < |p| && p[i] != q[i]
    requires forall j :: 0 <= j < |p| ==> p[j] < 256 && q[j] < 256 && (j != i ==> p[j] == q[j])
    ensures Unfold(acc, p) != Unfold(acc, q)
    decreases |p|
  {
    hide Unmix, Mix, Xor;
    var n := |p| - 1;
    MixIsBijection(acc);
    XorWord(Unmix(acc), p[n]);
    XorWord(Unmix(acc), q[n]);
    if i < n {
      OneByteApart(Xor(Unmix(acc), p[n]), p[..n], q[..n], i);
    } else {
      assert p[..n] == q[..n];
      XorCancel(Unmix(acc), p[n]);
      XorCancel(Unmix(acc), q[n]);
      if Unfold(acc, p) == Unfold(acc, q) {
        UnfoldInjective(Xor(Unmix(acc), p[n]), Xor(Unmix(acc), q[n]), p[..n]);
      }
    }
  }
}
