/** The per-service totals of `e2e/src/corpus.rs`: their range over all noise, what
    a service's block of series contributes, and a sizing condition under which
    neighbouring services are ordered. */
module ServiceTotals {
  import opened Arithmetic
  import opened Common
  import opened MetricCorpus
  import opened MetricValues

  // ----- gauges -----

  /** `sum by (service)` of the live gauges of service `s`. */
  function GaugeTotal(mix: Mix, gs: seq<Gauge>, s: nat, t: nat): nat {
    if gs == [] then 0
    else
      var g := gs[|gs| - 1];
      GaugeTotal(mix, gs[..|gs| - 1], s, t) + if g.service == s && !GaugeIsStale(g, t) then GaugeValue(mix, g, t) else 0
  }

  function GaugeLive(gs: seq<Gauge>, s: nat, t: nat): nat {
    if gs == [] then 0
    else
      var g := gs[|gs| - 1];
      GaugeLive(gs[..|gs| - 1], s, t) + if g.service == s && !GaugeIsStale(g, t) then 1 else 0
  }

  /** The total without noise. */
  function GaugeLow(gs: seq<Gauge>, s: nat, t: nat): nat {
    if gs == [] then 0
    else
      var g := gs[|gs| - 1];
      GaugeLow(gs[..|gs| - 1], s, t) + if g.service == s && !GaugeIsStale(g, t) then GaugeBase(g) else 0
  }

  lemma {:induction false} GaugeTotalBounds(mix: Mix, gs: seq<Gauge>, s: nat, t: nat)
    ensures GaugeLow(gs, s, t) <= GaugeTotal(mix, gs, s, t) <= GaugeLow(gs, s, t) + 99 * GaugeLive(gs, s, t)
  {
    if gs != [] { GaugeTotalBounds(mix, gs[..|gs| - 1], s, t); }
  }

  /** Noise at its largest for service `s` and absent elsewhere. */
  function WorstMix(s: nat, top: nat): Mix { (x: seq<nat>) => if |x| >= 2 && x[1] == s then top else 0 }

  lemma {:induction false} GaugeWorst(gs: seq<Gauge>, s: nat, u: nat, t: nat)
    ensures GaugeTotal(WorstMix(s, 99), gs, u, t) == GaugeLow(gs, u, t) + if u == s then 99 * GaugeLive(gs, u, t) else 0
  {
    if gs != [] {
      var g := gs[|gs| - 1];
      GaugeWorst(gs[..|gs| - 1], s, u, t);
      assert [GAUGE_TAG, g.service, g.instance, g.slot, t][1] == g.service;
    }
  }

  ghost predicate GaugesOrdered(gs: seq<Gauge>, s: nat, t: nat) {
    forall mix: Mix :: GaugeTotal(mix, gs, s, t) < GaugeTotal(mix, gs, s + 1, t)
  }

  /** Two neighbouring services stay ordered under every noise exactly when the noisiest lower
      one stays below the quietest upper one. */
  lemma GaugeOrderExactly(gs: seq<Gauge>, s: nat, t: nat)
    ensures GaugesOrdered(gs, s, t) <==> GaugeLow(gs, s, t) + 99 * GaugeLive(gs, s, t) < GaugeLow(gs, s + 1, t)
  {
    hide GaugeTotal, GaugeLow, GaugeLive, WorstMix;
    GaugeWorst(gs, s, s, t);
    GaugeWorst(gs, s, s + 1, t);
    forall mix: Mix
      ensures GaugeTotal(mix, gs, s, t) <= GaugeLow(gs, s, t) + 99 * GaugeLive(gs, s, t)
      ensures GaugeTotal(mix, gs, s + 1, t) >= GaugeLow(gs, s + 1, t)
    {
      GaugeTotalBounds(mix, gs, s, t);
      GaugeTotalBounds(mix, gs, s + 1, t);
    }
    if GaugesOrdered(gs, s, t) {
      assert GaugeTotal(WorstMix(s, 99), gs, s, t) < GaugeTotal(WorstMix(s, 99), gs, s + 1, t);
    }
  }

  // ----- counters -----

  function CounterTotal(mix: Mix, cs: seq<Counter>, s: nat, t: nat): nat {
    if cs == [] then 0
    else
      var c := cs[|cs| - 1];
      CounterTotal(mix, cs[..|cs| - 1], s, t) + if c.service == s then CounterValue(mix, c, t) else 0
  }

  /** How many increments a counter has accumulated since its last reset. */
  function Increments(c: Counter, t: nat): nat {
    if c.resetAt.Some? && t >= c.resetAt.value then t - c.resetAt.value else t + 1
  }

  function Work(cs: seq<Counter>, s: nat, t: nat): nat {
    if cs == [] then 0
    else
      var c := cs[|cs| - 1];
      Work(cs[..|cs| - 1], s, t) + if c.service == s then Increments(c, t) else 0
  }

  lemma {:induction false} SumBounds(mix: Mix, c: Counter, lo: nat, hi: nat)
    requires lo <= hi
    ensures var b := (c.service + 1) * COUNTER_SERVICE_STRIDE;
      (hi - lo) * b <= SumIncrements(mix, c, lo, hi) <= (hi - lo) * (b + 49)
    decreases hi
  {
    if lo < hi {
      var b := (c.service + 1) * COUNTER_SERVICE_STRIDE;
      SumBounds(mix, c, lo, hi - 1);
      assert (hi - lo) * b == (hi - 1 - lo) * b + b;
      assert (hi - lo) * (b + 49) == (hi - 1 - lo) * (b + 49) + (b + 49);
    }
  }

  lemma ValueBounds(mix: Mix, c: Counter, t: nat)
    ensures var b := (c.service + 1) * COUNTER_SERVICE_STRIDE;
      Increments(c, t) * b <= CounterValue(mix, c, t) <= Increments(c, t) * (b + 49)
  {
    hide SumIncrements;
    SumBounds(mix, c, if c.resetAt.Some? && t >= c.resetAt.value then c.resetAt.value + 1 else 0, t + 1);
  }

  lemma {:induction false} CounterTotalBounds(mix: Mix, cs: seq<Counter>, s: nat, t: nat)
    ensures var b := (s + 1) * COUNTER_SERVICE_STRIDE;
      Work(cs, s, t) * b <= CounterTotal(mix, cs, s, t) <= Work(cs, s, t) * (b + 49)
  {
    if cs != [] {
      hide CounterValue, Increments;
      var (b, c, w) := ((s + 1) * COUNTER_SERVICE_STRIDE, cs[|cs| - 1], Work(cs[..|cs| - 1], s, t));
      CounterTotalBounds(mix, cs[..|cs| - 1], s, t);
      ValueBounds(mix, c, t);
      Spread(w, Increments(c, t), b);
      Spread(w, Increments(c, t), b + 49);
    }
  }

  lemma {:induction false} WorstSum(c: Counter, s: nat, lo: nat, hi: nat)
    requires lo <= hi
    ensures var b := (c.service + 1) * COUNTER_SERVICE_STRIDE + if c.service == s then 49 else 0;
      SumIncrements(WorstMix(s, 49), c, lo, hi) == (hi - lo) * b
    decreases hi
  {
    if lo < hi {
      var b := (c.service + 1) * COUNTER_SERVICE_STRIDE + if c.service == s then 49 else 0;
      WorstSum(c, s, lo, hi - 1);
      assert [COUNTER_TAG, c.service, c.instance, hi - 1][1] == c.service;
      assert CounterIncrement(WorstMix(s, 49), c, hi - 1) == b;
      Spread(hi - 1 - lo, 1, b);
    }
  }

  lemma {:induction false} CounterWorst(cs: seq<Counter>, s: nat, u: nat, t: nat)
    ensures CounterTotal(WorstMix(s, 49), cs, u, t)
         == Work(cs, u, t) * ((u + 1) * COUNTER_SERVICE_STRIDE + if u == s then 49 else 0)
  {
    if cs != [] {
      hide SumIncrements, WorstMix;
      var (b, c) := ((u + 1) * COUNTER_SERVICE_STRIDE + if u == s then 49 else 0, cs[|cs| - 1]);
      CounterWorst(cs[..|cs| - 1], s, u, t);
      WorstSum(c, s, if c.resetAt.Some? && t >= c.resetAt.value then c.resetAt.value + 1 else 0, t + 1);
      assert c.service == u ==> CounterValue(WorstMix(s, 49), c, t) == Increments(c, t) * b;
      Spread(Work(cs[..|cs| - 1], u, t), Increments(c, t), b);
    }
  }

  ghost predicate CountersOrdered(cs: seq<Counter>, s: nat, t: nat) {
    forall mix: Mix :: CounterTotal(mix, cs, s, t) < CounterTotal(mix, cs, s + 1, t)
  }

  /** The same for counters: only the accumulated increments per service matter. */
  lemma CounterOrderExactly(cs: seq<Counter>, s: nat, t: nat)
    ensures CountersOrdered(cs, s, t) <==>
      Work(cs, s, t) * ((s + 1) * COUNTER_SERVICE_STRIDE + 49) < Work(cs, s + 1, t) * ((s + 2) * COUNTER_SERVICE_STRIDE)
  {
    hide CounterTotal, Work, WorstMix;
    CounterWorst(cs, s, s, t);
    CounterWorst(cs, s, s + 1, t);
    forall mix: Mix
      ensures CounterTotal(mix, cs, s, t) <= Work(cs, s, t) * ((s + 1) * COUNTER_SERVICE_STRIDE + 49)
      ensures CounterTotal(mix, cs, s + 1, t) >= Work(cs, s + 1, t) * ((s + 2) * COUNTER_SERVICE_STRIDE)
    {
      CounterTotalBounds(mix, cs, s, t);
      CounterTotalBounds(mix, cs, s + 1, t);
    }
    if CountersOrdered(cs, s, t) {
      assert CounterTotal(WorstMix(s, 49), cs, s, t) < CounterTotal(WorstMix(s, 49), cs, s + 1, t);
    }
  }

  // ----- service blocks -----

  /** Position `flat` lies in block `flat / m`. */
  lemma BlockOf(flat: nat, m: nat, s: nat)
    requires m > 0
    ensures flat / m == s <==> s * m <= flat < (s + 1) * m
  {
    var (q, r) := (flat / m, flat % m);
    assert flat == q * m + r && 0 <= r < m;
    assert (q + 1) * m == q * m + m && (s + 1) * m == s * m + m;
    if q < s {
      assert (q + 1) * m <= s * m by { MulLe(q + 1, s, m); }
    } else if s < q {
      assert (s + 1) * m <= q * m by { MulLe(s + 1, q, m); }
    }
  }

  /** Two divisions are one by the product. */
  lemma DivTwice(flat: nat, a: nat, b: nat)
    requires a > 0 && b > 0
    ensures b * a > 0 && flat / a / b == flat / (b * a)
  {
    var (q, r) := (flat / a, flat % a);
    var (s, i) := (q / b, q % b);
    assert flat == q * a + r && q == s * b + i;
    assert q * a == s * (b * a) + i * a by { Spread(s * b, i, a); }
    assert i * a + r < b * a by { MulLe(i + 1, b, a); Spread(i, 1, a); }
    DivUnique(flat, b * a, s, i * a + r);
  }

  /** How many multiples of `d` lie below `n`. */
  function Multiples(n: nat, d: nat): nat
    requires d > 0
  {
    (n + d - 1) / d
  }

  function Clip(n: nat, lo: nat, hi: nat): nat { if n < lo then lo else if n > hi then hi else n }

  /** Live gauges among the first `n` positions. */
  function LiveBelow(n: nat, stale: bool): int { if stale then n - Multiples(n, GAUGE_STALE_MODULUS) else n }

  lemma GaugeListSnoc(f: Families, cutoff: nat, n: nat)
    ensures GaugeList(f, cutoff, n + 1) == GaugeList(f, cutoff, n) + [GaugeAt(f, cutoff, n)]
  {
  }

  lemma LiveSnoc(gs: seq<Gauge>, g: Gauge, s: nat, t: nat)
    ensures GaugeLive(gs + [g], s, t) == GaugeLive(gs, s, t) + if g.service == s && !GaugeIsStale(g, t) then 1 else 0
  {
    assert (gs + [g])[..|gs|] == gs;
  }

  lemma GaugeBlock(f: Families, cutoff: nat, flat: nat, s: nat, t: nat)
    requires f.gaugeInstances > 0 && f.gaugeSlots > 0
    ensures var m := f.gaugeInstances * f.gaugeSlots;
      GaugeAt(f, cutoff, flat).service == s <==> s * m <= flat < (s + 1) * m
    ensures GaugeIsStale(GaugeAt(f, cutoff, flat), t) <==> t >= cutoff && flat % GAUGE_STALE_MODULUS == 0
  {
    DivTwice(flat, f.gaugeSlots, f.gaugeInstances);
    BlockOf(flat, f.gaugeInstances * f.gaugeSlots, s);
  }

  lemma ClipStep(n: nat, lo: nat, hi: nat, stale: bool)
    requires lo <= hi
    ensures LiveBelow(Clip(n + 1, lo, hi), stale) == LiveBelow(Clip(n, lo, hi), stale)
      + if lo <= n < hi && !(stale && n % GAUGE_STALE_MODULUS == 0) then 1 else 0
  {
  }

  lemma NoGauges(f: Families, cutoff: nat, s: nat, t: nat, lo: nat, hi: nat)
    requires lo <= hi
    ensures GaugeLive(GaugeList(f, cutoff, 0), s, t) == 0 && Clip(0, lo, hi) == lo
  {
    assert GaugeList(f, cutoff, 0) == [];
  }

  lemma {:induction false} LivePrefix(f: Families, cutoff: nat, n: nat, s: nat, t: nat, lo: nat, hi: nat)
    requires f.gaugeInstances > 0 && f.gaugeSlots > 0
    requires lo == s * (f.gaugeInstances * f.gaugeSlots) && hi == (s + 1) * (f.gaugeInstances * f.gaugeSlots)
    requires lo <= hi
    ensures GaugeLive(GaugeList(f, cutoff, n), s, t)
         == LiveBelow(Clip(n, lo, hi), t >= cutoff) - LiveBelow(lo, t >= cutoff)
  {
    hide GaugeAt, GaugeIsStale, GaugeLive, GaugeList, LiveBelow, Clip;
    if n == 0 {
      NoGauges(f, cutoff, s, t, lo, hi);
    } else {
      var g := GaugeAt(f, cutoff, n - 1);
      ClipStep(n - 1, lo, hi, t >= cutoff);
      LivePrefix(f, cutoff, n - 1, s, t, lo, hi);
      GaugeListSnoc(f, cutoff, n - 1);
      LiveSnoc(GaugeList(f, cutoff, n - 1), g, s, t);
      GaugeBlock(f, cutoff, n - 1, s, t);
    }
  }

  /** The live gauges of service `s` in a generated corpus. */
  function LiveIn(m: nat, s: nat, stale: bool): int {
    LiveBelow((s + 1) * m, stale) - LiveBelow(s * m, stale)
  }

  lemma LiveIsLiveIn(f: Families, cutoff: nat, s: nat, t: nat)
    requires s < f.services && f.gaugeInstances > 0 && f.gaugeSlots > 0
    ensures var m := f.gaugeInstances * f.gaugeSlots;
      GaugeLive(GaugeList(f, cutoff, f.services * f.gaugeInstances * f.gaugeSlots), s, t) == LiveIn(m, s, t >= cutoff)
  {
    hide GaugeLive, GaugeList, LiveBelow;
    var m := f.gaugeInstances * f.gaugeSlots;
    var n := f.services * f.gaugeInstances * f.gaugeSlots;
    assert n == f.services * m;
    MulLe(s + 1, f.services, m);
    MulLe(s, s + 1, m);
    LivePrefix(f, cutoff, n, s, t, s * m, (s + 1) * m);
  }

  /** Neighbouring blocks differ by at most one stale gauge, by none when the block size is a
      multiple of the modulus. */
  lemma LiveInBounds(m: nat, s: nat, stale: bool)
    ensures LiveIn(m, s, stale) >= m - Multiples(m, GAUGE_STALE_MODULUS)
    ensures LiveIn(m, s + 1, stale) >= LiveIn(m, s, stale) - 1
    ensures m % GAUGE_STALE_MODULUS == 0 || !stale ==> LiveIn(m, s + 1, stale) == LiveIn(m, s, stale)
    ensures m > 0 && (m % GAUGE_STALE_MODULUS == 0 || !stale) ==> LiveIn(m, s, stale) >= 1
  {
    var (a, b, d) := (s * m, (s + 1) * m, (s + 2) * m);
    assert b == a + m && d == b + m;
    Stride(a, m);
    Stride(b, m);
  }

  lemma Stride(a: nat, m: nat)
    ensures m / 6 <= Multiples(a + m, 6) - Multiples(a, 6) <= (m + 5) / 6
    ensures m % 6 == 0 ==> Multiples(a + m, 6) - Multiples(a, 6) == m / 6
  {
  }

  // ----- gauge sizing -----

  /** The largest offset within a service, noise included. */
  function Offset(f: Families): int { (f.gaugeInstances - 1) * 1000 + (f.gaugeSlots - 1) * 100 + 99 }

  lemma {:induction false} LowBounds(f: Families, gs: seq<Gauge>, s: nat, t: nat)
    requires forall i :: 0 <= i < |gs| ==> gs[i].instance < f.gaugeInstances && gs[i].slot < f.gaugeSlots
    ensures var (b, live) := ((s + 1) * GAUGE_SERVICE_STRIDE, GaugeLive(gs, s, t));
      live * b <= GaugeLow(gs, s, t) && GaugeLow(gs, s, t) + 99 * live <= live * (b + Offset(f))
  {
    if gs != [] {
      var (b, g, front) := ((s + 1) * GAUGE_SERVICE_STRIDE, gs[|gs| - 1], gs[..|gs| - 1]);
      LowBounds(f, front, s, t);
      var live := GaugeLive(front, s, t);
      Spread(live, 1, b);
      Spread(live, 1, b + Offset(f));
      assert g.service == s ==> b <= GaugeBase(g) && GaugeBase(g) + 99 <= b + Offset(f);
    }
  }

  /** Enough gauges per service beside the number of services, offsets small beside the stride. */
  predicate GaugeSized(f: Families) {
    var m := f.gaugeInstances * f.gaugeSlots;
    && f.gaugeInstances > 0 && f.gaugeSlots > 0 && Offset(f) < GAUGE_SERVICE_STRIDE
    && (m % GAUGE_STALE_MODULUS == 0
        || (m - Multiples(m, GAUGE_STALE_MODULUS)) * (GAUGE_SERVICE_STRIDE - Offset(f))
           > f.services * GAUGE_SERVICE_STRIDE)
  }

  /** The arithmetic of one step between services. */
  lemma StepUp(live: nat, next: nat, s: nat, stride: nat, offset: int)
    requires 0 <= offset < stride
    requires (next == live && live >= 1) || (next >= live - 1 && live * (stride - offset) > (s + 2) * stride)
    ensures live * ((s + 1) * stride + offset) < next * ((s + 2) * stride)
  {
    var (b, d) := ((s + 1) * stride, (s + 2) * stride);
    assert d == b + stride;
    assert live * (b + offset) == live * d - live * (stride - offset) by {
      assert (b + offset) == d - (stride - offset);
      Apart(live, d, stride - offset);
    }
    if next == live && live >= 1 {
      Positive(live, stride - offset);
    } else {
      assert next * d >= (live - 1) * d by { MulLe(live - 1, next, d); }
      assert (live - 1) * d == live * d - d;
    }
  }

  lemma Apart(x: int, y: int, z: int)
    ensures x * (y - z) == x * y - x * z
  {
  }

  lemma GeneratedOffsets(f: Families, cutoff: nat, n: nat)
    requires f.gaugeInstances > 0 && f.gaugeSlots > 0
    ensures var gs := GaugeList(f, cutoff, n);
      forall i :: 0 <= i < |gs| ==> gs[i].instance < f.gaugeInstances && gs[i].slot < f.gaugeSlots
  {
  }

  lemma GaugeMargin(f: Families, s: nat, stale: bool)
    requires GaugeSized(f) && s + 1 < f.services
    ensures var m := f.gaugeInstances * f.gaugeSlots;
      && LiveIn(m, s, stale) >= 0 && LiveIn(m, s + 1, stale) >= 0
      && LiveIn(m, s, stale) * ((s + 1) * GAUGE_SERVICE_STRIDE + Offset(f))
         < LiveIn(m, s + 1, stale) * ((s + 2) * GAUGE_SERVICE_STRIDE)
  {
    hide LiveIn, Multiples, Offset;
    var (m, gap) := (f.gaugeInstances * f.gaugeSlots, GAUGE_SERVICE_STRIDE - Offset(f));
    LiveInBounds(m, s, stale);
    LiveInBounds(m, s + 1, stale);
    Positive(f.gaugeInstances, f.gaugeSlots);
    assert Multiples(m, GAUGE_STALE_MODULUS) <= m by { FewMultiples(m); }
    assert Offset(f) >= 0 by { OffsetNotNegative(f); }
    MulLe(m - Multiples(m, GAUGE_STALE_MODULUS), LiveIn(m, s, stale), gap);
    MulLe(s + 2, f.services, GAUGE_SERVICE_STRIDE);
    StepUp(LiveIn(m, s, stale), LiveIn(m, s + 1, stale), s, GAUGE_SERVICE_STRIDE, Offset(f));
  }

  lemma FewMultiples(m: nat)
    ensures Multiples(m, GAUGE_STALE_MODULUS) <= m
  {
  }

  lemma OffsetNotNegative(f: Families)
    requires f.gaugeInstances > 0 && f.gaugeSlots > 0
    ensures Offset(f) >= 0
  {
  }

  /** Under the sizing condition gauge totals increase from service to service at every
      timestamp and for every noise. */
  lemma GaugeTotalsStep(f: Families, cutoff: nat, s: nat, t: nat)
    requires GaugeSized(f) && s + 1 < f.services
    ensures GaugesOrdered(GaugeList(f, cutoff, f.services * f.gaugeInstances * f.gaugeSlots), s, t)
  {
    hide GaugeLive, GaugeLow, GaugeList, GaugesOrdered, LiveIn, Multiples, Offset;
    var n := f.services * f.gaugeInstances * f.gaugeSlots;
    var gs := GaugeList(f, cutoff, n);
    GeneratedOffsets(f, cutoff, n);
    LowBounds(f, gs, s, t);
    LowBounds(f, gs, s + 1, t);
    LiveIsLiveIn(f, cutoff, s, t);
    LiveIsLiveIn(f, cutoff, s + 1, t);
    GaugeMargin(f, s, t >= cutoff);
    GaugeOrderExactly(gs, s, t);
  }

  /** One gauge per service breaks the claim: once stale, service 6 reports nothing while
      service 5 reports its gauge, whatever the noise. */
  lemma OneGaugePerServiceBreaks(spec: Spec, mix: Mix, t: nat)
    requires spec.families.gaugeInstances == 1 && spec.families.gaugeSlots == 1 && spec.families.services >= 7
    requires t >= StaleCutoff(spec.sampleCount, spec.stepMs)
    ensures var gs := CorpusOf(spec).gauges;
      GaugeTotal(mix, gs, 6, t) == 0 && GaugeTotal(mix, gs, 5, t) >= 6 * GAUGE_SERVICE_STRIDE
  {
    hide GaugeTotal, GaugeLow, GaugeLive, GaugeList, Specs, SeriesIds, StaleCutoff;
    var (f, cutoff) := (spec.families, StaleCutoff(spec.sampleCount, spec.stepMs));
    var gs := CorpusOf(spec).gauges;
    GeneratedOffsets(f, cutoff, f.services * f.gaugeInstances * f.gaugeSlots);
    LiveIsLiveIn(f, cutoff, 5, t);
    LiveIsLiveIn(f, cutoff, 6, t);
    assert LiveIn(1, 5, true) == 1 && LiveIn(1, 6, true) == 0;
    LowBounds(f, gs, 5, t);
    LowBounds(f, gs, 6, t);
    GaugeTotalBounds(mix, gs, 5, t);
    GaugeTotalBounds(mix, gs, 6, t);
  }

  /** Sums this small are exact in a double, so integers model them. */
  lemma GaugeTotalsExact(f: Families, cutoff: nat, mix: Mix, s: nat, t: nat)
    requires s < f.services && f.gaugeInstances > 0 && f.gaugeSlots > 0
    requires f.gaugeInstances * f.gaugeSlots * (f.services * GAUGE_SERVICE_STRIDE + Offset(f)) < 0x20_0000_0000_0000
    ensures GaugeTotal(mix, GaugeList(f, cutoff, f.services * f.gaugeInstances * f.gaugeSlots), s, t)
          < 0x20_0000_0000_0000
  {
    hide GaugeLive, GaugeLow, GaugeTotal, GaugeList, LiveIn, Offset;
    var n := f.services * f.gaugeInstances * f.gaugeSlots;
    var (m, gs) := (f.gaugeInstances * f.gaugeSlots, GaugeList(f, cutoff, n));
    GeneratedOffsets(f, cutoff, n);
    LowBounds(f, gs, s, t);
    GaugeTotalBounds(mix, gs, s, t);
    LiveIsLiveIn(f, cutoff, s, t);
    assert LiveIn(m, s, t >= cutoff) <= m by { LiveAtMost(m, s, t >= cutoff); }
    OffsetNotNegative(f);
    MulLe(s + 1, f.services, GAUGE_SERVICE_STRIDE);
    var (b, top) := ((s + 1) * GAUGE_SERVICE_STRIDE + Offset(f), f.services * GAUGE_SERVICE_STRIDE + Offset(f));
    Product(GaugeLive(gs, s, t), m, b, top);
  }

  lemma Product(x: int, y: int, b: int, d: int)
    requires 0 <= x <= y && 0 <= b <= d
    ensures x * b <= y * d
  {
    MulLe(x, y, b);
    MulLe(b, d, y);
  }

  lemma LiveAtMost(m: nat, s: nat, stale: bool)
    ensures LiveIn(m, s, stale) <= m
  {
    assert (s + 1) * m == s * m + m;
    Stride(s * m, m);
  }

  /** The same for counters. */
  lemma CounterTotalsExact(f: Families, resetAt: nat, mix: Mix, s: nat, t: nat, samples: nat)
    requires s < f.services && f.counterInstances > 0 && t < samples
    requires f.counterInstances * samples * (f.services * COUNTER_SERVICE_STRIDE + 49) < 0x20_0000_0000_0000
    ensures CounterTotal(mix, CounterList(f, resetAt, f.services * f.counterInstances), s, t) < 0x20_0000_0000_0000
  {
    hide Work, CounterTotal, CounterList, ResetsIn;
    var (m, cs) := (f.counterInstances, CounterList(f, resetAt, f.services * f.counterInstances));
    WorkIsWorkIn(f, resetAt, s, t);
    CounterTotalBounds(mix, cs, s, t);
    ResetsBounds(m, s);
    MulLe(0, ResetsIn(m, s), resetAt + 1);
    MulLe(t + 1, samples, m);
    MulLe(s + 1, f.services, COUNTER_SERVICE_STRIDE);
    var (b, top) := ((s + 1) * COUNTER_SERVICE_STRIDE + 49, f.services * COUNTER_SERVICE_STRIDE + 49);
    Product(Work(cs, s, t), m * samples, b, top);
  }

  // ----- counter sizing -----

  lemma CounterListSnoc(f: Families, resetAt: nat, n: nat)
    ensures CounterList(f, resetAt, n + 1) == CounterList(f, resetAt, n) + [CounterAt(f, resetAt, n)]
  {
  }

  lemma WorkSnoc(cs: seq<Counter>, c: Counter, s: nat, t: nat)
    ensures Work(cs + [c], s, t) == Work(cs, s, t) + if c.service == s then Increments(c, t) else 0
  {
    assert (cs + [c])[..|cs|] == cs;
  }

  lemma CounterBlock(f: Families, resetAt: nat, flat: nat, s: nat, t: nat)
    requires f.counterInstances > 0
    ensures var c := CounterAt(f, resetAt, flat);
      && (c.service == s <==> s * f.counterInstances <= flat < (s + 1) * f.counterInstances)
      && Increments(c, t) == t + 1 - if flat % COUNTER_RESET_MODULUS == 0 && t >= resetAt then resetAt + 1 else 0
  {
    BlockOf(flat, f.counterInstances, s);
  }

  /** Increments accumulated by the counters at the first `n` positions. */
  function WorkBelow(n: nat, resetAt: nat, t: nat): int {
    n * (t + 1) - if t >= resetAt then Multiples(n, COUNTER_RESET_MODULUS) * (resetAt + 1) else 0
  }

  lemma WorkClipStep(n: nat, lo: nat, hi: nat, resetAt: nat, t: nat)
    requires lo <= hi
    ensures WorkBelow(Clip(n + 1, lo, hi), resetAt, t) == WorkBelow(Clip(n, lo, hi), resetAt, t)
      + if lo <= n < hi then t + 1 - (if n % COUNTER_RESET_MODULUS == 0 && t >= resetAt then resetAt + 1 else 0) else 0
  {
    var (x, y) := (Multiples(n, 5), Multiples(n + 1, 5));
    assert y == x + if n % 5 == 0 then 1 else 0;
    Spread(n, 1, t + 1);
    Spread(x, 1, resetAt + 1);
  }

  lemma NoCounters(f: Families, resetAt: nat, s: nat, t: nat, lo: nat, hi: nat)
    requires lo <= hi
    ensures Work(CounterList(f, resetAt, 0), s, t) == 0 && Clip(0, lo, hi) == lo
  {
    assert CounterList(f, resetAt, 0) == [];
  }

  lemma {:induction false} WorkPrefix(f: Families, resetAt: nat, n: nat, s: nat, t: nat, lo: nat, hi: nat)
    requires f.counterInstances > 0 && lo == s * f.counterInstances && hi == (s + 1) * f.counterInstances && lo <= hi
    ensures Work(CounterList(f, resetAt, n), s, t)
         == WorkBelow(Clip(n, lo, hi), resetAt, t) - WorkBelow(lo, resetAt, t)
  {
    hide CounterAt, Work, CounterList, WorkBelow, Clip, Increments;
    if n == 0 {
      NoCounters(f, resetAt, s, t, lo, hi);
    } else {
      WorkPrefix(f, resetAt, n - 1, s, t, lo, hi);
      WorkClipStep(n - 1, lo, hi, resetAt, t);
      CounterListSnoc(f, resetAt, n - 1);
      WorkSnoc(CounterList(f, resetAt, n - 1), CounterAt(f, resetAt, n - 1), s, t);
      CounterBlock(f, resetAt, n - 1, s, t);
    }
  }

  /** How many counters of service `s` reset, with `m` counters per service. */
  function ResetsIn(m: nat, s: nat): int {
    Multiples((s + 1) * m, COUNTER_RESET_MODULUS) - Multiples(s * m, COUNTER_RESET_MODULUS)
  }

  /** The increments service `s` has accumulated at `t`. */
  function WorkIn(m: nat, s: nat, resetAt: nat, t: nat): int {
    m * (t + 1) - if t >= resetAt then ResetsIn(m, s) * (resetAt + 1) else 0
  }

  lemma WorkIsWorkIn(f: Families, resetAt: nat, s: nat, t: nat)
    requires s < f.services && f.counterInstances > 0
    ensures Work(CounterList(f, resetAt, f.services * f.counterInstances), s, t)
         == WorkIn(f.counterInstances, s, resetAt, t)
  {
    hide Work, CounterList, Multiples;
    var m := f.counterInstances;
    MulLe(s + 1, f.services, m);
    MulLe(s, s + 1, m);
    WorkPrefix(f, resetAt, f.services * m, s, t, s * m, (s + 1) * m);
    assert (s + 1) * m == s * m + m;
    Spread(s * m, m, t + 1);
    var hi: int := Multiples((s + 1) * m, COUNTER_RESET_MODULUS);
    var lo: int := Multiples(s * m, COUNTER_RESET_MODULUS);
    Spread(hi - lo, lo, resetAt + 1);
  }

  /** Exactly when counter totals of neighbouring services are ordered for every noise. */
  lemma GeneratedCounterOrder(f: Families, resetAt: nat, s: nat, t: nat)
    requires s + 1 < f.services && f.counterInstances > 0
    ensures var m := f.counterInstances;
      CountersOrdered(CounterList(f, resetAt, f.services * m), s, t) <==>
      WorkIn(m, s, resetAt, t) * ((s + 1) * COUNTER_SERVICE_STRIDE + 49)
        < WorkIn(m, s + 1, resetAt, t) * ((s + 2) * COUNTER_SERVICE_STRIDE)
  {
    hide Work, CounterList, WorkIn, CountersOrdered;
    var cs := CounterList(f, resetAt, f.services * f.counterInstances);
    WorkIsWorkIn(f, resetAt, s, t);
    WorkIsWorkIn(f, resetAt, s + 1, t);
    CounterOrderExactly(cs, s, t);
  }

  lemma ResetStride(a: nat, m: nat)
    ensures m / 5 <= Multiples(a + m, 5) - Multiples(a, 5) <= (m + 4) / 5
    ensures m % 5 == 0 ==> Multiples(a + m, 5) - Multiples(a, 5) == m / 5
  {
  }

  lemma ResetsBounds(m: nat, s: nat)
    ensures 0 <= ResetsIn(m, s) <= Multiples(m, COUNTER_RESET_MODULUS) <= m
    ensures ResetsIn(m, s + 1) <= ResetsIn(m, s) + 1
    ensures m % COUNTER_RESET_MODULUS == 0 ==> ResetsIn(m, s + 1) == ResetsIn(m, s) == m / 5
  {
    var (a, b, d) := (s * m, (s + 1) * m, (s + 2) * m);
    assert b == a + m && d == b + m;
    ResetStride(a, m);
    ResetStride(b, m);
  }

  /** Enough counters per service beside the number of services. */
  predicate CounterSized(f: Families) {
    var m := f.counterInstances;
    m > 0 && (m % COUNTER_RESET_MODULUS == 0
              || (m - Multiples(m, COUNTER_RESET_MODULUS)) * (COUNTER_SERVICE_STRIDE - 49)
                 > f.services * COUNTER_SERVICE_STRIDE)
  }

  /** What is left after the resets, in units of the reset span. */
  lemma WorkLeft(m: nat, r: nat, resetAt: nat, t: nat)
    requires r <= m && t >= resetAt
    ensures m * (t + 1) - r * (resetAt + 1) >= (m - r) * (resetAt + 1)
  {
    MulLe(resetAt + 1, t + 1, m);
    Spread(m - r, r, resetAt + 1);
  }

  /** With equally many resets both services have done the same work. */
  lemma EqualWork(m: nat, s: nat, resetAt: nat, t: nat)
    requires m > 0 && (t < resetAt || m % COUNTER_RESET_MODULUS == 0)
    ensures WorkIn(m, s + 1, resetAt, t) == WorkIn(m, s, resetAt, t) > 0
  {
    hide ResetsIn, Multiples;
    var r := ResetsIn(m, s);
    ResetsBounds(m, s);
    Positive(m, t + 1);
    if t >= resetAt {
      WorkLeft(m, r, resetAt, t);
      Positive(m - r, resetAt + 1);
    }
  }

  /** At worst the upper service has one more reset. */
  lemma NearWork(m: nat, s: nat, resetAt: nat, t: nat)
    requires t >= resetAt
    ensures WorkIn(m, s + 1, resetAt, t) >= WorkIn(m, s, resetAt, t) - (resetAt + 1)
    ensures WorkIn(m, s, resetAt, t) >= (m - Multiples(m, COUNTER_RESET_MODULUS)) * (resetAt + 1)
  {
    hide ResetsIn, Multiples;
    var (r, q, k) := (ResetsIn(m, s), ResetsIn(m, s + 1), resetAt + 1);
    ResetsBounds(m, s);
    MulLe(q, r + 1, k);
    Spread(r, 1, k);
    WorkLeft(m, r, resetAt, t);
    MulLe(m - Multiples(m, COUNTER_RESET_MODULUS), m - r, k);
  }

  lemma EqualStep(w: int, b: int)
    requires w > 0
    ensures w * (b + 49) < w * (b + 1000)
  {
    Cross(w, b + 49, 951);
  }

  lemma NearStep(w: int, v: int, k: int, b: int)
    requires b >= 0 && v >= w - k && w * 951 > k * (b + 1000)
    ensures w * (b + 49) < v * (b + 1000)
  {
    MulLe(w - k, v, b + 1000);
    Apart(b + 1000, w, k);
    Cross(w, b + 49, 951);
  }

  lemma CounterMargin(m: nat, services: nat, s: nat, resetAt: nat, t: nat)
    requires m > 0 && s + 1 < services
    requires m % COUNTER_RESET_MODULUS == 0 || (m - Multiples(m, COUNTER_RESET_MODULUS)) * 951 > services * 1000
    ensures WorkIn(m, s, resetAt, t) * ((s + 1) * COUNTER_SERVICE_STRIDE + 49)
         < WorkIn(m, s + 1, resetAt, t) * ((s + 2) * COUNTER_SERVICE_STRIDE)
  {
    hide WorkIn, Multiples;
    var (w, v, b) := (WorkIn(m, s, resetAt, t), WorkIn(m, s + 1, resetAt, t), (s + 1) * 1000);
    if t < resetAt || m % COUNTER_RESET_MODULUS == 0 {
      EqualWork(m, s, resetAt, t);
      EqualStep(w, b);
    } else {
      NearWork(m, s, resetAt, t);
      LargeEnough(w, m - Multiples(m, COUNTER_RESET_MODULUS), resetAt + 1, b + 1000);
      NearStep(w, v, resetAt + 1, b);
    }
  }

  lemma Cross(x: int, y: int, z: int)
    ensures x * (y + z) == x * y + x * z
  {
  }

  lemma LargeEnough(w: int, left: int, k: int, need: int)
    requires w >= left * k && k > 0 && left * 951 > need
    ensures w * 951 > k * need
  {
    assert w * 951 >= left * k * 951;
    assert left * k * 951 == (left * 951) * k;
    Positive(left * 951 - need, k);
    Apart(k, left * 951, need);
  }

  /** One counter per service breaks the claim at the reset: service 5 drops to zero. */
  lemma OneCounterPerServiceBreaks(spec: Spec, mix: Mix)
    requires spec.families.counterInstances == 1 && spec.families.services >= 6
    ensures var (cs, t) := (CorpusOf(spec).counters, ResetAt(spec.sampleCount));
      CounterTotal(mix, cs, 5, t) == 0 && CounterTotal(mix, cs, 4, t) >= 5 * COUNTER_SERVICE_STRIDE
  {
    hide CounterTotal, CounterList, Work, Specs, SeriesIds, ResetAt;
    var (f, t) := (spec.families, ResetAt(spec.sampleCount));
    var cs := CorpusOf(spec).counters;
    WorkIsWorkIn(f, t, 4, t);
    WorkIsWorkIn(f, t, 5, t);
    assert ResetsIn(1, 4) == 0 && ResetsIn(1, 5) == 1;
    CounterTotalBounds(mix, cs, 4, t);
    CounterTotalBounds(mix, cs, 5, t);
  }

  /** Both shipped tiers of `test/fixtures/metrics/differential.json` are sized. */
  lemma ShippedTiersSized()
    ensures GaugeSized(Families(5, 23, 3, 68, 6, 23)) && CounterSized(Families(5, 23, 3, 68, 6, 23))
    ensures GaugeSized(Families(5, 225, 3, 680, 58, 225)) && CounterSized(Families(5, 225, 3, 680, 58, 225))
    ensures 225 * 3 * (5 * GAUGE_SERVICE_STRIDE + Offset(Families(5, 225, 3, 680, 58, 225))) < 0x20_0000_0000_0000
    ensures 680 * 40 * (5 * COUNTER_SERVICE_STRIDE + 49) < 0x20_0000_0000_0000
  {
  }
}
