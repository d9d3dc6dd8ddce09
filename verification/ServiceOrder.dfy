/** Exactly when the per-service totals of `e2e/src/corpus.rs` are strictly
    ordered over a whole corpus, at every timestamp and for every noise, in
    terms of the family sizes alone. */
module ServiceOrder {
  import opened Arithmetic
  import opened MetricCorpus
  import opened MetricValues
  import opened ServiceTotals

  // ----- gauge blocks -----

  /** What position `p` of a service's block adds to the service stride. */
  function OffsetAt(f: Families, p: nat): nat { Quot(p, f.gaugeSlots) * 1000 + Rest(p, f.gaugeSlots) * 100 }

  /** The offsets of the live gauges among the first `p` of a block that begins at `phase`
      modulo the stale modulus. */
  function Offsets(f: Families, p: nat, phase: nat, stale: bool): nat {
    if p == 0 then 0
    else
      Offsets(f, p - 1, phase, stale)
      + if stale && (phase + p - 1) % GAUGE_STALE_MODULUS == 0 then 0 else OffsetAt(f, p - 1)
  }

  function BlockSize(f: Families): nat { f.gaugeInstances * f.gaugeSlots }

  /** Position `flat` of block `s` is instance `q`, slot `r` of the service. */
  lemma Locate(flat: nat, s: nat, i: nat, k: nat)
    requires i > 0 && k > 0 && s * (i * k) <= flat < (s + 1) * (i * k)
    ensures var p := flat - s * (i * k); p / k < i && (s * i + p / k) * k + p % k == flat
  {
    var p := flat - s * (i * k);
    var (q, r) := (p / k, p % k);
    assert p == q * k + r;
    Spread(s, 1, i * k);
    if q >= i { MulLe(i, q, k); }
    Spread(s * i, q, k);
    Associate(s, i, k);
  }

  lemma Associate(x: int, y: int, z: int)
    ensures x * y * z == x * (y * z)
  {
  }

  lemma PositionBase(f: Families, cutoff: nat, flat: nat, s: nat)
    requires f.gaugeInstances > 0 && f.gaugeSlots > 0
    requires s * BlockSize(f) <= flat < (s + 1) * BlockSize(f)
    ensures GaugeBase(GaugeAt(f, cutoff, flat)) == (s + 1) * GAUGE_SERVICE_STRIDE + OffsetAt(f, flat - s * BlockSize(f))
  {
    hide GaugeAt;
    var p := flat - s * BlockSize(f);
    Locate(flat, s, f.gaugeInstances, f.gaugeSlots);
    GaugeIndex(f, cutoff, s, p / f.gaugeSlots, p % f.gaugeSlots);
  }

  lemma LowSnoc(gs: seq<Gauge>, g: Gauge, s: nat, t: nat)
    ensures GaugeLow(gs + [g], s, t)
         == GaugeLow(gs, s, t) + if g.service == s && !GaugeIsStale(g, t) then GaugeBase(g) else 0
  {
    assert (gs + [g])[..|gs|] == gs;
  }

  lemma NoGaugesLow(f: Families, cutoff: nat, s: nat, t: nat, lo: nat, hi: nat, stale: bool)
    requires lo <= hi
    ensures GaugeLow(GaugeList(f, cutoff, 0), s, t) == 0 && Clip(0, lo, hi) == lo && Offsets(f, 0, lo % 6, stale) == 0
  {
    assert GaugeList(f, cutoff, 0) == [];
  }

  lemma PhaseStep(f: Families, n: nat, lo: nat, hi: nat, stale: bool)
    requires lo <= hi
    ensures Clip(n, lo, hi) >= lo && Clip(n + 1, lo, hi) >= lo
    ensures Offsets(f, Clip(n + 1, lo, hi) - lo, lo % 6, stale) == Offsets(f, Clip(n, lo, hi) - lo, lo % 6, stale)
      + if lo <= n < hi && !(stale && n % GAUGE_STALE_MODULUS == 0) then OffsetAt(f, n - lo) else 0
  {
    hide OffsetAt;
    if lo <= n < hi { assert (lo % 6 + (n - lo)) % 6 == n % 6; }
  }

  lemma {:induction false} LowPrefix(f: Families, cutoff: nat, n: nat, s: nat, t: nat, lo: nat, hi: nat)
    requires f.gaugeInstances > 0 && f.gaugeSlots > 0
    requires lo == s * BlockSize(f) && hi == (s + 1) * BlockSize(f) && lo <= hi
    ensures var (stale, c) := (t >= cutoff, Clip(n, lo, hi));
      && c >= lo
      && GaugeLow(GaugeList(f, cutoff, n), s, t)
         == (LiveBelow(c, stale) - LiveBelow(lo, stale)) * ((s + 1) * GAUGE_SERVICE_STRIDE)
            + Offsets(f, c - lo, lo % 6, stale)
  {
    hide GaugeAt, GaugeIsStale, GaugeLow, GaugeList, LiveBelow, Clip, Offsets, OffsetAt, GaugeBase;
    var (stale, b) := (t >= cutoff, (s + 1) * GAUGE_SERVICE_STRIDE);
    if n == 0 {
      NoGaugesLow(f, cutoff, s, t, lo, hi, stale);
    } else {
      var g := GaugeAt(f, cutoff, n - 1);
      LowPrefix(f, cutoff, n - 1, s, t, lo, hi);
      ClipStep(n - 1, lo, hi, stale);
      PhaseStep(f, n - 1, lo, hi, stale);
      GaugeListSnoc(f, cutoff, n - 1);
      LowSnoc(GaugeList(f, cutoff, n - 1), g, s, t);
      GaugeBlock(f, cutoff, n - 1, s, t);
      if lo <= n - 1 < hi { PositionBase(f, cutoff, n - 1, s); }
      Spread(LiveBelow(Clip(n - 1, lo, hi), stale) - LiveBelow(lo, stale), 1, b);
    }
  }

  /** The noise-free total of service `s`. */
  function LowIn(f: Families, s: nat, stale: bool): int {
    var m := BlockSize(f);
    LiveIn(m, s, stale) * ((s + 1) * GAUGE_SERVICE_STRIDE) + Offsets(f, m, s * m % GAUGE_STALE_MODULUS, stale)
  }

  lemma BlocksOf(f: Families, s: nat)
    requires s < f.services
    ensures f.services * f.gaugeInstances * f.gaugeSlots == f.services * BlockSize(f)
    ensures (s + 1) * BlockSize(f) == s * BlockSize(f) + BlockSize(f) <= f.services * BlockSize(f)
  {
    Spread(s, 1, BlockSize(f));
    MulLe(s + 1, f.services, BlockSize(f));
  }

  lemma ClipWhole(n: nat, lo: nat, hi: nat)
    requires lo <= hi <= n
    ensures Clip(n, lo, hi) == hi
  {
  }

  lemma LowIsLowIn(f: Families, cutoff: nat, s: nat, t: nat)
    requires s < f.services && f.gaugeInstances > 0 && f.gaugeSlots > 0
    ensures GaugeLow(GaugeList(f, cutoff, f.services * f.gaugeInstances * f.gaugeSlots), s, t)
         == LowIn(f, s, t >= cutoff)
  {
    hide GaugeLow, GaugeList, LiveBelow, Offsets, BlockSize, Clip;
    var m := BlockSize(f);
    var n := f.services * f.gaugeInstances * f.gaugeSlots;
    BlocksOf(f, s);
    ClipWhole(n, s * m, (s + 1) * m);
    LowPrefix(f, cutoff, n, s, t, s * m, (s + 1) * m);
  }

  // ----- one step between services -----

  /** Service `s` at its noisiest stays below service `s + 1` at its quietest. */
  predicate GaugeStep(f: Families, s: nat, stale: bool) {
    LowIn(f, s, stale) + 99 * LiveIn(BlockSize(f), s, stale) < LowIn(f, s + 1, stale)
  }

  lemma NoBlock(f: Families, cutoff: nat, s: nat, t: nat)
    requires f.gaugeInstances == 0 || f.gaugeSlots == 0
    ensures GaugeList(f, cutoff, f.services * f.gaugeInstances * f.gaugeSlots) == []
    ensures GaugeLow([], s, t) == 0 && GaugeLive([], s, t) == 0
    ensures BlockSize(f) == 0 && forall u: nat, stale :: LiveIn(0, u, stale) == 0 && LowIn(f, u, stale) == 0
  {
  }

  /** Exactly when the gauge totals of neighbouring services are ordered for every noise. */
  lemma GeneratedGaugeOrder(f: Families, cutoff: nat, s: nat, t: nat)
    requires s + 1 < f.services
    ensures GaugesOrdered(GaugeList(f, cutoff, f.services * f.gaugeInstances * f.gaugeSlots), s, t)
       <==> GaugeStep(f, s, t >= cutoff)
  {
    hide GaugeLow, GaugeLive, GaugeList, LowIn, LiveIn, GaugesOrdered;
    var gs := GaugeList(f, cutoff, f.services * f.gaugeInstances * f.gaugeSlots);
    GaugeOrderExactly(gs, s, t);
    if f.gaugeInstances == 0 || f.gaugeSlots == 0 {
      NoBlock(f, cutoff, s, t);
      NoBlock(f, cutoff, s + 1, t);
    } else {
      LowIsLowIn(f, cutoff, s, t);
      LowIsLowIn(f, cutoff, s + 1, t);
      LiveIsLiveIn(f, cutoff, s, t);
    }
  }

  lemma {:induction false} FreshOffsets(f: Families, p: nat, phase: nat)
    ensures Offsets(f, p, phase, false) == Offsets(f, p, 0, false)
  {
    if p > 0 { FreshOffsets(f, p - 1, phase); }
  }

  lemma FreshLive(m: nat, s: nat)
    ensures LiveIn(m, s, false) == m
  {
    Spread(s, 1, m);
  }

  lemma FreshMargin(m: nat, b: int, offsets: int)
    ensures m * b + offsets + 99 * m < m * (b + GAUGE_SERVICE_STRIDE) + offsets <==> m >= 1
  {
    assert m * (b + GAUGE_SERVICE_STRIDE) == m * b + m * GAUGE_SERVICE_STRIDE;
  }

  /** While nothing is stale, one gauge per service is enough. */
  lemma FreshStep(f: Families, s: nat)
    ensures GaugeStep(f, s, false) <==> BlockSize(f) >= 1
  {
    hide Offsets, LiveIn, BlockSize;
    var m := BlockSize(f);
    FreshOffsets(f, m, s * m % GAUGE_STALE_MODULUS);
    FreshOffsets(f, m, (s + 1) * m % GAUGE_STALE_MODULUS);
    FreshLive(m, s);
    FreshLive(m, s + 1);
    FreshMargin(m, (s + 1) * GAUGE_SERVICE_STRIDE, Offsets(f, m, 0, false));
    assert (s + 2) * GAUGE_SERVICE_STRIDE == (s + 1) * GAUGE_SERVICE_STRIDE + GAUGE_SERVICE_STRIDE;
  }

  // ----- the whole corpus -----

  /** Every pair of services, every timestamp, every noise. */
  ghost predicate AllGaugesOrdered(spec: Spec) {
    forall mix: Mix, s: nat, u: nat, t: nat :: s < u < spec.families.services && t < spec.sampleCount ==>
      GaugeTotal(mix, CorpusOf(spec).gauges, s, t) < GaugeTotal(mix, CorpusOf(spec).gauges, u, t)
  }

  ghost predicate NeighboursOrdered(spec: Spec) {
    forall s: nat, t: nat :: s + 1 < spec.families.services && t < spec.sampleCount ==>
      GaugesOrdered(CorpusOf(spec).gauges, s, t)
  }

  lemma {:induction false} Climb(spec: Spec, mix: Mix, s: nat, u: nat, t: nat)
    requires NeighboursOrdered(spec) && s < u < spec.families.services && t < spec.sampleCount
    ensures GaugeTotal(mix, CorpusOf(spec).gauges, s, t) < GaugeTotal(mix, CorpusOf(spec).gauges, u, t)
    decreases u
  {
    hide GaugeTotal, CorpusOf;
    assert GaugesOrdered(CorpusOf(spec).gauges, u - 1, t);
    if s < u - 1 { Climb(spec, mix, s, u - 1, t); }
  }

  lemma NeighboursSuffice(spec: Spec)
    ensures AllGaugesOrdered(spec) <==> NeighboursOrdered(spec)
  {
    hide GaugeTotal, CorpusOf;
    if NeighboursOrdered(spec) {
      forall mix: Mix, s: nat, u: nat, t: nat | s < u < spec.families.services && t < spec.sampleCount
        ensures GaugeTotal(mix, CorpusOf(spec).gauges, s, t) < GaugeTotal(mix, CorpusOf(spec).gauges, u, t)
      {
        Climb(spec, mix, s, u, t);
      }
    }
    if AllGaugesOrdered(spec) {
      forall s: nat, t: nat | s + 1 < spec.families.services && t < spec.sampleCount
        ensures GaugesOrdered(CorpusOf(spec).gauges, s, t)
      {
        var gs := CorpusOf(spec).gauges;
        forall mix: Mix ensures GaugeTotal(mix, gs, s, t) < GaugeTotal(mix, gs, s + 1, t) {
        }
      }
    }
  }

  lemma NeighbourStep(spec: Spec, s: nat, t: nat)
    requires s + 1 < spec.families.services
    ensures GaugesOrdered(CorpusOf(spec).gauges, s, t)
       <==> GaugeStep(spec.families, s, t >= StaleCutoff(spec.sampleCount, spec.stepMs))
  {
    hide GaugesOrdered, GaugeStep, GaugeList, Specs, SeriesIds, StaleCutoff;
    GeneratedGaugeOrder(spec.families, StaleCutoff(spec.sampleCount, spec.stepMs), s, t);
  }

  /** Every step of the stale phase goes up. */
  predicate StaleStepsUp(f: Families) {
    forall s :: 0 <= s < f.services - 1 ==> GaugeStep(f, s, true)
  }

  /** The gauge totals of a corpus are strictly ordered exactly when there is at most one service,
      no timestamp, or at least one gauge per service and, once gauges go stale, which takes two
      timestamps, every step up holds in closed form. */
  lemma GaugeTotalsOrderedExactly(spec: Spec)
    ensures AllGaugesOrdered(spec) <==>
      (spec.families.services <= 1 || spec.sampleCount == 0
       || (BlockSize(spec.families) >= 1 && (spec.sampleCount >= 2 ==> StaleStepsUp(spec.families))))
  {
    hide GaugesOrdered, GaugeStep, CorpusOf, StaleCutoff, AllGaugesOrdered, BlockSize;
    var (f, n, cutoff) := (spec.families, spec.sampleCount, StaleCutoff(spec.sampleCount, spec.stepMs));
    CutoffInRange(n, spec.stepMs);
    NeighboursSuffice(spec);
    forall s: nat, t: nat | s + 1 < f.services
      ensures t >= cutoff ==> (GaugesOrdered(CorpusOf(spec).gauges, s, t) <==> GaugeStep(f, s, true))
      ensures t < cutoff ==> (GaugesOrdered(CorpusOf(spec).gauges, s, t) <==> BlockSize(f) >= 1)
    {
      NeighbourStep(spec, s, t);
      FreshStep(f, s);
    }
    if NeighboursOrdered(spec) && f.services > 1 && n > 0 {
      assert GaugesOrdered(CorpusOf(spec).gauges, 0, 0);
      if n >= 2 {
        forall s | 0 <= s < f.services - 1 ensures GaugeStep(f, s, true) {
          assert GaugesOrdered(CorpusOf(spec).gauges, s, n - 1);
        }
      }
    }
  }

  /** With one gauge per service the order holds exactly up to six services, or when nothing can
      go stale. */
  lemma OneGaugePerService(spec: Spec)
    requires spec.families.gaugeInstances == 1 && spec.families.gaugeSlots == 1
    ensures AllGaugesOrdered(spec) <==> spec.families.services <= 6 || spec.sampleCount <= 1
  {
    hide AllGaugesOrdered, GaugeStep;
    var f := spec.families;
    GaugeTotalsOrderedExactly(spec);
    forall s: nat ensures GaugeStep(f, s, true) <==> (s + 1) % 6 != 0 { OneGaugeStep(f, s); }
    if f.services >= 7 { assert !GaugeStep(f, 5, true); }
  }

  lemma OneLive(s: nat)
    ensures LiveIn(1, s, true) == if s % 6 == 0 then 0 else 1
  {
  }

  lemma OneOffset(f: Families, phase: nat)
    requires f.gaugeSlots == 1
    ensures Offsets(f, 1, phase, true) == 0
  {
    assert OffsetAt(f, 0) == 0;
    assert Offsets(f, 0, phase, true) == 0;
  }

  lemma OneGaugeStep(f: Families, s: nat)
    requires f.gaugeInstances == 1 && f.gaugeSlots == 1
    ensures GaugeStep(f, s, true) <==> (s + 1) % 6 != 0
  {
    hide Offsets, LiveIn;
    OneLive(s);
    OneLive(s + 1);
    OneOffset(f, s * 1 % 6);
    OneOffset(f, (s + 1) * 1 % 6);
  }

  // ----- counters -----

  ghost predicate AllCountersOrdered(spec: Spec) {
    forall mix: Mix, s: nat, u: nat, t: nat :: s < u < spec.families.services && t < spec.sampleCount ==>
      CounterTotal(mix, CorpusOf(spec).counters, s, t) < CounterTotal(mix, CorpusOf(spec).counters, u, t)
  }

  ghost predicate CounterNeighboursOrdered(spec: Spec) {
    forall s: nat, t: nat :: s + 1 < spec.families.services && t < spec.sampleCount ==>
      CountersOrdered(CorpusOf(spec).counters, s, t)
  }

  lemma {:induction false} CounterClimb(spec: Spec, mix: Mix, s: nat, u: nat, t: nat)
    requires CounterNeighboursOrdered(spec) && s < u < spec.families.services && t < spec.sampleCount
    ensures CounterTotal(mix, CorpusOf(spec).counters, s, t) < CounterTotal(mix, CorpusOf(spec).counters, u, t)
    decreases u
  {
    hide CounterTotal, CorpusOf;
    assert CountersOrdered(CorpusOf(spec).counters, u - 1, t);
    if s < u - 1 { CounterClimb(spec, mix, s, u - 1, t); }
  }

  lemma CounterNeighboursSuffice(spec: Spec)
    ensures AllCountersOrdered(spec) <==> CounterNeighboursOrdered(spec)
  {
    hide CounterTotal, CorpusOf;
    if CounterNeighboursOrdered(spec) {
      forall mix: Mix, s: nat, u: nat, t: nat | s < u < spec.families.services && t < spec.sampleCount
        ensures CounterTotal(mix, CorpusOf(spec).counters, s, t) < CounterTotal(mix, CorpusOf(spec).counters, u, t)
      {
        CounterClimb(spec, mix, s, u, t);
      }
    }
    if AllCountersOrdered(spec) {
      forall s: nat, t: nat | s + 1 < spec.families.services && t < spec.sampleCount
        ensures CountersOrdered(CorpusOf(spec).counters, s, t)
      {
        var cs := CorpusOf(spec).counters;
        forall mix: Mix ensures CounterTotal(mix, cs, s, t) < CounterTotal(mix, cs, s + 1, t) {
        }
      }
    }
  }

  /** At the reset itself, the tightest moment, service `s` stays below service `s + 1`. */
  predicate ResetStep(m: nat, s: nat) {
    (m - ResetsIn(m, s)) * ((s + 1) * COUNTER_SERVICE_STRIDE + 49)
    < (m - ResetsIn(m, s + 1)) * ((s + 2) * COUNTER_SERVICE_STRIDE)
  }

  /** Before the reset one counter per service is enough; from it on, what decides is the reset
      itself. */
  predicate CounterStep(m: nat, s: nat, resetAt: nat, t: nat) {
    WorkIn(m, s, resetAt, t) * ((s + 1) * COUNTER_SERVICE_STRIDE + 49)
    < WorkIn(m, s + 1, resetAt, t) * ((s + 2) * COUNTER_SERVICE_STRIDE)
  }

  lemma BeforeReset(m: nat, s: nat, resetAt: nat, t: nat)
    requires t < resetAt
    ensures CounterStep(m, s, resetAt, t) <==> m >= 1
  {
    var (w, b) := (m * (t + 1), (s + 1) * COUNTER_SERVICE_STRIDE);
    assert WorkIn(m, s, resetAt, t) == w && WorkIn(m, s + 1, resetAt, t) == w;
    if m >= 1 {
      Positive(m, t + 1);
      EqualStep(w, b);
    } else {
      assert w == 0;
    }
  }

  /** A scaled inequality. */
  lemma Scaled(x: int, y: int, k: int)
    requires k > 0
    ensures x * k < y * k <==> x < y
  {
    if x < y { Positive(y - x, k); } else { MulLe(y, x, k); }
    Spread(y - x, x, k);
  }

  /** The work at `t` is the work at the reset plus equal work since. */
  lemma WorkSince(m: nat, r: int, resetAt: nat, t: nat)
    requires t >= resetAt
    ensures m * (t + 1) - r * (resetAt + 1) == (m - r) * (resetAt + 1) + m * (t - resetAt)
  {
    Spread(resetAt + 1, t - resetAt, m);
    Spread(m - r, r, resetAt + 1);
  }

  lemma Commuted(x: int, k: int, a: int)
    ensures x * k * a == x * a * k
  {
  }

  lemma StillAhead(x: int, y: int, k: int, e: int, a: int, b: int)
    requires x * a < y * b && k > 0 && e >= 0 && 0 <= a <= b
    ensures (x * k + e) * a < (y * k + e) * b
  {
    Scaled(x * a, y * b, k);
    Commuted(x, k, a);
    Commuted(y, k, b);
    Spread(x * k, e, a);
    Spread(y * k, e, b);
    MulLe(a, b, e);
  }

  lemma FromReset(m: nat, s: nat, resetAt: nat, t: nat)
    requires t >= resetAt && ResetStep(m, s)
    ensures CounterStep(m, s, resetAt, t)
  {
    hide ResetsIn;
    var (r, q, k) := (ResetsIn(m, s), ResetsIn(m, s + 1), resetAt + 1);
    WorkSince(m, r, resetAt, t);
    WorkSince(m, q, resetAt, t);
    MulLe(0, t - resetAt, m);
    var (a, b) := ((s + 1) * COUNTER_SERVICE_STRIDE + 49, (s + 2) * COUNTER_SERVICE_STRIDE);
    StillAhead(m - r, m - q, k, m * (t - resetAt), a, b);
  }

  lemma AtReset(m: nat, s: nat, resetAt: nat)
    ensures CounterStep(m, s, resetAt, resetAt) <==> ResetStep(m, s)
  {
    hide ResetsIn;
    var (r, q, k) := (ResetsIn(m, s), ResetsIn(m, s + 1), resetAt + 1);
    var (a, b) := ((s + 1) * COUNTER_SERVICE_STRIDE + 49, (s + 2) * COUNTER_SERVICE_STRIDE);
    WorkSince(m, r, resetAt, resetAt);
    WorkSince(m, q, resetAt, resetAt);
    Commuted(m - r, k, a);
    Commuted(m - q, k, b);
    Scaled((m - r) * a, (m - q) * b, k);
  }

  lemma NoCounterBlock(f: Families, resetAt: nat, s: nat, t: nat)
    requires f.counterInstances == 0
    ensures CounterList(f, resetAt, f.services * f.counterInstances) == []
    ensures Work([], s, t) == 0 && Work([], s + 1, t) == 0
    ensures !CounterStep(0, s, resetAt, t)
  {
    assert ResetsIn(0, s) == 0 && ResetsIn(0, s + 1) == 0;
  }

  lemma CounterNeighbourStep(spec: Spec, s: nat, t: nat)
    requires s + 1 < spec.families.services
    ensures CountersOrdered(CorpusOf(spec).counters, s, t)
       <==> CounterStep(spec.families.counterInstances, s, ResetAt(spec.sampleCount), t)
  {
    hide CountersOrdered, CounterList, Specs, SeriesIds, ResetAt, WorkIn, Work;
    var (f, resetAt) := (spec.families, ResetAt(spec.sampleCount));
    var cs := CounterList(f, resetAt, f.services * f.counterInstances);
    if f.counterInstances == 0 {
      NoCounterBlock(f, resetAt, s, t);
      CounterOrderExactly(cs, s, t);
    } else {
      GeneratedCounterOrder(f, resetAt, s, t);
    }
  }

  predicate ResetStepsUp(f: Families) {
    forall s :: 0 <= s < f.services - 1 ==> ResetStep(f.counterInstances, s)
  }

  lemma ResetInRange(n: nat)
    ensures ResetAt(n) >= 1 && (ResetAt(n) < n <==> n >= 2)
  {
  }

  /** The counter totals of a corpus are strictly ordered exactly when there is at most one
      service, no timestamp, or at least one counter per service and, once counters reset, which
      takes two timestamps, every step up holds at the reset. */
  lemma CounterTotalsOrderedExactly(spec: Spec)
    ensures AllCountersOrdered(spec) <==>
      (spec.families.services <= 1 || spec.sampleCount == 0
       || (spec.families.counterInstances >= 1 && (spec.sampleCount >= 2 ==> ResetStepsUp(spec.families))))
  {
    hide CountersOrdered, CounterStep, ResetStep, CorpusOf, ResetAt, AllCountersOrdered;
    var (f, n, resetAt) := (spec.families, spec.sampleCount, ResetAt(spec.sampleCount));
    var m := f.counterInstances;
    ResetInRange(n);
    CounterNeighboursSuffice(spec);
    forall s: nat, t: nat | s + 1 < f.services
      ensures t < resetAt ==> (CountersOrdered(CorpusOf(spec).counters, s, t) <==> m >= 1)
      ensures t >= resetAt && ResetStep(m, s) ==> CountersOrdered(CorpusOf(spec).counters, s, t)
      ensures t == resetAt ==> (CountersOrdered(CorpusOf(spec).counters, s, t) <==> ResetStep(m, s))
    {
      CounterNeighbourStep(spec, s, t);
      if t < resetAt { BeforeReset(m, s, resetAt, t); }
      if t >= resetAt && ResetStep(m, s) { FromReset(m, s, resetAt, t); }
      AtReset(m, s, resetAt);
    }
    if CounterNeighboursOrdered(spec) && f.services > 1 && n > 0 {
      assert CountersOrdered(CorpusOf(spec).counters, 0, 0);
      if n >= 2 {
        forall s | 0 <= s < f.services - 1 ensures ResetStep(m, s) {
          assert CountersOrdered(CorpusOf(spec).counters, s, resetAt);
        }
      }
    }
  }

  /** With one counter per service the order holds exactly up to five services, or when nothing
      can reset. */
  lemma OneCounterPerService(spec: Spec)
    requires spec.families.counterInstances == 1
    ensures AllCountersOrdered(spec) <==> spec.families.services <= 5 || spec.sampleCount <= 1
  {
    hide AllCountersOrdered, ResetStep;
    var f := spec.families;
    CounterTotalsOrderedExactly(spec);
    forall s: nat ensures ResetStep(1, s) <==> (s + 1) % 5 != 0 { OneResetStep(s); }
    if f.services >= 6 { assert !ResetStep(1, 4); }
  }

  lemma OneReset(s: nat)
    ensures ResetsIn(1, s) == if s % 5 == 0 then 1 else 0
  {
  }

  lemma OneResetStep(s: nat)
    ensures ResetStep(1, s) <==> (s + 1) % 5 != 0
  {
    hide ResetsIn;
    OneReset(s);
    OneReset(s + 1);
  }

  // ----- meeting the conditions -----

  /** The closed-form sizing condition makes every stale step go up. */
  lemma SizedGaugesStepUp(f: Families)
    requires GaugeSized(f)
    ensures BlockSize(f) >= 1 && StaleStepsUp(f)
  {
    hide GaugesOrdered, GaugeList, GaugeStep;
    Positive(f.gaugeInstances, f.gaugeSlots);
    forall s | 0 <= s < f.services - 1 ensures GaugeStep(f, s, true) {
      GaugeTotalsStep(f, 0, s, 0);
      GeneratedGaugeOrder(f, 0, s, 0);
    }
  }

  /** And so for counters. */
  lemma SizedCountersStepUp(f: Families)
    requires CounterSized(f)
    ensures f.counterInstances >= 1 && ResetStepsUp(f)
  {
    hide ResetStep, CounterStep, CountersOrdered, CounterList;
    var m := f.counterInstances;
    forall s | 0 <= s < f.services - 1 ensures ResetStep(m, s) {
      assert CounterStep(m, s, 0, 0) by { SizedCounterStep(f, s); }
      AtReset(m, s, 0);
    }
  }

  lemma SizedCounterStep(f: Families, s: nat)
    requires CounterSized(f) && s + 1 < f.services
    ensures CounterStep(f.counterInstances, s, 0, 0)
  {
    hide WorkIn, Multiples;
    CounterMargin(f.counterInstances, f.services, s, 0, 0);
  }

  predicate Shipped(f: Families) {
    f == Families(5, 23, 3, 68, 6, 23) || f == Families(5, 225, 3, 680, 58, 225)
  }

  /** Every corpus of either shipped tier has strictly ordered gauge and counter totals. */
  lemma ShippedTiersOrdered(spec: Spec)
    requires Shipped(spec.families)
    ensures AllGaugesOrdered(spec) && AllCountersOrdered(spec)
  {
    hide AllGaugesOrdered, AllCountersOrdered, StaleStepsUp, ResetStepsUp, GaugeSized, CounterSized, BlockSize;
    ShippedTiersSized();
    SizedGaugesStepUp(spec.families);
    SizedCountersStepUp(spec.families);
    GaugeTotalsOrderedExactly(spec);
    CounterTotalsOrderedExactly(spec);
  }
}
