/** What the metric corpus of `e2e/src/corpus.rs` promises of its values, labels,
    times and sizes, each said without the formula that computes it. */
module MetricLaws {
  import opened Arithmetic
  import opened Common
  import opened Decimal
  import opened MetricCorpus
  import opened MetricDiscovery
  import opened MetricRenderings
  import opened MetricValues

  // ----- counters -----

  /** A counter starts with its first increment and adds one increment a step; at its reset it is zero. */
  lemma CounterSteps(mix: Mix, c: Counter, t: nat)
    ensures c.resetAt == Some(t) ==> CounterValue(mix, c, t) == 0
    ensures c.resetAt != Some(0) ==>
      CounterValue(mix, c, 0) == (c.service + 1) * 1000 + mix([0xB2, c.service, c.instance, 0]) % 50
    ensures c.resetAt != Some(t + 1) ==>
      CounterValue(mix, c, t + 1)
      == CounterValue(mix, c, t) + (c.service + 1) * 1000 + mix([0xB2, c.service, c.instance, t + 1]) % 50
  {
    var from := if c.resetAt.Some? && t + 1 > c.resetAt.value then c.resetAt.value + 1 else 0;
    assert SumIncrements(mix, c, from, t + 2) == if t + 2 <= from then 0
      else SumIncrements(mix, c, from, t + 1) + CounterIncrement(mix, c, t + 1);
    assert SumIncrements(mix, c, 0, 1) == SumIncrements(mix, c, 0, 0) + CounterIncrement(mix, c, 0);
  }

  /** So a counter falls exactly where it resets. */
  lemma CounterFallsExactlyAtReset(mix: Mix, c: Counter, t: nat)
    ensures CounterValue(mix, c, t + 1) < CounterValue(mix, c, t) <==> c.resetAt == Some(t + 1)
  {
    hide CounterValue;
    CounterSteps(mix, c, t);
    CounterSteps(mix, c, t + 1);
    if c.resetAt == Some(t + 1) { CounterPositive(mix, c, t); }
  }

  lemma {:induction false} CounterPositive(mix: Mix, c: Counter, t: nat)
    requires c.resetAt != Some(t)
    ensures CounterValue(mix, c, t) > 0
  {
    hide CounterValue;
    CounterSteps(mix, c, t);
    if t > 0 { CounterSteps(mix, c, t - 1); }
  }

  // ----- gauges -----

  /** In a corpus of the sizes the stride is made for, a gauge's value names its series. */
  lemma GaugeNamesItsSeries(mix: Mix, g: Gauge, t: nat)
    requires g.slot < 10 && g.instance < 200_000
    ensures var v := GaugeValue(mix, g, t);
      && v / 200_000_000 == g.service + 1 && v % 200_000_000 / 1000 == g.instance
      && v % 1000 / 100 == g.slot && v % 100 == mix([0xA1, g.service, g.instance, g.slot, t]) % 100
  {
    var v := GaugeValue(mix, g, t);
    var noise := mix([0xA1, g.service, g.instance, g.slot, t]) % 100;
    var low := 100 * g.slot + noise;
    DivUnique(v, 200_000_000, g.service + 1, 1000 * g.instance + low);
    DivUnique(1000 * g.instance + low, 1000, g.instance, low);
    DivUnique(v, 1000, 200_000 * (g.service + 1) + g.instance, low);
    DivUnique(low, 100, g.slot, noise);
    DivUnique(v, 100, 10 * (200_000 * (g.service + 1) + g.instance) + g.slot, noise);
  }

  // ----- histograms -----

  /** A range takes on between one and ten observations a step. */
  lemma RangeSteps(mix: Mix, h: Histogram, t: nat, k: nat)
    ensures BucketCount(mix, h, 0, k) == 1 + mix([0xC3, h.service, h.instance, 0, k]) % 10
    ensures BucketCount(mix, h, t + 1, k)
         == BucketCount(mix, h, t, k) + 1 + mix([0xC3, h.service, h.instance, t + 1, k]) % 10
  {
  }

  function Constant(m: nat): Mix { _ => m }

  /** Under a constant mix every bucket is a product; the bounds on buckets are attained at 0 and 9. */
  lemma {:induction false} BucketsUnderConstantMix(m: nat, h: Histogram, t: nat, k: nat)
    ensures LeCount(Constant(m), h, t, k) == (k + 1) * ((1 + m % 10) * (t + 1))
    decreases k
  {
    hide LeCount;
    RangeUnderConstantMix(m, h, t, k);
    if k == 0 {
      LeFirst(Constant(m), h, t);
    } else {
      BucketsUnderConstantMix(m, h, t, k - 1);
      LeStep(Constant(m), h, t, k);
      Spread(k, 1, (1 + m % 10) * (t + 1));
    }
  }

  lemma {:induction false} RangeUnderConstantMix(m: nat, h: Histogram, t: nat, k: nat)
    ensures BucketCount(Constant(m), h, t, k) == (1 + m % 10) * (t + 1)
  {
    hide BucketCount;
    if t > 0 {
      RangeUnderConstantMix(m, h, t - 1, k);
      RangeSteps(Constant(m), h, t - 1, k);
      Spread(t, 1, 1 + m % 10);
    } else {
      RangeSteps(Constant(m), h, 0, k);
    }
  }

  /** The weight of a range is the middle of its bounds, the first starting at zero; the open
      last range weighs twice its bound. */
  lemma MidpointsAreCentred(bounds: seq<real>, i: nat)
    requires bounds != [] && i <= |bounds|
    ensures i == 0 ==> Midpoint(bounds, i) - 0.0 == bounds[0] - Midpoint(bounds, i)
    ensures 0 < i < |bounds| ==> Midpoint(bounds, i) - bounds[i - 1] == bounds[i] - Midpoint(bounds, i)
    ensures i == |bounds| ==> Midpoint(bounds, i) == 2.0 * bounds[i - 1]
  {
  }

  /** The observations of the ranges below `k`, as the bucket series tell them, by their weights. */
  function SumFromBuckets(c: Corpus, mix: Mix, h: Histogram, t: nat, k: nat): real {
    if k == 0 then 0.0
    else
      var below := if k == 1 then 0.0 else ValueAt(c, mix, BucketS(h, k - 2), t);
      SumFromBuckets(c, mix, h, t, k - 1)
      + (ValueAt(c, mix, BucketS(h, k - 1), t) - below) * Midpoint(c.bounds, k - 1)
  }

  /** The three kinds of series of a histogram agree at every time: the count is the `+Inf`
      bucket, and the sum is what the buckets weigh. */
  lemma HistogramCoheres(c: Corpus, mix: Mix, h: Histogram, t: nat)
    ensures ValueAt(c, mix, CountS(h), t) == ValueAt(c, mix, BucketS(h, |c.bounds|), t)
    ensures ValueAt(c, mix, SumS(h), t) == SumFromBuckets(c, mix, h, t, |c.bounds| + 1)
  {
    hide WeightedSum, SumFromBuckets, BucketCounts;
    SumCoheres(c, mix, h, t, |c.bounds| + 1);
  }

  lemma {:induction false} SumCoheres(c: Corpus, mix: Mix, h: Histogram, t: nat, k: nat)
    ensures WeightedSum(c.bounds, BucketCounts(mix, h, t, k)) == SumFromBuckets(c, mix, h, t, k)
  {
    hide BucketCounts, BucketCount, LeCount, Midpoint, WeightedSum;
    if k == 0 {
      NoRanges(c, mix, h, t);
    } else {
      SumCoheres(c, mix, h, t, k - 1);
      OneMoreRange(c, mix, h, t, k - 1);
      InRange(c, mix, h, t, k - 1);
    }
  }

  lemma NoRanges(c: Corpus, mix: Mix, h: Histogram, t: nat)
    ensures WeightedSum(c.bounds, BucketCounts(mix, h, t, 0)) == 0.0
  {
  }

  lemma OneMoreRange(c: Corpus, mix: Mix, h: Histogram, t: nat, k: nat)
    ensures WeightedSum(c.bounds, BucketCounts(mix, h, t, k + 1))
         == WeightedSum(c.bounds, BucketCounts(mix, h, t, k))
            + BucketCount(mix, h, t, k) as real * Midpoint(c.bounds, k)
  {
    hide BucketCount, Midpoint;
    CountsPrefix(mix, h, t, k, k + 1);
  }

  lemma InRange(c: Corpus, mix: Mix, h: Histogram, t: nat, k: nat)
    ensures ValueAt(c, mix, BucketS(h, k), t) - (if k == 0 then 0.0 else ValueAt(c, mix, BucketS(h, k - 1), t))
         == BucketCount(mix, h, t, k) as real
  {
    hide BucketCount, LeCount;
    if k == 0 { LeFirst(mix, h, t); } else { LeStep(mix, h, t, k); }
  }

  // ----- labels -----

  /** `text` is `prefix` and the decimal digits of `n`. */
  predicate Numbers(text: string, prefix: string, n: nat) {
    && |text| > |prefix| && prefix <= text
    && AllDigits(text[|prefix|..]) && Value(text[|prefix|..]) == n
  }

  lemma LabelsNumber(i: nat)
    ensures Numbers(ServiceLabel(i), "svc-", i)
    ensures Numbers(InstanceLabel(i), "inst-", i)
    ensures Numbers(SlotLabel(i), "slot-", i)
  {
    hide Value, Pad, Print;
    ValuePrint(i);
    ValuePad(i, 3);
    assert ServiceLabel(i)[4..] == Print(i) && InstanceLabel(i)[5..] == Pad(i, 3) && SlotLabel(i)[5..] == Print(i);
  }

  ghost predicate ServiceAndInstance(l: Labels, service: nat, instance: nat) {
    && "service" in l && Numbers(l["service"], "svc-", service)
    && "instance" in l && Numbers(l["instance"], "inst-", instance)
  }

  /** The labels `l` name the series: its family's keys, and which of the family it is. */
  ghost predicate Names(c: Corpus, render: Render, id: SeriesId, l: Labels) {
    match id
    case GaugeS(g) =>
      && l.Keys == {"__name__", "run_id", "service", "instance", "slot"}
      && ServiceAndInstance(l, g.service, g.instance) && Numbers(l["slot"], "slot-", g.slot)
    case CounterS(s) =>
      l.Keys == {"__name__", "run_id", "service", "instance"} && ServiceAndInstance(l, s.service, s.instance)
    case BucketS(h, k) =>
      && l.Keys == {"__name__", "run_id", "service", "instance", "le"}
      && ServiceAndInstance(l, h.service, h.instance)
      && (k < |c.bounds| ==> l["le"] == render(c.bounds[k])) && (k >= |c.bounds| ==> l["le"] == "+Inf")
    case SumS(h) =>
      l.Keys == {"__name__", "run_id", "service", "instance"} && ServiceAndInstance(l, h.service, h.instance)
    case CountS(h) =>
      l.Keys == {"__name__", "run_id", "service", "instance"} && ServiceAndInstance(l, h.service, h.instance)
    case InfoS(i) =>
      && l.Keys == {"__name__", "run_id", "instance", "env", "version"} && Numbers(l["instance"], "inst-", i)
      && (l["env"] == "prod" <==> i % 2 == 0) && l["version"] == ["v1.0.0", "v1.1.0", "v1.2.0"][i % 3]
  }

  /** What a series' labels say: its metric, its run, and which of the family it is. */
  lemma LabelsSay(c: Corpus, render: Render, id: SeriesId)
    ensures var l := LabelsOf(c, render, id);
      && "__name__" in l && l["__name__"] == Name(id) && "run_id" in l && l["run_id"] == c.runId
      && Names(c, render, id, l)
  {
    hide Names;
    LabelNames();
    match id {
      case GaugeS(g) => GaugeLabels(c, render, g);
      case CounterS(s) => CounterLabels(c, render, s);
      case BucketS(h, k) => BucketLabels(c, render, h, k);
      case SumS(h) => SumLabels(c, render, h);
      case CountS(h) => SumLabels(c, render, h);
      case InfoS(i) => InfoLabels(c, render, i);
    }
  }

  lemma GaugeLabels(c: Corpus, render: Render, g: Gauge)
    ensures Names(c, render, GaugeS(g), LabelsOf(c, render, GaugeS(g)))
  {
    hide Numbers, ServiceLabel, InstanceLabel, SlotLabel;
    LabelNames();
    LabelsNumber(g.service);
    LabelsNumber(g.instance);
    LabelsNumber(g.slot);
  }

  lemma CounterLabels(c: Corpus, render: Render, s: Counter)
    ensures Names(c, render, CounterS(s), LabelsOf(c, render, CounterS(s)))
  {
    hide Numbers, ServiceLabel, InstanceLabel;
    LabelNames();
    LabelsNumber(s.service);
    LabelsNumber(s.instance);
  }

  lemma BucketLabels(c: Corpus, render: Render, h: Histogram, k: nat)
    ensures Names(c, render, BucketS(h, k), LabelsOf(c, render, BucketS(h, k)))
  {
    hide Numbers, ServiceLabel, InstanceLabel;
    LabelNames();
    LabelsNumber(h.service);
    LabelsNumber(h.instance);
  }

  lemma SumLabels(c: Corpus, render: Render, h: Histogram)
    ensures Names(c, render, SumS(h), LabelsOf(c, render, SumS(h)))
    ensures Names(c, render, CountS(h), LabelsOf(c, render, CountS(h)))
  {
    hide Numbers, ServiceLabel, InstanceLabel;
    LabelNames();
    LabelsNumber(h.service);
    LabelsNumber(h.instance);
  }

  lemma InfoLabels(c: Corpus, render: Render, i: nat)
    ensures Names(c, render, InfoS(i), LabelsOf(c, render, InfoS(i)))
  {
    hide Numbers, InstanceLabel, VersionLabel;
    LabelNames();
    LabelsNumber(i);
    Versions(i);
  }

  lemma LabelNames()
    ensures "__name__" != "instance" && "service" != "version" && "instance" != "service"
    ensures "service" != "run_id" && "run_id" != "slot"
    ensures "prod" != "staging"
  {
    assert "service"[0] != "version"[0];
  }

  lemma Versions(i: nat)
    ensures VersionLabel(i) == ["v1.0.0", "v1.1.0", "v1.2.0"][i % 3]
  {
    assert Print(0) == "0" && Print(1) == "1" && Print(2) == "2";
  }

  lemma {:induction false} NoLeadingZero(n: nat)
    requires n > 0
    ensures Print(n)[0] != '0'
  {
    if n >= 10 { NoLeadingZero(n / 10); }
  }

  /** The selector `instance=~"inst-0.*"` keeps exactly the first hundred instances. */
  lemma FirstHundredInstances(i: nat)
    ensures "inst-0" <= InstanceLabel(i) <==> i < 100
  {
    var (p, l) := (Print(i), InstanceLabel(i));
    assert l[5..] == Pad(i, 3);
    assert "inst-0" <= l <==> Pad(i, 3)[0] == '0' by {
      assert l[..5] == "inst-" && l[5] == Pad(i, 3)[0];
      assert "inst-0" == "inst-" + "0";
      assert l[..6] == l[..5] + [l[5]];
    }
    if i < 100 {
      assert Pow10(2) == 100;
      PrintWidth(i, 2);
    } else {
      assert |p| >= 3 by { assert p == Print(i / 10) + [DigitChar(i % 10)]; }
      NoLeadingZero(i);
    }
  }

  // ----- times -----

  /** The window runs from the first to the last timestamp in equal steps. */
  lemma TimesSpanTheWindow(spec: Spec, t: nat)
    ensures var c := CorpusOf(spec);
      && TsMs(c, 0) == c.firstTsMs && TsMs(c, t + 1) - TsMs(c, t) == c.stepMs
      && c.lastTsMs == if spec.sampleCount == 0 then c.firstTsMs else TsMs(c, spec.sampleCount - 1)
  {
    hide Specs, SeriesIds, GaugeList, CounterList, HistogramList, TotalSamples;
    assert spec.stepMs * (t + 1) == spec.stepMs * t + spec.stepMs;
  }

  /** Past its cutoff a series is older than the lookback by a full step exactly when the window
      is that long, and then by no more than a second one. */
  lemma StaleGapHasHeadroom(sampleCount: nat, stepMs: int)
    requires sampleCount >= 1
    ensures var gap := sampleCount - StaleCutoff(sampleCount, stepMs);
      && (gap * stepMs > 300_000 + stepMs <==> (sampleCount - 1) * stepMs > 300_000 + stepMs)
      && (stepMs > 0 && gap * stepMs > 300_000 + stepMs ==> gap * stepMs <= 300_000 + 2 * stepMs)
  {
    hide StaleCutoff;
    var (maxIdx, lookback) := (sampleCount - 1, if stepMs > 0 then LOOKBACK_MS / stepMs else 0);
    CutoffAt(sampleCount, stepMs, lookback);
    if stepMs > 0 {
      QuotientBounds(LOOKBACK_MS, stepMs);
      Headroom(maxIdx, stepMs, lookback);
    } else if maxIdx >= 2 {
      NotPositive(maxIdx - 1, stepMs);
      Spread(maxIdx - 1, 1, stepMs);
    }
  }

  lemma Headroom(maxIdx: nat, step: int, lookback: nat)
    requires step > 0 && lookback * step <= 300_000 < (lookback + 1) * step
    ensures maxIdx * step > 300_000 + step <==> maxIdx >= lookback + 2
    ensures 300_000 + step < (lookback + 2) * step <= 300_000 + 2 * step
  {
    var p := lookback * step;
    assert (lookback + 1) * step == p + step && (lookback + 2) * step == p + 2 * step;
    if maxIdx >= lookback + 2 { MulLe(lookback + 2, maxIdx, step); } else { MulLe(maxIdx, lookback + 1, step); }
  }

  /** The cutoff leaves `lookback + 2` steps to the end, when there are so many. */
  lemma CutoffAt(sampleCount: nat, stepMs: int, lookback: nat)
    requires sampleCount >= 1 && lookback == if stepMs > 0 then LOOKBACK_MS / stepMs else 0
    ensures var gap := sampleCount - StaleCutoff(sampleCount, stepMs);
      gap == if sampleCount - 1 >= lookback + 2 then lookback + 2 else sampleCount - 1
  {
  }

  /** Counters reset in the middle, inside the window when it has two timestamps. */
  lemma ResetsInTheMiddle(sampleCount: nat)
    ensures sampleCount >= 2 ==>
      1 <= ResetAt(sampleCount) < sampleCount && sampleCount - 1 <= 2 * ResetAt(sampleCount) <= sampleCount
    ensures sampleCount < 2 ==> ResetAt(sampleCount) == 1
  {
  }

  /** An activity bucket is the hour a timestamp falls into. */
  lemma BucketIsTheHour(ms: int)
    requires ms >= 0
    ensures ActivityBucket(ms) <= ms < ActivityBucket(ms) + 3_600_000 && ActivityBucket(ms) % 3_600_000 == 0
  {
    DivUnique(ActivityBucket(ms), 3_600_000, ms / 3_600_000, 0);
  }

  /** A window floored on both ends misses no sample: the answer is a superset of the exact one. */
  lemma FlooredWindowMissesNothing(start: int, end: int, ms: int)
    requires 0 <= start <= ms <= end
    ensures ActivityBucket(start) <= ActivityBucket(ms) <= ActivityBucket(end)
  {
    var h := 3_600_000;
    DivOrder(start, ms, h);
    DivOrder(ms, end, h);
    MulLe(start / h, ms / h, h);
    MulLe(ms / h, end / h, h);
  }

  lemma DivOrder(a: int, b: int, d: int)
    requires a <= b && d > 0
    ensures a / d <= b / d
  {
    if a / d > b / d { MulLe(b / d + 1, a / d, d); }
  }

  // ----- sizes -----

  lemma {:induction false} HistogramSize(hs: seq<Histogram>, bounds: nat)
    ensures |HistogramIds(hs, bounds)| == |hs| * (bounds + 3)
  {
    if hs != [] {
      HistogramSize(hs[..|hs| - 1], bounds);
      Spread(|hs| - 1, 1, bounds + 3);
    }
  }

  /** The corpus has one series per gauge slot, counter and info, and `bounds + 3` per histogram. */
  lemma ExpectedSeriesExactly(spec: Spec)
    ensures var f := spec.families;
      CorpusOf(spec).expectedSeries
      == f.services * f.gaugeInstances * f.gaugeSlots + f.services * f.counterInstances
         + f.services * f.histogramInstances * (|spec.bounds| + 3) + f.targetInfoInstances
  {
    hide TotalSamples, StaleCutoff, ResetAt, HistogramIds;
    var f := spec.families;
    HistogramSize(HistogramList(f, f.services * f.histogramInstances), |spec.bounds|);
  }

  /** Samples of the series, as long as only stale gauges lose any. */
  lemma {:induction false} FullSamples(ids: seq<SeriesId>, n: nat)
    requires forall i :: 0 <= i < |ids| ==> !ids[i].GaugeS?
    ensures TotalSamples(Specs(ids, n)) == |ids| * n
  {
    if ids != [] {
      var last := |ids| - 1;
      FullSamples(ids[..last], n);
      assert Specs(ids, n)[..last] == Specs(ids[..last], n);
      Spread(last, 1, n);
    }
  }

  lemma GaugesSpecSnoc(f: Families, cutoff: nat, g: nat, n: nat)
    ensures TotalSamples(Specs(GaugeIds(GaugeList(f, cutoff, 0)), n)) == 0
    ensures TotalSamples(Specs(GaugeIds(GaugeList(f, cutoff, g + 1)), n))
         == TotalSamples(Specs(GaugeIds(GaugeList(f, cutoff, g)), n)) + if g % 6 == 0 then cutoff else n
  {
    hide Quot, Rest;
    var (before, after) := (GaugeIds(GaugeList(f, cutoff, g)), GaugeIds(GaugeList(f, cutoff, g + 1)));
    assert after[..g] == before && Specs(after, n)[..g] == Specs(before, n);
    assert Specs(after, n)[g].samples == if g % 6 == 0 then cutoff else n;
  }

  lemma {:induction false} GaugeSamples(f: Families, cutoff: nat, g: nat, n: nat)
    ensures var stale := (g + 5) / 6;
      TotalSamples(Specs(GaugeIds(GaugeList(f, cutoff, g)), n)) == (g - stale) * n + stale * cutoff
  {
    hide TotalSamples, Specs, GaugeIds, GaugeList;
    GaugesSpecSnoc(f, cutoff, if g > 0 then g - 1 else 0, n);
    if g > 0 {
      GaugeSamples(f, cutoff, g - 1, n);
      OneMoreGauge(g - 1, cutoff, n);
    }
  }

  lemma OneMoreGauge(g: nat, cutoff: nat, n: nat)
    ensures var (stale, more) := ((g + 5) / 6, (g + 6) / 6);
      (g + 1 - more) * n + more * cutoff
      == (g - stale) * n + stale * cutoff + if g % 6 == 0 then cutoff else n
  {
    var (stale, more) := ((g + 5) / 6, (g + 6) / 6);
    assert more == stale + if g % 6 == 0 then 1 else 0;
    Spread(g - stale, 1, n);
    Spread(stale, 1, cutoff);
  }

  lemma {:induction false} SamplesJoin(a: seq<SeriesSpec>, b: seq<SeriesSpec>)
    ensures TotalSamples(a + b) == TotalSamples(a) + TotalSamples(b)
  {
    if b == [] {
      assert a + b == a;
    } else {
      SamplesJoin(a, b[..|b| - 1]);
      assert (a + b)[..|a + b| - 1] == a + b[..|b| - 1];
    }
  }

  /** Every series carries every timestamp, except that every sixth gauge stops at the cutoff. */
  lemma ExpectedSamplesExactly(spec: Spec)
    ensures var (c, f, n) := (CorpusOf(spec), spec.families, spec.sampleCount);
      var stale := (f.services * f.gaugeInstances * f.gaugeSlots + 5) / 6;
      c.expectedSamples == (c.expectedSeries - stale) * n + stale * StaleCutoff(n, spec.stepMs)
  {
    hide TotalSamples, StaleCutoff, ResetAt, GaugeAt, Specs, GaugeIds, CounterIds, HistogramIds, InfoIds;
    var (c, f, n) := (CorpusOf(spec), spec.families, spec.sampleCount);
    var g := f.services * f.gaugeInstances * f.gaugeSlots;
    var (gauges, rest) := (GaugeIds(c.gauges), RestIds(c));
    SpecsJoin(c, n);
    SamplesJoin(Specs(gauges, n), Specs(rest, n));
    GaugeSamples(f, StaleCutoff(n, spec.stepMs), g, n);
    FullSamples(rest, n);
    Spread(g - (g + 5) / 6, |rest|, n);
  }

  /** Every series but the gauges. */
  function RestIds(c: Corpus): seq<SeriesId> {
    CounterIds(c.counters) + HistogramIds(c.histograms, |c.bounds|) + InfoIds(c.infos)
  }

  lemma SpecsJoin(c: Corpus, n: nat)
    ensures Specs(IdsOf(c), n) == Specs(GaugeIds(c.gauges), n) + Specs(RestIds(c), n)
    ensures |Specs(IdsOf(c), n)| == |c.gauges| + |RestIds(c)|
    ensures forall i :: 0 <= i < |RestIds(c)| ==> !RestIds(c)[i].GaugeS?
  {
    hide SpecOf, HistogramIds;
    NoGauges(c.histograms, |c.bounds|);
    assert IdsOf(c) == GaugeIds(c.gauges) + RestIds(c);
  }

  lemma {:induction false} NoGauges(hs: seq<Histogram>, bounds: nat)
    ensures forall i :: 0 <= i < |HistogramIds(hs, bounds)| ==> !HistogramIds(hs, bounds)[i].GaugeS?
  {
    if hs != [] { NoGauges(hs[..|hs| - 1], bounds); }
  }
}
