/** The metric corpus of `e2e/src/corpus.rs`: its series identities, in
    generation order, and its completeness manifest. */
module MetricCorpus {
  import opened Arithmetic
  import opened Common

  const GAUGE_STALE_MODULUS := 6
  const COUNTER_RESET_MODULUS := 5
  const LOOKBACK_MS := 300_000
  const GAUGE_TAG: nat := 0xA1
  const COUNTER_TAG: nat := 0xB2
  const HISTOGRAM_TAG: nat := 0xC3

  /** `mix` for a fixed seed. */
  type Mix = seq<nat> -> nat

  datatype Families = Families(services: nat, gaugeInstances: nat, gaugeSlots: nat, counterInstances: nat,
                               histogramInstances: nat, targetInfoInstances: nat)

  datatype Spec = Spec(stepMs: int, sampleCount: nat, baseMs: int, runId: string, families: Families, bounds: seq<real>)

  datatype Gauge = Gauge(service: nat, instance: nat, slot: nat, staleFrom: Option<nat>)

  datatype Counter = Counter(service: nat, instance: nat, resetAt: Option<nat>)

  datatype Histogram = Histogram(service: nat, instance: nat)

  datatype SeriesSpec = SeriesSpec(name: string, samples: nat)

  datatype Corpus = Corpus(runId: string, baseMs: int, stepMs: int, sampleCount: nat, gauges: seq<Gauge>,
                           counters: seq<Counter>, histograms: seq<Histogram>, infos: nat, bounds: seq<real>,
                           series: seq<SeriesSpec>, expectedSeries: nat, expectedSamples: nat,
                           firstTsMs: int, lastTsMs: int)

  // ----- the stale cutoff -----

  function SaturatingSub(a: nat, b: nat): nat { if a < b then 0 else a - b }

  /** `stale_cutoff_for`. */
  function StaleCutoff(sampleCount: nat, stepMs: int): nat {
    var maxIdx := SaturatingSub(sampleCount, 1);
    var lookback := if stepMs > 0 then LOOKBACK_MS / stepMs else 0;
    Min(Max(SaturatingSub(maxIdx, lookback + 1), 1), Max(SaturatingSub(maxIdx, 1), 1))
  }

  function ResetAt(sampleCount: nat): nat {
    Min(Max(sampleCount / 2, 1), Max(SaturatingSub(sampleCount, 1), 1))
  }

  /** A stale series keeps at least one sample and, unless there are no samples at all, no
      more than there are; from two samples on it loses its last one. */
  lemma CutoffInRange(sampleCount: nat, stepMs: int)
    ensures StaleCutoff(sampleCount, stepMs) >= 1
    ensures StaleCutoff(sampleCount, stepMs) <= sampleCount <==> sampleCount >= 1
    ensures StaleCutoff(sampleCount, stepMs) < sampleCount <==> sampleCount >= 2
  {
  }

  /** The last timestamp lies more than the lookback after a stale series' last sample exactly
      when the whole window is longer than the lookback. */
  lemma StaleGapCrossesLookback(sampleCount: nat, stepMs: int)
    requires sampleCount >= 1
    ensures var lastReal := StaleCutoff(sampleCount, stepMs) - 1;
      (sampleCount - 1 - lastReal) * stepMs > LOOKBACK_MS <==> (sampleCount - 1) * stepMs > LOOKBACK_MS
  {
    var maxIdx := sampleCount - 1;
    if stepMs > 0 {
      var lookback := LOOKBACK_MS / stepMs;
      QuotientBounds(LOOKBACK_MS, stepMs);
      if maxIdx >= lookback + 2 {
        assert StaleCutoff(sampleCount, stepMs) == maxIdx - lookback - 1;
        MulLe(lookback + 1, lookback + 2, stepMs);
        MulLe(lookback + 1, maxIdx, stepMs);
      } else {
        assert StaleCutoff(sampleCount, stepMs) == 1;
      }
    } else {
      var gap := maxIdx - (StaleCutoff(sampleCount, stepMs) - 1);
      assert gap >= 0;
      NotPositive(gap, stepMs);
      NotPositive(maxIdx, stepMs);
    }
  }

  lemma QuotientBounds(a: nat, b: int)
    requires b > 0
    ensures a / b * b <= a < (a / b + 1) * b
  {
  }

  lemma NotPositive(x: int, k: int)
    requires x >= 0 && k <= 0
    ensures x * k <= 0
  {
  }

  // ----- identities by flat index -----

  function Quot(a: nat, b: nat): nat { if b == 0 then 0 else a / b }

  function Rest(a: nat, b: nat): nat { if b == 0 then 0 else a % b }

  lemma Digits(q: nat, b: nat, r: nat)
    requires r < b
    ensures q * b + r >= 0 && Quot(q * b + r, b) == q && Rest(q * b + r, b) == r
  {
    DivUnique(q * b + r, b, q, r);
  }

  /** The gauge at position `flat` of the generation order. */
  function GaugeAt(f: Families, cutoff: nat, flat: nat): Gauge {
    var pair := Quot(flat, f.gaugeSlots);
    Gauge(Quot(pair, f.gaugeInstances), Rest(pair, f.gaugeInstances), Rest(flat, f.gaugeSlots),
          if flat % GAUGE_STALE_MODULUS == 0 then Some(cutoff) else None)
  }

  function CounterAt(f: Families, resetAt: nat, flat: nat): Counter {
    Counter(Quot(flat, f.counterInstances), Rest(flat, f.counterInstances),
            if flat % COUNTER_RESET_MODULUS == 0 then Some(resetAt) else None)
  }

  function HistogramAt(f: Families, flat: nat): Histogram {
    Histogram(Quot(flat, f.histogramInstances), Rest(flat, f.histogramInstances))
  }

  function GaugeList(f: Families, cutoff: nat, n: nat): seq<Gauge> {
    seq(n, flat requires 0 <= flat => GaugeAt(f, cutoff, flat))
  }

  function CounterList(f: Families, resetAt: nat, n: nat): seq<Counter> {
    seq(n, flat requires 0 <= flat => CounterAt(f, resetAt, flat))
  }

  function HistogramList(f: Families, n: nat): seq<Histogram> {
    seq(n, flat requires 0 <= flat => HistogramAt(f, flat))
  }

  lemma NextBlock(s: nat, n: nat)
    ensures s * n + n == (s + 1) * n
  {
  }

  lemma GaugeIndex(f: Families, cutoff: nat, s: nat, i: nat, k: nat)
    requires i < f.gaugeInstances && k < f.gaugeSlots
    ensures var flat := (s * f.gaugeInstances + i) * f.gaugeSlots + k;
      && flat >= 0
      && GaugeAt(f, cutoff, flat) == Gauge(s, i, k, if flat % GAUGE_STALE_MODULUS == 0 then Some(cutoff) else None)
  {
    var pair := s * f.gaugeInstances + i;
    Digits(pair, f.gaugeSlots, k);
    Digits(s, f.gaugeInstances, i);
  }

  /** The gauge loops of `generate`. */
  method GenerateGauges(f: Families, cutoff: nat) returns (gauges: seq<Gauge>)
    ensures gauges == GaugeList(f, cutoff, f.services * f.gaugeInstances * f.gaugeSlots)
  {
    hide GaugeAt;
    var (m, n) := (f.gaugeInstances, f.gaugeSlots);
    gauges := [];
    var flat := 0;
    for s := 0 to f.services
      invariant flat == s * m * n && gauges == GaugeList(f, cutoff, flat)
    {
      for i := 0 to m
        invariant flat == (s * m + i) * n && gauges == GaugeList(f, cutoff, flat)
      {
        for k := 0 to n
          invariant flat == (s * m + i) * n + k && gauges == GaugeList(f, cutoff, flat)
        {
          GaugeIndex(f, cutoff, s, i, k);
          gauges := gauges + [Gauge(s, i, k, if flat % GAUGE_STALE_MODULUS == 0 then Some(cutoff) else None)];
          flat := flat + 1;
        }
        NextBlock(s * m + i, n);
      }
      NextBlock(s, m);
    }
  }

  lemma CounterIndex(f: Families, resetAt: nat, s: nat, i: nat)
    requires i < f.counterInstances
    ensures var flat := s * f.counterInstances + i;
      && flat >= 0
      && CounterAt(f, resetAt, flat) == Counter(s, i, if flat % COUNTER_RESET_MODULUS == 0 then Some(resetAt) else None)
  {
    Digits(s, f.counterInstances, i);
  }

  method GenerateCounters(f: Families, resetAt: nat) returns (counters: seq<Counter>)
    ensures counters == CounterList(f, resetAt, f.services * f.counterInstances)
  {
    hide CounterAt;
    counters := [];
    var flat := 0;
    for s := 0 to f.services
      invariant flat == s * f.counterInstances && counters == CounterList(f, resetAt, flat)
    {
      for i := 0 to f.counterInstances
        invariant flat == s * f.counterInstances + i && counters == CounterList(f, resetAt, flat)
      {
        CounterIndex(f, resetAt, s, i);
        counters := counters + [Counter(s, i, if flat % COUNTER_RESET_MODULUS == 0 then Some(resetAt) else None)];
        flat := flat + 1;
      }
      NextBlock(s, f.counterInstances);
    }
  }

  method GenerateHistograms(f: Families) returns (histograms: seq<Histogram>)
    ensures histograms == HistogramList(f, f.services * f.histogramInstances)
  {
    hide HistogramAt;
    histograms := [];
    for s := 0 to f.services
      invariant histograms == HistogramList(f, s * f.histogramInstances)
    {
      for i := 0 to f.histogramInstances
        invariant s * f.histogramInstances + i >= 0
        invariant histograms == HistogramList(f, s * f.histogramInstances + i)
      {
        HistogramIndex(f, s, i);
        histograms := histograms + [Histogram(s, i)];
      }
      NextBlock(s, f.histogramInstances);
    }
  }

  lemma HistogramIndex(f: Families, s: nat, i: nat)
    requires i < f.histogramInstances
    ensures s * f.histogramInstances + i >= 0 && HistogramAt(f, s * f.histogramInstances + i) == Histogram(s, i)
  {
    Digits(s, f.histogramInstances, i);
  }

  // ----- the flattened series -----

  /** One concrete series: a histogram stands for its buckets, its sum and its count. */
  datatype SeriesId = GaugeS(g: Gauge) | CounterS(c: Counter) | BucketS(h: Histogram, k: nat) | SumS(h: Histogram)
    | CountS(h: Histogram) | InfoS(i: nat)

  function Name(id: SeriesId): string {
    match id
    case GaugeS(_) => "mem_usage_bytes"
    case CounterS(_) => "requests_total"
    case BucketS(_, _) => "request_duration_seconds_bucket"
    case SumS(_) => "request_duration_seconds_sum"
    case CountS(_) => "request_duration_seconds_count"
    case InfoS(_) => "target_info"
  }

  /** How many samples a series carries when there are `n` timestamps. */
  function Emitted(id: SeriesId, n: nat): nat {
    if id.GaugeS? && id.g.staleFrom.Some? then id.g.staleFrom.value else n
  }

  function GaugeIds(gs: seq<Gauge>): seq<SeriesId> { seq(|gs|, i requires 0 <= i < |gs| => GaugeS(gs[i])) }

  function CounterIds(cs: seq<Counter>): seq<SeriesId> { seq(|cs|, i requires 0 <= i < |cs| => CounterS(cs[i])) }

  function BucketIds(h: Histogram, n: nat): seq<SeriesId> { seq(n, k requires 0 <= k => BucketS(h, k)) }

  function OneHistogram(h: Histogram, bounds: nat): seq<SeriesId> { BucketIds(h, bounds + 1) + [SumS(h), CountS(h)] }

  function HistogramIds(hs: seq<Histogram>, bounds: nat): seq<SeriesId> {
    if hs == [] then [] else HistogramIds(hs[..|hs| - 1], bounds) + OneHistogram(hs[|hs| - 1], bounds)
  }

  function InfoIds(n: nat): seq<SeriesId> { seq(n, i requires 0 <= i => InfoS(i)) }

  /** Every series, in the order all the renderings use. */
  function SeriesIds(gs: seq<Gauge>, cs: seq<Counter>, hs: seq<Histogram>, bounds: nat, infos: nat): seq<SeriesId> {
    GaugeIds(gs) + CounterIds(cs) + HistogramIds(hs, bounds) + InfoIds(infos)
  }

  function IdsOf(c: Corpus): seq<SeriesId> {
    SeriesIds(c.gauges, c.counters, c.histograms, |c.bounds|, c.infos)
  }

  function SpecOf(id: SeriesId, n: nat): SeriesSpec { SeriesSpec(Name(id), Emitted(id, n)) }

  function Specs(ids: seq<SeriesId>, n: nat): seq<SeriesSpec> {
    seq(|ids|, i requires 0 <= i < |ids| => SpecOf(ids[i], n))
  }

  lemma SpecsSnoc(ids: seq<SeriesId>, id: SeriesId, n: nat)
    ensures Specs(ids + [id], n) == Specs(ids, n) + [SpecOf(id, n)]
  {
  }

  lemma GaugesSnoc(gs: seq<Gauge>, g: Gauge)
    ensures GaugeIds(gs + [g]) == GaugeIds(gs) + [GaugeS(g)]
  {
  }

  lemma CountersSnoc(cs: seq<Counter>, c: Counter)
    ensures CounterIds(cs + [c]) == CounterIds(cs) + [CounterS(c)]
  {
  }

  lemma BucketsSnoc(h: Histogram, n: nat)
    ensures BucketIds(h, n + 1) == BucketIds(h, n) + [BucketS(h, n)]
  {
  }

  lemma HistogramsSnoc(hs: seq<Histogram>, h: Histogram, bounds: nat)
    ensures HistogramIds(hs + [h], bounds) == HistogramIds(hs, bounds) + OneHistogram(h, bounds)
  {
    assert (hs + [h])[..|hs|] == hs;
  }

  lemma InfosSnoc(n: nat)
    ensures InfoIds(n + 1) == InfoIds(n) + [InfoS(n)]
  {
  }

  lemma NoIds()
    ensures GaugeIds([]) == [] && CounterIds([]) == [] && HistogramIds([], 0) == [] && InfoIds(0) == []
    ensures forall h :: BucketIds(h, 0) == []
    ensures forall bounds: nat :: HistogramIds([], bounds) == []
    ensures forall n: nat :: Specs([], n) == []
  {
  }

  lemma Take<T>(s: seq<T>, i: nat)
    requires i < |s|
    ensures s[..i + 1] == s[..i] + [s[i]]
  {
  }

  /** The histogram block of the manifest loop. */
  method PushHistogram(done: seq<SeriesSpec>, ghost ids: seq<SeriesId>, h: Histogram, bounds: nat, n: nat)
    returns (series: seq<SeriesSpec>)
    requires done == Specs(ids, n)
    ensures series == Specs(ids + OneHistogram(h, bounds), n)
  {
    hide Specs, BucketIds;
    series := done;
    NoIds();
    assert ids + [] == ids;
    for k := 0 to bounds + 1
      invariant series == Specs(ids + BucketIds(h, k), n)
    {
      BucketsSnoc(h, k);
      SpecsSnoc(ids + BucketIds(h, k), BucketS(h, k), n);
      assert ids + BucketIds(h, k) + [BucketS(h, k)] == ids + BucketIds(h, k + 1);
      series := series + [SeriesSpec("request_duration_seconds_bucket", n)];
    }
    var all := ids + BucketIds(h, bounds + 1);
    SpecsSnoc(all, SumS(h), n);
    SpecsSnoc(all + [SumS(h)], CountS(h), n);
    assert all + [SumS(h)] + [CountS(h)] == ids + OneHistogram(h, bounds);
    series := series + [SeriesSpec("request_duration_seconds_sum", n)];
    series := series + [SeriesSpec("request_duration_seconds_count", n)];
  }

  /** The manifest loops of `generate`. */
  method GenerateSeries(gs: seq<Gauge>, cs: seq<Counter>, hs: seq<Histogram>, bounds: nat, infos: nat, n: nat)
    returns (series: seq<SeriesSpec>)
    ensures series == Specs(SeriesIds(gs, cs, hs, bounds, infos), n)
  {
    hide Specs, GaugeIds, CounterIds, HistogramIds, InfoIds;
    NoIds();
    series := [];
    for i := 0 to |gs|
      invariant series == Specs(GaugeIds(gs[..i]), n)
    {
      Take(gs, i);
      GaugesSnoc(gs[..i], gs[i]);
      SpecsSnoc(GaugeIds(gs[..i]), GaugeS(gs[i]), n);
      series := series + [SeriesSpec("mem_usage_bytes", if gs[i].staleFrom.Some? then gs[i].staleFrom.value else n)];
    }
    ghost var one := GaugeIds(gs);
    assert gs[..|gs|] == gs && one + [] == one;
    for i := 0 to |cs|
      invariant series == Specs(one + CounterIds(cs[..i]), n)
    {
      Take(cs, i);
      CountersSnoc(cs[..i], cs[i]);
      SpecsSnoc(one + CounterIds(cs[..i]), CounterS(cs[i]), n);
      assert one + CounterIds(cs[..i]) + [CounterS(cs[i])] == one + CounterIds(cs[..i + 1]);
      series := series + [SeriesSpec("requests_total", n)];
    }
    ghost var two := one + CounterIds(cs);
    assert cs[..|cs|] == cs && two + [] == two;
    for i := 0 to |hs|
      invariant series == Specs(two + HistogramIds(hs[..i], bounds), n)
    {
      Take(hs, i);
      HistogramsSnoc(hs[..i], hs[i], bounds);
      series := PushHistogram(series, two + HistogramIds(hs[..i], bounds), hs[i], bounds, n);
      assert two + HistogramIds(hs[..i], bounds) + OneHistogram(hs[i], bounds)
          == two + HistogramIds(hs[..i + 1], bounds);
    }
    ghost var three := two + HistogramIds(hs, bounds);
    assert hs[..|hs|] == hs && three + [] == three;
    for i := 0 to infos
      invariant series == Specs(three + InfoIds(i), n)
    {
      InfosSnoc(i);
      SpecsSnoc(three + InfoIds(i), InfoS(i), n);
      assert three + InfoIds(i) + [InfoS(i)] == three + InfoIds(i + 1);
      series := series + [SeriesSpec("target_info", n)];
    }
  }

  function TotalSamples(series: seq<SeriesSpec>): nat {
    if series == [] then 0 else TotalSamples(series[..|series| - 1]) + series[|series| - 1].samples
  }

  function CorpusOf(spec: Spec): Corpus {
    var f := spec.families;
    var cutoff := StaleCutoff(spec.sampleCount, spec.stepMs);
    var gauges := GaugeList(f, cutoff, f.services * f.gaugeInstances * f.gaugeSlots);
    var counters := CounterList(f, ResetAt(spec.sampleCount), f.services * f.counterInstances);
    var histograms := HistogramList(f, f.services * f.histogramInstances);
    var ids := SeriesIds(gauges, counters, histograms, |spec.bounds|, f.targetInfoInstances);
    var series := Specs(ids, spec.sampleCount);
    Corpus(spec.runId, spec.baseMs, spec.stepMs, spec.sampleCount, gauges, counters, histograms, f.targetInfoInstances,
           spec.bounds, series, |series|, TotalSamples(series), spec.baseMs,
           spec.baseMs + spec.stepMs * SaturatingSub(spec.sampleCount, 1))
  }

  /** `generate`. */
  method Generate(spec: Spec) returns (c: Corpus)
    ensures c == CorpusOf(spec)
  {
    hide Specs, SeriesIds, GaugeList, CounterList, HistogramList;
    var f := spec.families;
    var gauges := GenerateGauges(f, StaleCutoff(spec.sampleCount, spec.stepMs));
    var counters := GenerateCounters(f, ResetAt(spec.sampleCount));
    var histograms := GenerateHistograms(f);
    var series := GenerateSeries(gauges, counters, histograms, |spec.bounds|, f.targetInfoInstances, spec.sampleCount);
    c := Corpus(spec.runId, spec.baseMs, spec.stepMs, spec.sampleCount, gauges, counters, histograms,
                f.targetInfoInstances, spec.bounds, series, |series|, TotalSamples(series), spec.baseMs,
                spec.baseMs + spec.stepMs * SaturatingSub(spec.sampleCount, 1));
  }

  // ----- the manifest -----

  function NamedSeries(series: seq<SeriesSpec>, name: string): nat {
    if series == [] then 0
    else NamedSeries(series[..|series| - 1], name) + if series[|series| - 1].name == name then 1 else 0
  }

  function NamedSamples(series: seq<SeriesSpec>, name: string): nat {
    if series == [] then 0
    else
      NamedSamples(series[..|series| - 1], name)
      + if series[|series| - 1].name == name then series[|series| - 1].samples else 0
  }

  /** Each name that occurs maps to its own counts; no other name is there. */
  ghost predicate IsManifest(m: map<string, (nat, nat)>, series: seq<SeriesSpec>) {
    && (forall name :: name in m <==> NamedSeries(series, name) > 0)
    && (forall name :: name in m ==> m[name] == (NamedSeries(series, name), NamedSamples(series, name)))
  }

  lemma {:induction false} NoneNamed(series: seq<SeriesSpec>, name: string)
    requires NamedSeries(series, name) == 0
    ensures NamedSamples(series, name) == 0
  {
    if series != [] { NoneNamed(series[..|series| - 1], name); }
  }

  lemma NamedSnoc(series: seq<SeriesSpec>, s: SeriesSpec, name: string)
    ensures NamedSeries(series + [s], name) == NamedSeries(series, name) + if s.name == name then 1 else 0
    ensures NamedSamples(series + [s], name) == NamedSamples(series, name) + if s.name == name then s.samples else 0
  {
    assert (series + [s])[..|series|] == series;
  }

  /** `per_metric_manifest`. */
  method PerMetricManifest(series: seq<SeriesSpec>) returns (manifest: map<string, (nat, nat)>)
    ensures IsManifest(manifest, series)
  {
    manifest := map[];
    for i := 0 to |series|
      invariant IsManifest(manifest, series[..i])
    {
      hide NamedSeries, NamedSamples;
      var s := series[i];
      Take(series, i);
      var (was, now) := (series[..i], series[..i + 1]);
      forall name ensures NamedSeries(now, name) == NamedSeries(was, name) + if s.name == name then 1 else 0 {
        NamedSnoc(series[..i], s, name);
      }
      forall name ensures NamedSamples(now, name) == NamedSamples(was, name) + if s.name == name then s.samples else 0 {
        NamedSnoc(series[..i], s, name);
      }
      if s.name !in manifest { NoneNamed(series[..i], s.name); }
      var entry := if s.name in manifest then manifest[s.name] else (0, 0);
      manifest := manifest[s.name := (entry.0 + 1, entry.1 + s.samples)];
    }
    assert series[..|series|] == series;
  }
}
