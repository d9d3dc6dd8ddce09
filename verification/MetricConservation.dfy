/** Conservation between the renderings of the metric corpus in
    `e2e/src/corpus.rs`: the OTLP requests, flattened as the collector flattens
    them, against the remote-write series. */
module MetricConservation {
  import opened Arithmetic
  import opened Common
  import opened MetricCorpus
  import opened MetricValues
  import opened MetricRenderings

  // ----- OTLP requests -----

  datatype Point = Point(attrs: Labels, timeNs: int, value: real)

  datatype HistogramPoint = HistogramPoint(attrs: Labels, timeNs: int, count: nat, sum: real, bucketCounts: seq<nat>,
                                           bounds: seq<real>)

  datatype Request = Request(gauges: seq<Point>, counters: seq<Point>, infos: seq<Point>,
                             histograms: seq<HistogramPoint>)

  function TimeNs(c: Corpus, t: nat): int { TsMs(c, t) * 1_000_000 }

  function GaugePoint(c: Corpus, mix: Mix, g: Gauge, t: nat): Point {
    Point(map["service" := ServiceLabel(g.service), "instance" := InstanceLabel(g.instance),
              "slot" := SlotLabel(g.slot), "run_id" := c.runId], TimeNs(c, t), GaugeValue(mix, g, t) as real)
  }

  function CounterPoint(c: Corpus, mix: Mix, cs: Counter, t: nat): Point {
    Point(map["service" := ServiceLabel(cs.service), "instance" := InstanceLabel(cs.instance), "run_id" := c.runId],
          TimeNs(c, t), CounterValue(mix, cs, t) as real)
  }

  function InfoPoint(c: Corpus, i: nat, t: nat): Point {
    Point(map["instance" := InstanceLabel(i), "version" := VersionLabel(i), "env" := EnvLabel(i),
              "run_id" := c.runId], TimeNs(c, t), 1.0)
  }

  function HistogramPointOf(c: Corpus, mix: Mix, h: Histogram, t: nat): HistogramPoint {
    var counts := BucketCounts(mix, h, t, |c.bounds| + 1);
    HistogramPoint(map["service" := ServiceLabel(h.service), "instance" := InstanceLabel(h.instance),
                       "run_id" := c.runId],
                   TimeNs(c, t), SumOf(counts), WeightedSum(c.bounds, counts), counts, c.bounds)
  }

  /** The gauges that are not stale at `t`. */
  function GaugePoints(c: Corpus, mix: Mix, gs: seq<Gauge>, t: nat): seq<Point> {
    if gs == [] then []
    else
      var g := gs[|gs| - 1];
      GaugePoints(c, mix, gs[..|gs| - 1], t) + if GaugeIsStale(g, t) then [] else [GaugePoint(c, mix, g, t)]
  }

  function CounterPoints(c: Corpus, mix: Mix, cs: seq<Counter>, t: nat): seq<Point> {
    if cs == [] then [] else CounterPoints(c, mix, cs[..|cs| - 1], t) + [CounterPoint(c, mix, cs[|cs| - 1], t)]
  }

  function InfoPoints(c: Corpus, n: nat, t: nat): seq<Point> {
    if n == 0 then [] else InfoPoints(c, n - 1, t) + [InfoPoint(c, n - 1, t)]
  }

  function HistogramPoints(c: Corpus, mix: Mix, hs: seq<Histogram>, t: nat): seq<HistogramPoint> {
    if hs == [] then []
    else HistogramPoints(c, mix, hs[..|hs| - 1], t) + [HistogramPointOf(c, mix, hs[|hs| - 1], t)]
  }

  /** `build_request`; an empty list stands for a metric that is left out. */
  function BuildRequest(c: Corpus, mix: Mix, t: nat): Request {
    Request(GaugePoints(c, mix, c.gauges, t), CounterPoints(c, mix, c.counters, t), InfoPoints(c, c.infos, t),
            HistogramPoints(c, mix, c.histograms, t))
  }

  // ----- the collector's flattening -----

  function FlattenPoint(name: string, p: Point): Sample {
    Sample(p.attrs["__name__" := name], p.timeNs / 1_000_000, p.value)
  }

  function FlattenPoints(name: string, ps: seq<Point>): seq<Sample> {
    if ps == [] then [] else FlattenPoints(name, ps[..|ps| - 1]) + [FlattenPoint(name, ps[|ps| - 1])]
  }

  /** Bucket `k`, cumulated up to its bound. */
  function FlattenBucket(render: Render, p: HistogramPoint, k: nat): Sample
    requires k < |p.bucketCounts|
  {
    Sample(p.attrs["__name__" := "request_duration_seconds_bucket"]["le" := LeLabel(p.bounds, render, k)],
           p.timeNs / 1_000_000, SumOf(p.bucketCounts[..k + 1]) as real)
  }

  function FlattenBuckets(render: Render, p: HistogramPoint, n: nat): seq<Sample>
    requires n <= |p.bucketCounts|
  {
    if n == 0 then [] else FlattenBuckets(render, p, n - 1) + [FlattenBucket(render, p, n - 1)]
  }

  function FlattenHistogram(render: Render, p: HistogramPoint): seq<Sample> {
    FlattenBuckets(render, p, |p.bucketCounts|)
    + [FlattenPoint("request_duration_seconds_sum", Point(p.attrs, p.timeNs, p.sum)),
       FlattenPoint("request_duration_seconds_count", Point(p.attrs, p.timeNs, p.count as real))]
  }

  function FlattenHistograms(render: Render, ps: seq<HistogramPoint>): seq<Sample> {
    if ps == [] then [] else FlattenHistograms(render, ps[..|ps| - 1]) + FlattenHistogram(render, ps[|ps| - 1])
  }

  function Flatten(render: Render, r: Request): seq<Sample> {
    FlattenPoints("mem_usage_bytes", r.gauges) + FlattenPoints("requests_total", r.counters)
    + FlattenPoints("target_info", r.infos) + FlattenHistograms(render, r.histograms)
  }

  /** Everything the first `n` OTLP requests deliver. */
  function OtlpSamples(c: Corpus, mix: Mix, render: Render, n: nat): seq<Sample> {
    if n == 0 then [] else OtlpSamples(c, mix, render, n - 1) + Flatten(render, BuildRequest(c, mix, n - 1))
  }

  // ----- a request is the live series' samples -----

  function Live(c: Corpus, mix: Mix, render: Render, ids: seq<SeriesId>, t: nat): seq<Sample> {
    if ids == [] then []
    else
      var id := ids[|ids| - 1];
      Live(c, mix, render, ids[..|ids| - 1], t)
      + if t < Emitted(id, c.sampleCount) then [SampleAt(c, mix, render, id, t)] else []
  }

  lemma LiveSnoc(c: Corpus, mix: Mix, render: Render, ids: seq<SeriesId>, id: SeriesId, t: nat)
    ensures Live(c, mix, render, ids + [id], t) == Live(c, mix, render, ids, t)
      + if t < Emitted(id, c.sampleCount) then [SampleAt(c, mix, render, id, t)] else []
  {
    hide SampleAt;
    assert (ids + [id])[..|ids|] == ids;
  }

  lemma {:induction false} LiveAppend(c: Corpus, mix: Mix, render: Render, a: seq<SeriesId>, b: seq<SeriesId>, t: nat)
    ensures Live(c, mix, render, a + b, t) == Live(c, mix, render, a, t) + Live(c, mix, render, b, t)
  {
    if b == [] {
      assert a + b == a;
    } else {
      var front := b[..|b| - 1];
      assert a + b == (a + front) + [b[|b| - 1]] && b == front + [b[|b| - 1]];
      LiveAppend(c, mix, render, a, front, t);
      LiveSnoc(c, mix, render, a + front, b[|b| - 1], t);
      LiveSnoc(c, mix, render, front, b[|b| - 1], t);
    }
  }

  lemma GaugeFlat(c: Corpus, mix: Mix, render: Render, g: Gauge, t: nat)
    ensures FlattenPoint("mem_usage_bytes", GaugePoint(c, mix, g, t)) == SampleAt(c, mix, render, GaugeS(g), t)
  {
    hide ServiceLabel, InstanceLabel, SlotLabel, VersionLabel, EnvLabel, GaugeValue, CounterValue;
    assert "instance"[0] != "__name__"[0];
  }

  lemma CounterFlat(c: Corpus, mix: Mix, render: Render, cs: Counter, t: nat)
    ensures FlattenPoint("requests_total", CounterPoint(c, mix, cs, t)) == SampleAt(c, mix, render, CounterS(cs), t)
  {
    hide ServiceLabel, InstanceLabel, SlotLabel, VersionLabel, EnvLabel, GaugeValue, CounterValue;
    assert "instance"[0] != "__name__"[0];
  }

  lemma InfoFlat(c: Corpus, mix: Mix, render: Render, i: nat, t: nat)
    ensures FlattenPoint("target_info", InfoPoint(c, i, t)) == SampleAt(c, mix, render, InfoS(i), t)
  {
    hide ServiceLabel, InstanceLabel, SlotLabel, VersionLabel, EnvLabel, GaugeValue, CounterValue;
    assert "instance"[0] != "__name__"[0];
  }

  lemma FlattenSnoc(name: string, ps: seq<Point>, p: Point)
    ensures FlattenPoints(name, ps + [p]) == FlattenPoints(name, ps) + [FlattenPoint(name, p)]
  {
    assert (ps + [p])[..|ps|] == ps;
  }

  lemma StaleIsUnemitted(c: Corpus, g: Gauge, t: nat)
    requires t < c.sampleCount
    ensures GaugeIsStale(g, t) <==> t >= Emitted(GaugeS(g), c.sampleCount)
  {
  }

  lemma GaugePointsSnoc(c: Corpus, mix: Mix, gs: seq<Gauge>, g: Gauge, t: nat)
    ensures GaugePoints(c, mix, gs + [g], t)
         == GaugePoints(c, mix, gs, t) + if GaugeIsStale(g, t) then [] else [GaugePoint(c, mix, g, t)]
  {
    hide GaugePoint, GaugeIsStale;
    assert (gs + [g])[..|gs|] == gs;
  }

  lemma {:induction false} GaugesFlat(c: Corpus, mix: Mix, render: Render, gs: seq<Gauge>, t: nat)
    requires t < c.sampleCount
    ensures FlattenPoints("mem_usage_bytes", GaugePoints(c, mix, gs, t)) == Live(c, mix, render, GaugeIds(gs), t)
  {
    hide FlattenPoint, GaugePoint, SampleAt, GaugePoints, Live, FlattenPoints, GaugeIds, GaugeIsStale, Emitted;
    if gs == [] {
      FlatNone(c, mix, render, "mem_usage_bytes", t);
    } else {
      var (front, g) := (gs[..|gs| - 1], gs[|gs| - 1]);
      var done := GaugePoints(c, mix, front, t);
      GaugesFlat(c, mix, render, front, t);
      assert gs == front + [g];
      GaugesSnoc(front, g);
      GaugePointsSnoc(c, mix, front, g, t);
      LiveSnoc(c, mix, render, GaugeIds(front), GaugeS(g), t);
      StaleIsUnemitted(c, g, t);
      GaugeFlat(c, mix, render, g, t);
      FlattenSnoc("mem_usage_bytes", done, GaugePoint(c, mix, g, t));
      var live := Live(c, mix, render, GaugeIds(front), t);
      assert done + [] == done && live + [] == live;
    }
  }

  lemma FlatNone(c: Corpus, mix: Mix, render: Render, name: string, t: nat)
    ensures GaugePoints(c, mix, [], t) == [] && CounterPoints(c, mix, [], t) == [] && InfoPoints(c, 0, t) == []
    ensures FlattenPoints(name, []) == [] && Live(c, mix, render, [], t) == []
    ensures GaugeIds([]) == [] && CounterIds([]) == [] && InfoIds(0) == []
  {
  }

  lemma {:induction false} CountersFlat(c: Corpus, mix: Mix, render: Render, cs: seq<Counter>, t: nat)
    requires t < c.sampleCount
    ensures FlattenPoints("requests_total", CounterPoints(c, mix, cs, t)) == Live(c, mix, render, CounterIds(cs), t)
  {
    hide FlattenPoint, CounterPoint, SampleAt, Live, FlattenPoints, CounterIds;
    if cs == [] {
      FlatNone(c, mix, render, "requests_total", t);
    } else {
      var (front, x) := (cs[..|cs| - 1], cs[|cs| - 1]);
      CountersFlat(c, mix, render, front, t);
      assert cs == front + [x];
      CountersSnoc(front, x);
      LiveSnoc(c, mix, render, CounterIds(front), CounterS(x), t);
      CounterFlat(c, mix, render, x, t);
      FlattenSnoc("requests_total", CounterPoints(c, mix, front, t), CounterPoint(c, mix, x, t));
    }
  }

  lemma {:induction false} InfosFlat(c: Corpus, mix: Mix, render: Render, n: nat, t: nat)
    requires t < c.sampleCount
    ensures FlattenPoints("target_info", InfoPoints(c, n, t)) == Live(c, mix, render, InfoIds(n), t)
  {
    hide FlattenPoint, InfoPoint, SampleAt, Live, FlattenPoints, InfoIds;
    if n == 0 {
      FlatNone(c, mix, render, "target_info", t);
    } else {
      InfosFlat(c, mix, render, n - 1, t);
      InfosSnoc(n - 1);
      LiveSnoc(c, mix, render, InfoIds(n - 1), InfoS(n - 1), t);
      InfoFlat(c, mix, render, n - 1, t);
      FlattenSnoc("target_info", InfoPoints(c, n - 1, t), InfoPoint(c, n - 1, t));
    }
  }

  lemma BucketLabels(c: Corpus, mix: Mix, render: Render, h: Histogram, k: nat, t: nat)
    ensures var p := HistogramPointOf(c, mix, h, t);
      && p.attrs["__name__" := "request_duration_seconds_bucket"]["le" := LeLabel(p.bounds, render, k)]
         == LabelsOf(c, render, BucketS(h, k))
      && p.timeNs / 1_000_000 == TsMs(c, t)
  {
    hide LeLabel, WeightedSum, SumOf, BucketCounts, ServiceLabel, InstanceLabel;
    assert "instance"[0] != "__name__"[0];
  }

  lemma BucketFlat(c: Corpus, mix: Mix, render: Render, h: Histogram, k: nat, t: nat)
    requires k <= |c.bounds|
    ensures var p := HistogramPointOf(c, mix, h, t);
      && k < |p.bucketCounts|
      && FlattenBucket(render, p, k) == SampleAt(c, mix, render, BucketS(h, k), t)
  {
    hide LeLabel, LabelsOf, WeightedSum, SumOf, TsMs;
    BucketLabels(c, mix, render, h, k, t);
    CountsPrefix(mix, h, t, k + 1, |c.bounds| + 1);
  }

  lemma {:induction false} BucketsFlat(c: Corpus, mix: Mix, render: Render, h: Histogram, p: HistogramPoint, n: nat,
                                       t: nat)
    requires t < c.sampleCount && n <= |c.bounds| + 1 == |p.bucketCounts| && p == HistogramPointOf(c, mix, h, t)
    ensures FlattenBuckets(render, p, n) == Live(c, mix, render, BucketIds(h, n), t)
  {
    hide SampleAt, HistogramPointOf, Live, BucketIds, FlattenBucket;
    if n == 0 {
      NoIds();
      LiveNone(c, mix, render, t);
    } else {
      BucketsFlat(c, mix, render, h, p, n - 1, t);
      BucketsSnoc(h, n - 1);
      LiveSnoc(c, mix, render, BucketIds(h, n - 1), BucketS(h, n - 1), t);
      BucketFlat(c, mix, render, h, n - 1, t);
    }
  }

  lemma LiveNone(c: Corpus, mix: Mix, render: Render, t: nat)
    ensures Live(c, mix, render, [], t) == []
  {
  }

  lemma HistogramTime(c: Corpus, mix: Mix, h: Histogram, t: nat)
    ensures HistogramPointOf(c, mix, h, t).timeNs / 1_000_000 == TsMs(c, t)
  {
    hide WeightedSum, BucketCounts, SumOf;
  }

  /** A histogram point's attributes under the sum's or the count's name. */
  lemma HistogramLabels(c: Corpus, mix: Mix, render: Render, h: Histogram, t: nat)
    ensures var attrs := HistogramPointOf(c, mix, h, t).attrs;
      && attrs["__name__" := "request_duration_seconds_sum"] == LabelsOf(c, render, SumS(h))
      && attrs["__name__" := "request_duration_seconds_count"] == LabelsOf(c, render, CountS(h))
  {
    hide WeightedSum, BucketCounts, SumOf, ServiceLabel, InstanceLabel, TimeNs;
    FourLabels("request_duration_seconds_sum", ServiceLabel(h.service), InstanceLabel(h.instance), c.runId);
    FourLabels("request_duration_seconds_count", ServiceLabel(h.service), InstanceLabel(h.instance), c.runId);
  }

  lemma FourLabels(name: string, service: string, instance: string, runId: string)
    ensures map["service" := service, "instance" := instance, "run_id" := runId]["__name__" := name]
         == map["__name__" := name, "instance" := instance, "run_id" := runId, "service" := service]
  {
    assert "instance"[0] != "__name__"[0];
  }

  lemma SumFlat(c: Corpus, mix: Mix, render: Render, h: Histogram, t: nat)
    ensures var p := HistogramPointOf(c, mix, h, t);
      FlattenPoint("request_duration_seconds_sum", Point(p.attrs, p.timeNs, p.sum))
      == SampleAt(c, mix, render, SumS(h), t)
  {
    hide WeightedSum, BucketCounts, SumOf, LabelsOf, TsMs, TimeNs;
    HistogramTime(c, mix, h, t);
    HistogramLabels(c, mix, render, h, t);
  }

  lemma CountFlat(c: Corpus, mix: Mix, render: Render, h: Histogram, t: nat)
    ensures var p := HistogramPointOf(c, mix, h, t);
      FlattenPoint("request_duration_seconds_count", Point(p.attrs, p.timeNs, p.count as real))
      == SampleAt(c, mix, render, CountS(h), t)
  {
    hide WeightedSum, BucketCounts, SumOf, LabelsOf, TsMs, TimeNs;
    HistogramTime(c, mix, h, t);
    HistogramLabels(c, mix, render, h, t);
  }

  lemma HistogramCounts(c: Corpus, mix: Mix, h: Histogram, t: nat)
    ensures |HistogramPointOf(c, mix, h, t).bucketCounts| == |c.bounds| + 1
  {
    hide WeightedSum, SumOf;
  }

  lemma HistogramFlat(c: Corpus, mix: Mix, render: Render, h: Histogram, t: nat)
    requires t < c.sampleCount
    ensures FlattenHistogram(render, HistogramPointOf(c, mix, h, t))
         == Live(c, mix, render, OneHistogram(h, |c.bounds|), t)
  {
    hide FlattenPoint, SampleAt, FlattenBuckets, BucketIds, HistogramPointOf, Live;
    var (n, p) := (|c.bounds| + 1, HistogramPointOf(c, mix, h, t));
    var all := BucketIds(h, n);
    HistogramCounts(c, mix, h, t);
    BucketsFlat(c, mix, render, h, p, n, t);
    SumFlat(c, mix, render, h, t);
    CountFlat(c, mix, render, h, t);
    LiveSnoc(c, mix, render, all, SumS(h), t);
    LiveSnoc(c, mix, render, all + [SumS(h)], CountS(h), t);
    assert all + [SumS(h)] + [CountS(h)] == OneHistogram(h, |c.bounds|);
    var (x, y) := (SampleAt(c, mix, render, SumS(h), t), SampleAt(c, mix, render, CountS(h), t));
    assert Live(c, mix, render, all, t) + [x] + [y] == Live(c, mix, render, all, t) + [x, y];
  }

  lemma {:induction false} HistogramsFlat(c: Corpus, mix: Mix, render: Render, hs: seq<Histogram>, t: nat)
    requires t < c.sampleCount
    ensures FlattenHistograms(render, HistogramPoints(c, mix, hs, t))
         == Live(c, mix, render, HistogramIds(hs, |c.bounds|), t)
  {
    if hs != [] {
      hide FlattenHistogram, HistogramPointOf, OneHistogram;
      var (front, h) := (hs[..|hs| - 1], hs[|hs| - 1]);
      HistogramsFlat(c, mix, render, front, t);
      HistogramFlat(c, mix, render, h, t);
      LiveAppend(c, mix, render, HistogramIds(front, |c.bounds|), OneHistogram(h, |c.bounds|), t);
      var ps := HistogramPoints(c, mix, front, t);
      assert (ps + [HistogramPointOf(c, mix, h, t)])[..|ps|] == ps;
    }
  }

  // ----- counting samples -----

  function Count(p: Sample -> bool, s: seq<Sample>): nat {
    if s == [] then 0 else Count(p, s[..|s| - 1]) + if p(s[|s| - 1]) then 1 else 0
  }

  lemma {:induction false} CountAppend(p: Sample -> bool, a: seq<Sample>, b: seq<Sample>)
    ensures Count(p, a + b) == Count(p, a) + Count(p, b)
  {
    if b == [] {
      assert a + b == a;
    } else {
      CountAppend(p, a, b[..|b| - 1]);
      assert (a + b)[..|a + b| - 1] == a + b[..|b| - 1];
    }
  }

  /** A request delivers exactly the live samples of all series, whatever one counts. */
  lemma RequestCounts(c: Corpus, mix: Mix, render: Render, p: Sample -> bool, t: nat)
    requires t < c.sampleCount
    ensures Count(p, Flatten(render, BuildRequest(c, mix, t))) == Count(p, Live(c, mix, render, IdsOf(c), t))
  {
    hide Count, Live, FlattenPoints, FlattenHistograms, GaugePoints, CounterPoints, InfoPoints, HistogramPoints;
    GaugesFlat(c, mix, render, c.gauges, t);
    CountersFlat(c, mix, render, c.counters, t);
    InfosFlat(c, mix, render, c.infos, t);
    HistogramsFlat(c, mix, render, c.histograms, t);
    var (gs, cs) := (GaugeIds(c.gauges), CounterIds(c.counters));
    var (hs, infos) := (HistogramIds(c.histograms, |c.bounds|), InfoIds(c.infos));
    Reorder(c, mix, render, p, gs, cs, hs, infos, t);
  }

  lemma Reorder(c: Corpus, mix: Mix, render: Render, p: Sample -> bool, gs: seq<SeriesId>, cs: seq<SeriesId>,
                hs: seq<SeriesId>, infos: seq<SeriesId>, t: nat)
    ensures Count(p, Live(c, mix, render, gs, t) + Live(c, mix, render, cs, t) + Live(c, mix, render, infos, t)
                     + Live(c, mix, render, hs, t))
         == Count(p, Live(c, mix, render, gs + cs + hs + infos, t))
  {
    hide Count, Live;
    var (g, k) := (Live(c, mix, render, gs, t), Live(c, mix, render, cs, t));
    var (h, i) := (Live(c, mix, render, hs, t), Live(c, mix, render, infos, t));
    LiveAppend(c, mix, render, gs, cs, t);
    LiveAppend(c, mix, render, gs + cs, hs, t);
    LiveAppend(c, mix, render, gs + cs + hs, infos, t);
    CountAppend(p, g, k);
    CountAppend(p, g + k, h);
    CountAppend(p, g + k + h, i);
    CountAppend(p, g + k, i);
    CountAppend(p, g + k + i, h);
  }

  // ----- by time or by series -----

  /** The first `n` samples of one series. */
  function Row(c: Corpus, mix: Mix, render: Render, id: SeriesId, n: nat): seq<Sample> {
    seq(n, t requires 0 <= t => SampleAt(c, mix, render, id, t))
  }

  lemma RowSnoc(c: Corpus, mix: Mix, render: Render, id: SeriesId, n: nat)
    ensures Row(c, mix, render, id, n + 1) == Row(c, mix, render, id, n) + [SampleAt(c, mix, render, id, n)]
  {
    hide SampleAt;
  }

  lemma CountSnoc(p: Sample -> bool, s: seq<Sample>, x: Sample)
    ensures Count(p, s + [x]) == Count(p, s) + if p(x) then 1 else 0
  {
    assert (s + [x])[..|s|] == s;
  }

  lemma CountNone(p: Sample -> bool)
    ensures Count(p, []) == 0
  {
  }

  /** Counted request by request. */
  function ByTime(c: Corpus, mix: Mix, render: Render, p: Sample -> bool, ids: seq<SeriesId>, n: nat): nat {
    if n == 0 then 0
    else ByTime(c, mix, render, p, ids, n - 1) + Count(p, Live(c, mix, render, ids, n - 1))
  }

  /** Counted series by series, each cut at `n` timestamps. */
  function BySeries(c: Corpus, mix: Mix, render: Render, p: Sample -> bool, ids: seq<SeriesId>, n: nat): nat {
    if ids == [] then 0
    else
      var id := ids[|ids| - 1];
      BySeries(c, mix, render, p, ids[..|ids| - 1], n)
      + Count(p, Row(c, mix, render, id, Min(Emitted(id, c.sampleCount), n)))
  }

  /** Whether series `id` has a counted sample at `t`. */
  function Hit(c: Corpus, mix: Mix, render: Render, p: Sample -> bool, id: SeriesId, t: nat): nat {
    if t < Emitted(id, c.sampleCount) && p(SampleAt(c, mix, render, id, t)) then 1 else 0
  }

  lemma LiveCountSnoc(c: Corpus, mix: Mix, render: Render, p: Sample -> bool, ids: seq<SeriesId>, id: SeriesId, t: nat)
    ensures Count(p, Live(c, mix, render, ids + [id], t))
         == Count(p, Live(c, mix, render, ids, t)) + Hit(c, mix, render, p, id, t)
  {
    hide Count, Live, SampleAt, Emitted;
    LiveSnoc(c, mix, render, ids, id, t);
    CountSnoc(p, Live(c, mix, render, ids, t), SampleAt(c, mix, render, id, t));
    assert Live(c, mix, render, ids, t) + [] == Live(c, mix, render, ids, t);
  }

  lemma RowCountStep(c: Corpus, mix: Mix, render: Render, p: Sample -> bool, id: SeriesId, n: nat)
    ensures var e := Emitted(id, c.sampleCount);
      Count(p, Row(c, mix, render, id, Min(e, n + 1)))
      == Count(p, Row(c, mix, render, id, Min(e, n))) + Hit(c, mix, render, p, id, n)
  {
    hide Count, SampleAt, Emitted, Row;
    RowSnoc(c, mix, render, id, n);
    CountSnoc(p, Row(c, mix, render, id, n), SampleAt(c, mix, render, id, n));
  }

  lemma NoRow(c: Corpus, mix: Mix, render: Render, p: Sample -> bool, id: SeriesId)
    ensures Count(p, Row(c, mix, render, id, 0)) == 0
  {
    hide SampleAt;
    assert Row(c, mix, render, id, 0) == [];
  }

  lemma {:induction false} ByTimeSnoc(c: Corpus, mix: Mix, render: Render, p: Sample -> bool, ids: seq<SeriesId>,
                                      id: SeriesId, n: nat)
    ensures ByTime(c, mix, render, p, ids + [id], n)
         == ByTime(c, mix, render, p, ids, n) + Count(p, Row(c, mix, render, id, Min(Emitted(id, c.sampleCount), n)))
  {
    hide Count, Live, Row, Emitted, Hit;
    if n == 0 {
      NoRow(c, mix, render, p, id);
    } else {
      ByTimeSnoc(c, mix, render, p, ids, id, n - 1);
      LiveCountSnoc(c, mix, render, p, ids, id, n - 1);
      RowCountStep(c, mix, render, p, id, n - 1);
    }
  }

  lemma {:induction false} ByTimeNone(c: Corpus, mix: Mix, render: Render, p: Sample -> bool, n: nat)
    ensures ByTime(c, mix, render, p, [], n) == 0
  {
    if n > 0 { ByTimeNone(c, mix, render, p, n - 1); }
  }

  /** Exchanging the two sums. */
  lemma {:induction false} Exchange(c: Corpus, mix: Mix, render: Render, p: Sample -> bool, ids: seq<SeriesId>, n: nat)
    ensures ByTime(c, mix, render, p, ids, n) == BySeries(c, mix, render, p, ids, n)
  {
    hide Count, Live, Row, ByTime, Emitted;
    if ids == [] {
      ByTimeNone(c, mix, render, p, n);
    } else {
      var (front, id) := (ids[..|ids| - 1], ids[|ids| - 1]);
      Exchange(c, mix, render, p, front, n);
      ByTimeSnoc(c, mix, render, p, front, id, n);
      assert ids == front + [id];
    }
  }

  lemma OtlpStep(c: Corpus, mix: Mix, render: Render, p: Sample -> bool, n: nat)
    requires n < c.sampleCount
    ensures Count(p, OtlpSamples(c, mix, render, n + 1))
         == Count(p, OtlpSamples(c, mix, render, n)) + Count(p, Live(c, mix, render, IdsOf(c), n))
  {
    hide Count, Live, Flatten, BuildRequest, IdsOf;
    RequestCounts(c, mix, render, p, n);
    CountAppend(p, OtlpSamples(c, mix, render, n), Flatten(render, BuildRequest(c, mix, n)));
  }

  lemma NoRequests(c: Corpus, mix: Mix, render: Render, p: Sample -> bool)
    ensures Count(p, OtlpSamples(c, mix, render, 0)) == 0
  {
  }

  lemma {:induction false} OtlpByTime(c: Corpus, mix: Mix, render: Render, p: Sample -> bool, n: nat)
    requires n <= c.sampleCount
    ensures Count(p, OtlpSamples(c, mix, render, n)) == ByTime(c, mix, render, p, IdsOf(c), n)
  {
    hide Count, Live, OtlpSamples, IdsOf;
    if n == 0 {
      NoRequests(c, mix, render, p);
    } else {
      OtlpByTime(c, mix, render, p, n - 1);
      OtlpStep(c, mix, render, p, n - 1);
    }
  }

  // ----- remote write, flattened -----

  function SeriesSamples(r: RemoteSeries): seq<Sample> {
    seq(|r.samples|, i requires 0 <= i < |r.samples| => Sample(r.labels, r.samples[i].0, r.samples[i].1))
  }

  function RemoteSamples(rs: seq<RemoteSeries>): seq<Sample> {
    if rs == [] then [] else RemoteSamples(rs[..|rs| - 1]) + SeriesSamples(rs[|rs| - 1])
  }

  lemma RemoteRow(c: Corpus, mix: Mix, render: Render, id: SeriesId)
    ensures SeriesSamples(RemoteOf(c, mix, render, id)) == Row(c, mix, render, id, Emitted(id, c.sampleCount))
  {
    hide LabelsOf, ValueAt, TsMs, Emitted;
    var (r, n) := (RemoteOf(c, mix, render, id), Emitted(id, c.sampleCount));
    forall t | 0 <= t < n ensures SeriesSamples(r)[t] == SampleAt(c, mix, render, id, t) {
      assert r.samples[t] == PointAt(c, mix, id, t);
    }
  }

  /** Every series fits its timestamps: what a generated corpus gives from one sample on. */
  predicate Fits(ids: seq<SeriesId>, n: nat) {
    forall i :: 0 <= i < |ids| ==> 1 <= Emitted(ids[i], n) <= n
  }

  lemma RemoteSamplesSnoc(p: Sample -> bool, rs: seq<RemoteSeries>, r: RemoteSeries)
    ensures Count(p, RemoteSamples(rs + [r])) == Count(p, RemoteSamples(rs)) + Count(p, SeriesSamples(r))
  {
    hide Count, SeriesSamples;
    assert (rs + [r])[..|rs|] == rs;
    CountAppend(p, RemoteSamples(rs), SeriesSamples(r));
  }

  lemma RemoteNoSamples(c: Corpus, mix: Mix, render: Render)
    ensures RemoteSamples(RemoteList(c, mix, render, [])) == []
  {
    RemoteNone(c, mix, render);
  }

  lemma {:induction false} RemoteBySeries(c: Corpus, mix: Mix, render: Render, p: Sample -> bool, ids: seq<SeriesId>)
    requires Fits(ids, c.sampleCount)
    ensures Count(p, RemoteSamples(RemoteList(c, mix, render, ids)))
         == BySeries(c, mix, render, p, ids, c.sampleCount)
  {
    hide Count, SeriesSamples, RemoteOf, Row, Emitted, RemoteSamples, RemoteList;
    if ids == [] {
      RemoteNoSamples(c, mix, render);
      CountNone(p);
    } else {
      var (front, id) := (ids[..|ids| - 1], ids[|ids| - 1]);
      assert Fits(front, c.sampleCount);
      RemoteBySeries(c, mix, render, p, front);
      assert ids == front + [id];
      RemoteSnoc(c, mix, render, front, id);
      RemoteRow(c, mix, render, id);
      RemoteSamplesSnoc(p, RemoteList(c, mix, render, front), RemoteOf(c, mix, render, id));
    }
  }

  // ----- conservation -----

  function Otlp(c: Corpus, mix: Mix, render: Render): seq<Sample> { OtlpSamples(c, mix, render, c.sampleCount) }

  function Remote(c: Corpus, mix: Mix, render: Render): seq<Sample> {
    RemoteSamples(RemoteList(c, mix, render, IdsOf(c)))
  }

  lemma Conserved(c: Corpus, mix: Mix, render: Render, p: Sample -> bool)
    requires Fits(IdsOf(c), c.sampleCount)
    ensures Count(p, Otlp(c, mix, render)) == Count(p, Remote(c, mix, render))
  {
    hide Count, OtlpSamples, RemoteSamples, RemoteList, IdsOf, ByTime, BySeries;
    OtlpByTime(c, mix, render, p, c.sampleCount);
    Exchange(c, mix, render, p, IdsOf(c), c.sampleCount);
    RemoteBySeries(c, mix, render, p, IdsOf(c));
  }

  lemma {:induction false} CountIsMultiplicity(s: seq<Sample>, x: Sample)
    ensures Count(y => y == x, s) == multiset(s)[x]
  {
    if s != [] {
      CountIsMultiplicity(s[..|s| - 1], x);
      assert s == s[..|s| - 1] + [s[|s| - 1]];
    }
  }

  lemma {:induction false} HistogramsEmitAll(hs: seq<Histogram>, bounds: nat, n: nat)
    requires n >= 1
    ensures Fits(HistogramIds(hs, bounds), n)
  {
    if hs != [] { HistogramsEmitAll(hs[..|hs| - 1], bounds, n); }
  }

  lemma FitsAppend(a: seq<SeriesId>, b: seq<SeriesId>, n: nat)
    requires Fits(a, n) && Fits(b, n)
    ensures Fits(a + b, n)
  {
  }

  lemma GaugesFit(spec: Spec, n: nat)
    requires spec.sampleCount >= 1
    ensures Fits(GaugeIds(GaugeList(spec.families, StaleCutoff(spec.sampleCount, spec.stepMs), n)), spec.sampleCount)
  {
    hide StaleCutoff;
    CutoffInRange(spec.sampleCount, spec.stepMs);
  }

  /** From one sample on every series of a generated corpus emits, and fits its timestamps. */
  lemma GeneratedFits(spec: Spec)
    requires spec.sampleCount >= 1
    ensures Fits(IdsOf(CorpusOf(spec)), spec.sampleCount)
  {
    hide HistogramIds;
    var (c, n) := (CorpusOf(spec), spec.sampleCount);
    GaugesFit(spec, |c.gauges|);
    HistogramsEmitAll(c.histograms, |c.bounds|, n);
    FitsAppend(GaugeIds(c.gauges), CounterIds(c.counters), n);
    var (two, hs) := (GaugeIds(c.gauges) + CounterIds(c.counters), HistogramIds(c.histograms, |c.bounds|));
    FitsAppend(two, hs, n);
    FitsAppend(two + hs, InfoIds(c.infos), n);
  }

  /** The collector-fed samples and the direct ones are the same multiset. */
  lemma SameSamples(spec: Spec, mix: Mix, render: Render)
    requires spec.sampleCount >= 1
    ensures var c := CorpusOf(spec); multiset(Otlp(c, mix, render)) == multiset(Remote(c, mix, render))
  {
    hide Otlp, Remote, Count, CorpusOf, Fits, IdsOf;
    var c := CorpusOf(spec);
    assert c.sampleCount == spec.sampleCount by { SampleCountKept(spec); }
    GeneratedFits(spec);
    var (a, b) := (Otlp(c, mix, render), Remote(c, mix, render));
    forall x ensures multiset(a)[x] == multiset(b)[x] {
      CountIsMultiplicity(a, x);
      CountIsMultiplicity(b, x);
      Conserved(c, mix, render, y => y == x);
    }
  }

  lemma SampleCountKept(spec: Spec)
    ensures CorpusOf(spec).sampleCount == spec.sampleCount
  {
  }
}
