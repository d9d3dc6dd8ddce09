/** The labels and samples of every series of the metric corpus in
    `e2e/src/corpus.rs`, and its remote-write rendering. */
module MetricRenderings {
  import opened Common
  import opened Decimal
  import opened MetricCorpus
  import opened MetricValues

  const ACTIVITY_BUCKET_MS := 3_600_000

  /** What `render_bound` makes of a finite bound. */
  type Render = real -> string

  // ----- labels -----

  function ServiceLabel(i: nat): string { "svc-" + Print(i) }

  function InstanceLabel(i: nat): string { "inst-" + Pad(i, 3) }

  function SlotLabel(i: nat): string { "slot-" + Print(i) }

  function VersionLabel(i: nat): string { "v1." + Print(i % 3) + ".0" }

  function EnvLabel(i: nat): string { if i % 2 == 0 then "prod" else "staging" }

  function LeLabel(bounds: seq<real>, render: Render, k: nat): string {
    if k < |bounds| then render(bounds[k]) else "+Inf"
  }

  /** A series' full label set. */
  function LabelsOf(c: Corpus, render: Render, id: SeriesId): Labels {
    match id
    case GaugeS(g) =>
      map["__name__" := Name(id), "instance" := InstanceLabel(g.instance), "run_id" := c.runId,
          "service" := ServiceLabel(g.service), "slot" := SlotLabel(g.slot)]
    case CounterS(cs) =>
      map["__name__" := Name(id), "instance" := InstanceLabel(cs.instance), "run_id" := c.runId,
          "service" := ServiceLabel(cs.service)]
    case BucketS(h, k) =>
      map["__name__" := Name(id), "instance" := InstanceLabel(h.instance), "le" := LeLabel(c.bounds, render, k),
          "run_id" := c.runId, "service" := ServiceLabel(h.service)]
    case SumS(h) =>
      map["__name__" := Name(id), "instance" := InstanceLabel(h.instance), "run_id" := c.runId,
          "service" := ServiceLabel(h.service)]
    case CountS(h) =>
      map["__name__" := Name(id), "instance" := InstanceLabel(h.instance), "run_id" := c.runId,
          "service" := ServiceLabel(h.service)]
    case InfoS(i) =>
      map["__name__" := Name(id), "env" := EnvLabel(i), "instance" := InstanceLabel(i), "run_id" := c.runId,
          "version" := VersionLabel(i)]
  }

  // ----- samples -----

  datatype Sample = Sample(labels: Labels, tsMs: int, value: real)

  function TsMs(c: Corpus, t: nat): int { c.baseMs + c.stepMs * t }

  function ValueAt(c: Corpus, mix: Mix, id: SeriesId, t: nat): real {
    match id
    case GaugeS(g) => GaugeValue(mix, g, t) as real
    case CounterS(cs) => CounterValue(mix, cs, t) as real
    case BucketS(h, k) => LeCount(mix, h, t, k) as real
    case SumS(h) => WeightedSum(c.bounds, BucketCounts(mix, h, t, |c.bounds| + 1))
    case CountS(h) => LeCount(mix, h, t, |c.bounds|) as real
    case InfoS(_) => 1.0
  }

  function PointAt(c: Corpus, mix: Mix, id: SeriesId, t: nat): (int, real) { (TsMs(c, t), ValueAt(c, mix, id, t)) }

  function SampleAt(c: Corpus, mix: Mix, render: Render, id: SeriesId, t: nat): Sample {
    Sample(LabelsOf(c, render, id), TsMs(c, t), ValueAt(c, mix, id, t))
  }

  // ----- remote write -----

  datatype RemoteSeries = RemoteSeries(labels: Labels, samples: seq<(int, real)>)

  function Points(c: Corpus, mix: Mix, id: SeriesId, n: nat): seq<(int, real)> {
    seq(n, t requires 0 <= t => PointAt(c, mix, id, t))
  }

  function RemoteOf(c: Corpus, mix: Mix, render: Render, id: SeriesId): RemoteSeries {
    RemoteSeries(LabelsOf(c, render, id), Points(c, mix, id, Emitted(id, c.sampleCount)))
  }

  function RemoteList(c: Corpus, mix: Mix, render: Render, ids: seq<SeriesId>): seq<RemoteSeries> {
    seq(|ids|, i requires 0 <= i < |ids| => RemoteOf(c, mix, render, ids[i]))
  }

  lemma PointsSnoc(c: Corpus, mix: Mix, id: SeriesId, n: nat)
    ensures Points(c, mix, id, n + 1) == Points(c, mix, id, n) + [PointAt(c, mix, id, n)]
  {
    hide PointAt;
  }

  lemma RemoteSnoc(c: Corpus, mix: Mix, render: Render, ids: seq<SeriesId>, id: SeriesId)
    ensures RemoteList(c, mix, render, ids + [id]) == RemoteList(c, mix, render, ids) + [RemoteOf(c, mix, render, id)]
  {
    hide RemoteOf;
  }

  lemma RemoteNone(c: Corpus, mix: Mix, render: Render)
    ensures RemoteList(c, mix, render, []) == []
  {
  }

  /** One timestamp of the histogram loop: the bucket columns each grow by one. */
  method PushBuckets(c: Corpus, mix: Mix, h: Histogram, t: nat, columns: seq<seq<(int, real)>>, cumulative: seq<nat>)
    returns (out: seq<seq<(int, real)>>)
    requires |columns| == |cumulative|
    requires forall k :: 0 <= k < |columns| ==> columns[k] == Points(c, mix, BucketS(h, k), t)
    requires forall k :: 0 <= k < |columns| ==> cumulative[k] == LeCount(mix, h, t, k)
    ensures |out| == |columns|
    ensures forall k :: 0 <= k < |columns| ==> out[k] == Points(c, mix, BucketS(h, k), t + 1)
  {
    hide Points, LeCount;
    out := columns;
    for k := 0 to |columns|
      invariant |out| == |columns|
      invariant forall j :: 0 <= j < k ==> out[j] == Points(c, mix, BucketS(h, j), t + 1)
      invariant forall j :: k <= j < |columns| ==> out[j] == columns[j]
    {
      PointsSnoc(c, mix, BucketS(h, k), t);
      out := out[k := out[k] + [(TsMs(c, t), cumulative[k] as real)]];
    }
  }

  /** The samples of one histogram, gathered by time and kept by series. */
  method HistogramSamples(c: Corpus, mix: Mix, h: Histogram)
    returns (buckets: seq<seq<(int, real)>>, sums: seq<(int, real)>, counts: seq<(int, real)>)
    ensures |buckets| == |c.bounds| + 1
    ensures forall k :: 0 <= k < |buckets| ==> buckets[k] == Points(c, mix, BucketS(h, k), c.sampleCount)
    ensures sums == Points(c, mix, SumS(h), c.sampleCount) && counts == Points(c, mix, CountS(h), c.sampleCount)
  {
    hide BucketCounts, LeCount, WeightedSum;
    var n := |c.bounds| + 1;
    buckets := seq(n, _ => []);
    sums, counts := [], [];
    for t := 0 to c.sampleCount
      invariant |buckets| == n && forall k :: 0 <= k < n ==> buckets[k] == Points(c, mix, BucketS(h, k), t)
      invariant sums == Points(c, mix, SumS(h), t) && counts == Points(c, mix, CountS(h), t)
    {
      hide Points;
      var perRange := BucketCounts(mix, h, t, n);
      var cumulative := BucketsAt(mix, h, t, |c.bounds|);
      var ts := TsMs(c, t);
      buckets := PushBuckets(c, mix, h, t, buckets, cumulative);
      var sum := HistogramSum(c.bounds, perRange);
      PointsSnoc(c, mix, SumS(h), t);
      PointsSnoc(c, mix, CountS(h), t);
      sums := sums + [(ts, sum)];
      counts := counts + [(ts, cumulative[|c.bounds|] as real)];
    }
  }

  /** The histogram block of `to_remote_write_series`. */
  method RemoteHistogram(c: Corpus, mix: Mix, render: Render, h: Histogram, done: seq<RemoteSeries>,
                         ghost ids: seq<SeriesId>)
    returns (out: seq<RemoteSeries>)
    requires done == RemoteList(c, mix, render, ids)
    ensures out == RemoteList(c, mix, render, ids + OneHistogram(h, |c.bounds|))
  {
    hide RemoteList, BucketIds, Points, LabelsOf;
    out := done;
    var buckets, sums, counts := HistogramSamples(c, mix, h);
    NoIds();
    assert ids + [] == ids;
    for k := 0 to |c.bounds| + 1
      invariant out == RemoteList(c, mix, render, ids + BucketIds(h, k))
    {
      BucketsSnoc(h, k);
      RemoteSnoc(c, mix, render, ids + BucketIds(h, k), BucketS(h, k));
      assert ids + BucketIds(h, k) + [BucketS(h, k)] == ids + BucketIds(h, k + 1);
      out := out + [RemoteSeries(LabelsOf(c, render, BucketS(h, k)), buckets[k])];
    }
    ghost var all := ids + BucketIds(h, |c.bounds| + 1);
    RemoteSnoc(c, mix, render, all, SumS(h));
    RemoteSnoc(c, mix, render, all + [SumS(h)], CountS(h));
    assert all + [SumS(h)] + [CountS(h)] == ids + OneHistogram(h, |c.bounds|);
    out := out + [RemoteSeries(LabelsOf(c, render, SumS(h)), sums)];
    out := out + [RemoteSeries(LabelsOf(c, render, CountS(h)), counts)];
  }

  /** `to_remote_write_series`. */
  method ToRemoteWriteSeries(c: Corpus, mix: Mix, render: Render) returns (out: seq<RemoteSeries>)
    ensures out == RemoteList(c, mix, render, IdsOf(c))
  {
    hide RemoteList, RemoteOf, GaugeIds, CounterIds, HistogramIds, InfoIds;
    var (gs, cs, hs) := (c.gauges, c.counters, c.histograms);
    NoIds();
    RemoteNone(c, mix, render);
    out := [];
    for i := 0 to |gs|
      invariant out == RemoteList(c, mix, render, GaugeIds(gs[..i]))
    {
      Take(gs, i);
      GaugesSnoc(gs[..i], gs[i]);
      RemoteSnoc(c, mix, render, GaugeIds(gs[..i]), GaugeS(gs[i]));
      out := out + [RemoteOf(c, mix, render, GaugeS(gs[i]))];
    }
    ghost var one := GaugeIds(gs);
    assert gs[..|gs|] == gs && one + [] == one;
    for i := 0 to |cs|
      invariant out == RemoteList(c, mix, render, one + CounterIds(cs[..i]))
    {
      Take(cs, i);
      CountersSnoc(cs[..i], cs[i]);
      RemoteSnoc(c, mix, render, one + CounterIds(cs[..i]), CounterS(cs[i]));
      assert one + CounterIds(cs[..i]) + [CounterS(cs[i])] == one + CounterIds(cs[..i + 1]);
      out := out + [RemoteOf(c, mix, render, CounterS(cs[i]))];
    }
    ghost var two := one + CounterIds(cs);
    assert cs[..|cs|] == cs && two + [] == two;
    for i := 0 to |hs|
      invariant out == RemoteList(c, mix, render, two + HistogramIds(hs[..i], |c.bounds|))
    {
      Take(hs, i);
      HistogramsSnoc(hs[..i], hs[i], |c.bounds|);
      out := RemoteHistogram(c, mix, render, hs[i], out, two + HistogramIds(hs[..i], |c.bounds|));
      assert two + HistogramIds(hs[..i], |c.bounds|) + OneHistogram(hs[i], |c.bounds|)
          == two + HistogramIds(hs[..i + 1], |c.bounds|);
    }
    ghost var three := two + HistogramIds(hs, |c.bounds|);
    assert hs[..|hs|] == hs && three + [] == three;
    for i := 0 to c.infos
      invariant out == RemoteList(c, mix, render, three + InfoIds(i))
    {
      InfosSnoc(i);
      RemoteSnoc(c, mix, render, three + InfoIds(i), InfoS(i));
      assert three + InfoIds(i) + [InfoS(i)] == three + InfoIds(i + 1);
      out := out + [RemoteOf(c, mix, render, InfoS(i))];
    }
  }
}
