/** `Corpus::discoverable_series` of `e2e/src/corpus.rs`: every series with the
    activity buckets it has samples in. */
module MetricDiscovery {
  import opened Arithmetic
  import opened Common
  import opened MetricCorpus
  import opened MetricRenderings
  import opened MetricConservation
  import opened MetricManifest

  datatype Discovered = Discovered(labels: Labels, buckets: set<int>)

  function ActivityBucket(ms: int): int { TruncDiv(ms, ACTIVITY_BUCKET_MS) * ACTIVITY_BUCKET_MS }

  /** `bucket_span` from index 0. */
  function BucketSpan(c: Corpus, lastIdx: nat): set<int> {
    var last := Min(lastIdx, SaturatingSub(c.sampleCount, 1));
    set idx | 0 <= idx <= last :: ActivityBucket(TsMs(c, idx))
  }

  function DiscoverOf(c: Corpus, render: Render, id: SeriesId): Discovered {
    Discovered(LabelsOf(c, render, id), BucketSpan(c, SaturatingSub(Emitted(id, c.sampleCount), 1)))
  }

  function DiscoverList(c: Corpus, render: Render, ids: seq<SeriesId>): seq<Discovered> {
    seq(|ids|, i requires 0 <= i < |ids| => DiscoverOf(c, render, ids[i]))
  }

  lemma DiscoverSnoc(c: Corpus, render: Render, ids: seq<SeriesId>, id: SeriesId)
    ensures DiscoverList(c, render, ids + [id]) == DiscoverList(c, render, ids) + [DiscoverOf(c, render, id)]
  {
    hide DiscoverOf;
  }

  /** The histogram block. */
  method DiscoverHistogram(c: Corpus, render: Render, h: Histogram, done: seq<Discovered>, ghost ids: seq<SeriesId>)
    returns (out: seq<Discovered>)
    requires done == DiscoverList(c, render, ids)
    ensures out == DiscoverList(c, render, ids + OneHistogram(h, |c.bounds|))
  {
    hide DiscoverList, BucketIds, BucketSpan, LabelsOf;
    out := done;
    var buckets := BucketSpan(c, SaturatingSub(c.sampleCount, 1));
    NoIds();
    assert ids + [] == ids;
    for k := 0 to |c.bounds| + 1
      invariant out == DiscoverList(c, render, ids + BucketIds(h, k))
    {
      BucketsSnoc(h, k);
      DiscoverSnoc(c, render, ids + BucketIds(h, k), BucketS(h, k));
      assert ids + BucketIds(h, k) + [BucketS(h, k)] == ids + BucketIds(h, k + 1);
      out := out + [Discovered(LabelsOf(c, render, BucketS(h, k)), buckets)];
    }
    ghost var all := ids + BucketIds(h, |c.bounds| + 1);
    DiscoverSnoc(c, render, all, SumS(h));
    DiscoverSnoc(c, render, all + [SumS(h)], CountS(h));
    assert all + [SumS(h)] + [CountS(h)] == ids + OneHistogram(h, |c.bounds|);
    out := out + [Discovered(LabelsOf(c, render, SumS(h)), buckets)];
    out := out + [Discovered(LabelsOf(c, render, CountS(h)), buckets)];
  }

  /** `discoverable_series`. */
  method DiscoverableSeries(c: Corpus, render: Render) returns (out: seq<Discovered>)
    ensures out == DiscoverList(c, render, IdsOf(c))
  {
    hide DiscoverList, DiscoverOf, GaugeIds, CounterIds, HistogramIds, InfoIds;
    var (gs, cs, hs) := (c.gauges, c.counters, c.histograms);
    NoIds();
    assert DiscoverList(c, render, []) == [] by { DiscoverNone(c, render); }
    out := [];
    for i := 0 to |gs|
      invariant out == DiscoverList(c, render, GaugeIds(gs[..i]))
    {
      Take(gs, i);
      GaugesSnoc(gs[..i], gs[i]);
      DiscoverSnoc(c, render, GaugeIds(gs[..i]), GaugeS(gs[i]));
      out := out + [DiscoverOf(c, render, GaugeS(gs[i]))];
    }
    ghost var one := GaugeIds(gs);
    assert gs[..|gs|] == gs && one + [] == one;
    for i := 0 to |cs|
      invariant out == DiscoverList(c, render, one + CounterIds(cs[..i]))
    {
      Take(cs, i);
      CountersSnoc(cs[..i], cs[i]);
      DiscoverSnoc(c, render, one + CounterIds(cs[..i]), CounterS(cs[i]));
      assert one + CounterIds(cs[..i]) + [CounterS(cs[i])] == one + CounterIds(cs[..i + 1]);
      out := out + [DiscoverOf(c, render, CounterS(cs[i]))];
    }
    ghost var two := one + CounterIds(cs);
    assert cs[..|cs|] == cs && two + [] == two;
    for i := 0 to |hs|
      invariant out == DiscoverList(c, render, two + HistogramIds(hs[..i], |c.bounds|))
    {
      Take(hs, i);
      HistogramsSnoc(hs[..i], hs[i], |c.bounds|);
      out := DiscoverHistogram(c, render, hs[i], out, two + HistogramIds(hs[..i], |c.bounds|));
      assert two + HistogramIds(hs[..i], |c.bounds|) + OneHistogram(hs[i], |c.bounds|)
          == two + HistogramIds(hs[..i + 1], |c.bounds|);
    }
    ghost var three := two + HistogramIds(hs, |c.bounds|);
    assert hs[..|hs|] == hs && three + [] == three;
    for i := 0 to c.infos
      invariant out == DiscoverList(c, render, three + InfoIds(i))
    {
      InfosSnoc(i);
      DiscoverSnoc(c, render, three + InfoIds(i), InfoS(i));
      assert three + InfoIds(i) + [InfoS(i)] == three + InfoIds(i + 1);
      out := out + [DiscoverOf(c, render, InfoS(i))];
    }
  }

  lemma DiscoverNone(c: Corpus, render: Render)
    ensures DiscoverList(c, render, []) == []
  {
  }

  /** The activity buckets of a remote-write series' samples. */
  function Footprint(r: RemoteSeries): set<int> { set i | 0 <= i < |r.samples| :: ActivityBucket(r.samples[i].0) }

  lemma SpanIsFootprint(c: Corpus, mix: Mix, render: Render, id: SeriesId)
    requires 1 <= Emitted(id, c.sampleCount) <= c.sampleCount
    ensures DiscoverOf(c, render, id).buckets == Footprint(RemoteOf(c, mix, render, id))
  {
    hide LabelsOf, ValueAt, ActivityBucket, TsMs;
    var (n, r) := (Emitted(id, c.sampleCount), RemoteOf(c, mix, render, id));
    assert forall i :: 0 <= i < n ==> r.samples[i].0 == TsMs(c, i);
    var (a, b) := (DiscoverOf(c, render, id).buckets, Footprint(r));
    forall x ensures x in a ==> x in b {
      if x in a {
        var idx :| 0 <= idx <= n - 1 && ActivityBucket(TsMs(c, idx)) == x;
        assert r.samples[idx].0 == TsMs(c, idx);
      }
    }
    forall x ensures x in b ==> x in a {
      if x in b {
        var i :| 0 <= i < n && ActivityBucket(r.samples[i].0) == x;
        assert ActivityBucket(TsMs(c, i)) == x;
      }
    }
  }

  /** One entry per expected series, in remote-write order with the remote-write labels; from
      one sample on, its buckets are exactly those its samples fall in. */
  lemma DiscoverableMatchesRemote(spec: Spec, mix: Mix, render: Render)
    ensures var c := CorpusOf(spec);
      var (ds, rs) := (DiscoverList(c, render, IdsOf(c)), RemoteList(c, mix, render, IdsOf(c)));
      && |ds| == |rs| == c.expectedSeries
      && (forall i :: 0 <= i < |ds| ==> ds[i].labels == rs[i].labels)
      && (spec.sampleCount >= 1 ==> forall i :: 0 <= i < |ds| ==> ds[i].buckets == Footprint(rs[i]))
  {
    hide CorpusOf, IdsOf, LabelsOf, Footprint, BucketSpan, Emitted;
    var c := CorpusOf(spec);
    SeriesKept(spec);
    if spec.sampleCount >= 1 {
      GeneratedFits(spec);
      forall i | 0 <= i < |IdsOf(c)|
        ensures DiscoverOf(c, render, IdsOf(c)[i]).buckets == Footprint(RemoteOf(c, mix, render, IdsOf(c)[i]))
      {
        SpanIsFootprint(c, mix, render, IdsOf(c)[i]);
      }
    }
  }
}
