/** The manifest of the metric corpus in `e2e/src/corpus.rs` against what the
    two renderings deliver, per metric name. */
module MetricManifest {
  import opened Common
  import opened MetricCorpus
  import opened MetricRenderings
  import opened MetricConservation

  // ----- counts per metric name -----

  predicate Named(labels: Labels, name: string) { "__name__" in labels && labels["__name__"] == name }

  function NamedRemote(rs: seq<RemoteSeries>, name: string): nat {
    if rs == [] then 0
    else NamedRemote(rs[..|rs| - 1], name) + if Named(rs[|rs| - 1].labels, name) then 1 else 0
  }

  function NameOnly(name: string): Sample -> bool { (s: Sample) => Named(s.labels, name) }

  lemma LabelsNamed(c: Corpus, render: Render, id: SeriesId, name: string)
    ensures Named(LabelsOf(c, render, id), name) <==> Name(id) == name
  {
    assert "instance"[0] != "__name__"[0];
  }

  lemma {:induction false} CountUniform(s: seq<Sample>, labels: Labels, name: string)
    requires forall i :: 0 <= i < |s| ==> s[i].labels == labels
    ensures Count(NameOnly(name), s) == if Named(labels, name) then |s| else 0
  {
    if s != [] { CountUniform(s[..|s| - 1], labels, name); }
  }

  lemma NamedRemoteSnoc(rs: seq<RemoteSeries>, r: RemoteSeries, name: string)
    ensures NamedRemote(rs + [r], name) == NamedRemote(rs, name) + if Named(r.labels, name) then 1 else 0
  {
    assert (rs + [r])[..|rs|] == rs;
  }

  lemma OneSeries(c: Corpus, mix: Mix, render: Render, id: SeriesId, name: string)
    ensures var r := RemoteOf(c, mix, render, id);
      && (Named(r.labels, name) <==> Name(id) == name)
      && Count(NameOnly(name), SeriesSamples(r)) == if Name(id) == name then Emitted(id, c.sampleCount) else 0
  {
    hide Count, LabelsOf, ValueAt, Emitted, Name, NameOnly, Named;
    var r := RemoteOf(c, mix, render, id);
    LabelsNamed(c, render, id, name);
    CountUniform(SeriesSamples(r), r.labels, name);
  }

  lemma NothingNamed(c: Corpus, mix: Mix, render: Render, name: string)
    ensures RemoteList(c, mix, render, []) == [] && Specs([], c.sampleCount) == []
    ensures NamedSeries([], name) == 0 && NamedSamples([], name) == 0 && NamedRemote([], name) == 0
    ensures Count(NameOnly(name), RemoteSamples([])) == 0
  {
  }

  /** The manifest counts are those of the remote-write series, whatever the sample count. */
  lemma {:induction false} ManifestIsRemote(c: Corpus, mix: Mix, render: Render, ids: seq<SeriesId>, name: string)
    ensures var (rs, specs) := (RemoteList(c, mix, render, ids), Specs(ids, c.sampleCount));
      && NamedSeries(specs, name) == NamedRemote(rs, name)
      && NamedSamples(specs, name) == Count(NameOnly(name), RemoteSamples(rs))
  {
    hide Count, RemoteOf, RemoteSamples, RemoteList, SeriesSamples, Specs, NamedSeries, NamedSamples, NamedRemote,
         NameOnly, Named, Emitted, Name;
    if ids == [] {
      NothingNamed(c, mix, render, name);
    } else {
      var (front, id) := (ids[..|ids| - 1], ids[|ids| - 1]);
      var r := RemoteOf(c, mix, render, id);
      ManifestIsRemote(c, mix, render, front, name);
      assert ids == front + [id];
      RemoteSnoc(c, mix, render, front, id);
      SpecsSnoc(front, id, c.sampleCount);
      NamedSnoc(Specs(front, c.sampleCount), SpecOf(id, c.sampleCount), name);
      NamedRemoteSnoc(RemoteList(c, mix, render, front), r, name);
      RemoteSamplesSnoc(NameOnly(name), RemoteList(c, mix, render, front), r);
      OneSeries(c, mix, render, id, name);
    }
  }

  lemma SeriesKept(spec: Spec)
    ensures var c := CorpusOf(spec);
      && c.sampleCount == spec.sampleCount && c.series == Specs(IdsOf(c), c.sampleCount)
      && c.expectedSeries == |IdsOf(c)| && c.expectedSamples == TotalSamples(c.series)
      && c.gauges == GaugeList(spec.families, StaleCutoff(spec.sampleCount, spec.stepMs), |c.gauges|)
      && |c.gauges| == spec.families.services * spec.families.gaugeInstances * spec.families.gaugeSlots
  {
    hide Emitted, Name;
  }

  /** Per metric name, the manifest's series and samples are those of the remote-write
      rendering and, from one sample on, its samples are those the OTLP requests deliver. */
  lemma PerMetricAgreement(spec: Spec, mix: Mix, render: Render, name: string)
    ensures var c := CorpusOf(spec); var rs := RemoteList(c, mix, render, IdsOf(c));
      && NamedSeries(c.series, name) == NamedRemote(rs, name)
      && NamedSamples(c.series, name) == Count(NameOnly(name), RemoteSamples(rs))
      && (spec.sampleCount >= 1 ==> NamedSamples(c.series, name) == Count(NameOnly(name), Otlp(c, mix, render)))
  {
    hide CorpusOf, IdsOf, Count, RemoteSamples, RemoteList, NamedSeries, NamedSamples, NamedRemote, Otlp, Fits,
         NameOnly;
    var c := CorpusOf(spec);
    SeriesKept(spec);
    ManifestIsRemote(c, mix, render, IdsOf(c), name);
    if spec.sampleCount >= 1 {
      GeneratedFits(spec);
      Conserved(c, mix, render, NameOnly(name));
    }
  }

  // ----- with no samples at all -----

  lemma {:induction false} RemoteTotal(c: Corpus, mix: Mix, render: Render, ids: seq<SeriesId>)
    ensures |RemoteSamples(RemoteList(c, mix, render, ids))| == TotalSamples(Specs(ids, c.sampleCount))
  {
    hide RemoteOf, RemoteList, Specs, Emitted, Name;
    if ids == [] {
      NoIds();
      RemoteNone(c, mix, render);
    } else {
      var (front, id) := (ids[..|ids| - 1], ids[|ids| - 1]);
      RemoteTotal(c, mix, render, front);
      assert ids == front + [id];
      RemoteSnoc(c, mix, render, front, id);
      SpecsSnoc(front, id, c.sampleCount);
      var (rs, r) := (RemoteList(c, mix, render, front), RemoteOf(c, mix, render, id));
      var specs := Specs(front, c.sampleCount);
      assert (rs + [r])[..|rs|] == rs && (specs + [SpecOf(id, c.sampleCount)])[..|specs|] == specs;
      RowLength(c, mix, render, id);
    }
  }

  lemma RowLength(c: Corpus, mix: Mix, render: Render, id: SeriesId)
    ensures |RemoteOf(c, mix, render, id).samples| == Emitted(id, c.sampleCount)
  {
    hide LabelsOf, PointAt;
  }

  lemma {:induction false} TotalAtLeast(series: seq<SeriesSpec>, i: nat)
    requires i < |series|
    ensures TotalSamples(series) >= series[i].samples
  {
    if i < |series| - 1 { TotalAtLeast(series[..|series| - 1], i); }
  }

  lemma {:induction false} TotalZero(series: seq<SeriesSpec>)
    requires forall i :: 0 <= i < |series| ==> series[i].samples == 0
    ensures TotalSamples(series) == 0
  {
    if series != [] { TotalZero(series[..|series| - 1]); }
  }

  /** Without timestamps the manifest still expects samples as soon as there is a gauge: the
      first gauge is stale from index 1. */
  lemma NoSamplesExpected(spec: Spec)
    requires spec.sampleCount == 0
    ensures CorpusOf(spec).expectedSamples == 0 <==> |CorpusOf(spec).gauges| == 0
  {
    hide CorpusOf;
    var c := CorpusOf(spec);
    SeriesKept(spec);
    CutoffInRange(0, spec.stepMs);
    if |c.gauges| > 0 {
      assert IdsOf(c)[0] == GaugeS(c.gauges[0]);
      assert c.gauges[0] == GaugeAt(spec.families, StaleCutoff(0, spec.stepMs), 0);
      assert c.series[0].samples >= 1;
      TotalAtLeast(c.series, 0);
    } else {
      forall i | 0 <= i < |c.series| ensures c.series[i].samples == 0 {
        NotAGauge(c, i);
      }
      TotalZero(c.series);
    }
  }

  lemma NotAGauge(c: Corpus, i: nat)
    requires i < |IdsOf(c)| && c.gauges == []
    ensures !IdsOf(c)[i].GaugeS?
  {
    var rest := i - |c.counters|;
    if 0 <= rest < |HistogramIds(c.histograms, |c.bounds|)| { HistogramsOnly(c.histograms, |c.bounds|, rest); }
  }

  lemma {:induction false} HistogramsOnly(hs: seq<Histogram>, bounds: nat, i: nat)
    requires i < |HistogramIds(hs, bounds)|
    ensures var id := HistogramIds(hs, bounds)[i];
      ((id.BucketS? && id.k <= bounds) || id.SumS? || id.CountS?) && id.h in hs
  {
    if hs != [] {
      var front := HistogramIds(hs[..|hs| - 1], bounds);
      if i < |front| {
        HistogramsOnly(hs[..|hs| - 1], bounds, i);
      } else {
        assert HistogramIds(hs, bounds)[i] == OneHistogram(hs[|hs| - 1], bounds)[i - |front|];
        assert hs[|hs| - 1] in hs;
      }
    }
  }

  /** The OTLP and the remote-write samples are the same multiset exactly when there is at
      least one timestamp or no gauge. */
  lemma SameSamplesExactly(spec: Spec, mix: Mix, render: Render)
    ensures var c := CorpusOf(spec);
      multiset(Otlp(c, mix, render)) == multiset(Remote(c, mix, render)) <==> spec.sampleCount >= 1 || |c.gauges| == 0
  {
    hide CorpusOf, IdsOf, RemoteSamples, RemoteList, Specs, TotalSamples;
    if spec.sampleCount >= 1 {
      SameSamples(spec, mix, render);
    } else {
      var c := CorpusOf(spec);
      SeriesKept(spec);
      NoSamplesExpected(spec);
      RemoteTotal(c, mix, render, IdsOf(c));
      assert |multiset(Otlp(c, mix, render))| == 0;
      assert |multiset(Remote(c, mix, render))| == c.expectedSamples;
    }
  }
}
