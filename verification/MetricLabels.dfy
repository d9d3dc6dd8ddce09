/** When the series of the metric corpus in `e2e/src/corpus.rs` have distinct
    label sets, and the series the OTLP requests then open per metric name. */
module MetricLabels {
  import opened Common
  import opened Decimal
  import opened MetricCorpus
  import opened MetricRenderings
  import opened MetricConservation
  import opened MetricManifest

  /** The same family at the same indices; buckets with the same rendered bound. */
  predicate SameKey(bounds: seq<real>, render: Render, a: SeriesId, b: SeriesId) {
    || (a.GaugeS? && b.GaugeS? && (a.g.service, a.g.instance, a.g.slot) == (b.g.service, b.g.instance, b.g.slot))
    || (a.CounterS? && b.CounterS? && (a.c.service, a.c.instance) == (b.c.service, b.c.instance))
    || (a.BucketS? && b.BucketS? && a.h == b.h && LeLabel(bounds, render, a.k) == LeLabel(bounds, render, b.k))
    || (a.SumS? && b.SumS? && a.h == b.h)
    || (a.CountS? && b.CountS? && a.h == b.h)
    || (a.InfoS? && b.InfoS? && a.i == b.i)
  }

  lemma PrefixCancels(prefix: string, a: string, b: string)
    requires prefix + a == prefix + b
    ensures a == b
  {
    assert (prefix + a)[|prefix|..] == a && (prefix + b)[|prefix|..] == b;
  }

  lemma ServiceInjective(i: nat, j: nat)
    ensures ServiceLabel(i) == ServiceLabel(j) <==> i == j
  {
    if ServiceLabel(i) == ServiceLabel(j) {
      PrefixCancels("svc-", Print(i), Print(j));
      PrintInjective(i, j);
    }
  }

  lemma InstanceInjective(i: nat, j: nat)
    ensures InstanceLabel(i) == InstanceLabel(j) <==> i == j
  {
    if InstanceLabel(i) == InstanceLabel(j) {
      PrefixCancels("inst-", Pad(i, 3), Pad(j, 3));
      PadInjective(i, j, 3);
    }
  }

  lemma SlotInjective(i: nat, j: nat)
    ensures SlotLabel(i) == SlotLabel(j) <==> i == j
  {
    if SlotLabel(i) == SlotLabel(j) {
      PrefixCancels("slot-", Print(i), Print(j));
      PrintInjective(i, j);
    }
  }

  function Instance(id: SeriesId): nat {
    match id
    case GaugeS(g) => g.instance
    case CounterS(c) => c.instance
    case InfoS(i) => i
    case BucketS(h, _) => h.instance
    case SumS(h) => h.instance
    case CountS(h) => h.instance
  }

  function Service(id: SeriesId): nat {
    match id
    case GaugeS(g) => g.service
    case CounterS(c) => c.service
    case InfoS(i) => 0
    case BucketS(h, _) => h.service
    case SumS(h) => h.service
    case CountS(h) => h.service
  }

  /** What a label set says about its series. */
  lemma LabelsSay(c: Corpus, render: Render, id: SeriesId)
    ensures var m := LabelsOf(c, render, id);
      && "__name__" in m && m["__name__"] == Name(id)
      && "instance" in m && m["instance"] == InstanceLabel(Instance(id))
      && (!id.InfoS? ==> "service" in m && m["service"] == ServiceLabel(Service(id)))
      && (id.GaugeS? ==> "slot" in m && m["slot"] == SlotLabel(id.g.slot))
      && (id.BucketS? ==> "le" in m && m["le"] == LeLabel(c.bounds, render, id.k))
  {
    hide ServiceLabel, InstanceLabel, SlotLabel, EnvLabel, VersionLabel, LeLabel, Name;
    assert "instance"[0] != "__name__"[0];
  }

  lemma NameDecides(a: SeriesId, b: SeriesId)
    ensures Name(a) == Name(b) <==>
      ((a.GaugeS? && b.GaugeS?) || (a.CounterS? && b.CounterS?) || (a.BucketS? && b.BucketS?) || (a.SumS? && b.SumS?)
       || (a.CountS? && b.CountS?) || (a.InfoS? && b.InfoS?))
  {
    assert |"mem_usage_bytes"| == 15 && |"requests_total"| == 14 && |"target_info"| == 11;
    assert |"request_duration_seconds_bucket"| == 31 && |"request_duration_seconds_sum"| == 28;
    assert |"request_duration_seconds_count"| == 30;
  }

  /** Label sets are equal exactly for the same key. */
  lemma LabelsDecide(c: Corpus, render: Render, a: SeriesId, b: SeriesId)
    ensures LabelsOf(c, render, a) == LabelsOf(c, render, b) <==> SameKey(c.bounds, render, a, b)
  {
    if SameKey(c.bounds, render, a, b) {
      SameLabels(c, render, a, b);
    } else if LabelsOf(c, render, a) == LabelsOf(c, render, b) {
      hide LabelsOf, Name, ServiceLabel, InstanceLabel, SlotLabel, LeLabel;
      LabelsSay(c, render, a);
      LabelsSay(c, render, b);
      NameDecides(a, b);
      InstanceInjective(Instance(a), Instance(b));
      ServiceInjective(Service(a), Service(b));
      if a.GaugeS? && b.GaugeS? { SlotInjective(a.g.slot, b.g.slot); }
    }
  }

  lemma SameLabels(c: Corpus, render: Render, a: SeriesId, b: SeriesId)
    requires SameKey(c.bounds, render, a, b)
    ensures LabelsOf(c, render, a) == LabelsOf(c, render, b)
  {
    hide ServiceLabel, InstanceLabel, SlotLabel, EnvLabel, VersionLabel, LeLabel;
  }

  // ----- pairwise distinct label sets -----

  predicate Distinct(c: Corpus, render: Render, ids: seq<SeriesId>) {
    forall i, j :: 0 <= i < j < |ids| ==> LabelsOf(c, render, ids[i]) != LabelsOf(c, render, ids[j])
  }

  predicate Apart(c: Corpus, render: Render, a: seq<SeriesId>, b: seq<SeriesId>) {
    forall x, y :: x in a && y in b ==> LabelsOf(c, render, x) != LabelsOf(c, render, y)
  }

  /** No two buckets of one histogram render the same bound. */
  predicate DistinctBounds(bounds: seq<real>, render: Render) {
    forall k, l :: 0 <= k < l <= |bounds| ==> LeLabel(bounds, render, k) != LeLabel(bounds, render, l)
  }

  lemma DistinctAppend(c: Corpus, render: Render, a: seq<SeriesId>, b: seq<SeriesId>)
    ensures Distinct(c, render, a + b) <==> Distinct(c, render, a) && Distinct(c, render, b) && Apart(c, render, a, b)
  {
    hide LabelsOf;
    var s := a + b;
    if Distinct(c, render, s) {
      forall x, y | x in a && y in b ensures LabelsOf(c, render, x) != LabelsOf(c, render, y) {
        var i :| 0 <= i < |a| && a[i] == x;
        var j :| 0 <= j < |b| && b[j] == y;
        assert s[i] == x && s[|a| + j] == y;
      }
      forall i, j | 0 <= i < j < |b| ensures LabelsOf(c, render, b[i]) != LabelsOf(c, render, b[j]) {
        assert s[|a| + i] == b[i] && s[|a| + j] == b[j];
      }
      forall i, j | 0 <= i < j < |a| ensures LabelsOf(c, render, a[i]) != LabelsOf(c, render, a[j]) {
        assert s[i] == a[i] && s[j] == a[j];
      }
    }
  }

  lemma Recover(flat: nat, b: nat)
    requires b > 0
    ensures flat == Quot(flat, b) * b + Rest(flat, b)
  {
  }

  lemma GaugesDistinct(c: Corpus, render: Render, f: Families, cutoff: nat, n: nat)
    requires n > 0 ==> f.gaugeInstances > 0 && f.gaugeSlots > 0
    ensures Distinct(c, render, GaugeIds(GaugeList(f, cutoff, n)))
  {
    hide LabelsOf;
    var ids := GaugeIds(GaugeList(f, cutoff, n));
    forall i, j | 0 <= i < j < |ids| ensures LabelsOf(c, render, ids[i]) != LabelsOf(c, render, ids[j]) {
      assert ids[i] == GaugeS(GaugeAt(f, cutoff, i)) && ids[j] == GaugeS(GaugeAt(f, cutoff, j));
      Recover(i, f.gaugeSlots);
      Recover(j, f.gaugeSlots);
      Recover(Quot(i, f.gaugeSlots), f.gaugeInstances);
      Recover(Quot(j, f.gaugeSlots), f.gaugeInstances);
      LabelsDecide(c, render, ids[i], ids[j]);
    }
  }

  lemma CountersDistinct(c: Corpus, render: Render, f: Families, resetAt: nat, n: nat)
    requires n > 0 ==> f.counterInstances > 0
    ensures Distinct(c, render, CounterIds(CounterList(f, resetAt, n)))
  {
    hide LabelsOf;
    var ids := CounterIds(CounterList(f, resetAt, n));
    forall i, j | 0 <= i < j < |ids| ensures LabelsOf(c, render, ids[i]) != LabelsOf(c, render, ids[j]) {
      assert ids[i] == CounterS(CounterAt(f, resetAt, i)) && ids[j] == CounterS(CounterAt(f, resetAt, j));
      Recover(i, f.counterInstances);
      Recover(j, f.counterInstances);
      LabelsDecide(c, render, ids[i], ids[j]);
    }
  }

  lemma InfosDistinct(c: Corpus, render: Render, n: nat)
    ensures Distinct(c, render, InfoIds(n))
  {
    hide LabelsOf;
    var ids := InfoIds(n);
    forall i, j | 0 <= i < j < |ids| ensures LabelsOf(c, render, ids[i]) != LabelsOf(c, render, ids[j]) {
      LabelsDecide(c, render, ids[i], ids[j]);
    }
  }

  /** One histogram's series are distinct exactly when its bounds render distinctly. */
  lemma HistogramDistinct(c: Corpus, render: Render, h: Histogram)
    ensures Distinct(c, render, OneHistogram(h, |c.bounds|)) <==> DistinctBounds(c.bounds, render)
  {
    hide LabelsOf, LeLabel;
    var n := |c.bounds| + 1;
    var (buckets, rest) := (BucketIds(h, n), [SumS(h), CountS(h)]);
    DistinctAppend(c, render, buckets, rest);
    forall x, y | x in buckets && y in rest ensures LabelsOf(c, render, x) != LabelsOf(c, render, y) {
      LabelsDecide(c, render, x, y);
    }
    LabelsDecide(c, render, rest[0], rest[1]);
    forall k, l | 0 <= k < l < n
      ensures LabelsOf(c, render, buckets[k]) == LabelsOf(c, render, buckets[l]) <==>
              LeLabel(c.bounds, render, k) == LeLabel(c.bounds, render, l)
    {
      LabelsDecide(c, render, buckets[k], buckets[l]);
    }
    BucketsDistinct(c, render, buckets);
  }

  lemma BucketsDistinct(c: Corpus, render: Render, buckets: seq<SeriesId>)
    requires |buckets| == |c.bounds| + 1
    requires forall k, l :: 0 <= k < l < |buckets| ==>
      (LabelsOf(c, render, buckets[k]) == LabelsOf(c, render, buckets[l]) <==>
       LeLabel(c.bounds, render, k) == LeLabel(c.bounds, render, l))
    ensures Distinct(c, render, buckets) <==> DistinctBounds(c.bounds, render)
  {
    hide LabelsOf, LeLabel;
    if Distinct(c, render, buckets) {
      forall k, l | 0 <= k < l <= |c.bounds| ensures LeLabel(c.bounds, render, k) != LeLabel(c.bounds, render, l) {
        assert LabelsOf(c, render, buckets[k]) != LabelsOf(c, render, buckets[l]);
      }
    }
  }

  predicate DistinctHistograms(hs: seq<Histogram>) {
    forall i, j :: 0 <= i < j < |hs| ==> hs[i] != hs[j]
  }

  lemma {:induction false} HistogramsDistinct(c: Corpus, render: Render, hs: seq<Histogram>)
    requires DistinctHistograms(hs)
    ensures Distinct(c, render, HistogramIds(hs, |c.bounds|)) <==> hs == [] || DistinctBounds(c.bounds, render)
  {
    if hs != [] {
      hide Distinct, Apart, LabelsOf, DistinctBounds;
      var (front, h) := (hs[..|hs| - 1], hs[|hs| - 1]);
      HistogramsDistinct(c, render, front);
      HistogramDistinct(c, render, h);
      DistinctAppend(c, render, HistogramIds(front, |c.bounds|), OneHistogram(h, |c.bounds|));
      assert h !in front;
      HistogramsApart(c, render, front, h);
    } else {
      assert HistogramIds(hs, |c.bounds|) == [];
    }
  }

  lemma HistogramsApart(c: Corpus, render: Render, hs: seq<Histogram>, h: Histogram)
    requires h !in hs
    ensures Apart(c, render, HistogramIds(hs, |c.bounds|), OneHistogram(h, |c.bounds|))
  {
    hide LabelsOf, HistogramIds, LeLabel;
    var (a, b) := (HistogramIds(hs, |c.bounds|), OneHistogram(h, |c.bounds|));
    forall x, y | x in a && y in b ensures LabelsOf(c, render, x) != LabelsOf(c, render, y) {
      var i :| 0 <= i < |a| && a[i] == x;
      HistogramsOnly(hs, |c.bounds|, i);
      assert (y.BucketS? || y.SumS? || y.CountS?) && y.h == h;
      LabelsDecide(c, render, x, y);
    }
  }

  /** The families never share a label set: their names differ. */
  lemma FamiliesApart(c: Corpus, render: Render, hs: seq<SeriesId>)
    requires hs == HistogramIds(c.histograms, |c.bounds|)
    ensures var (gs, cs, infos) := (GaugeIds(c.gauges), CounterIds(c.counters), InfoIds(c.infos));
      Apart(c, render, gs, cs) && Apart(c, render, gs + cs, hs) && Apart(c, render, gs + cs + hs, infos)
  {
    hide LabelsOf, HistogramIds, SameKey;
    var (gs, cs, infos) := (GaugeIds(c.gauges), CounterIds(c.counters), InfoIds(c.infos));
    forall x | x in hs ensures x.BucketS? || x.SumS? || x.CountS? {
      var i :| 0 <= i < |hs| && hs[i] == x;
      HistogramsOnly(c.histograms, |c.bounds|, i);
    }
    forall x, y | !SameFamily(x, y) ensures LabelsOf(c, render, x) != LabelsOf(c, render, y) {
      FamilyDecides(c, render, x, y);
    }
  }

  predicate SameFamily(a: SeriesId, b: SeriesId) {
    (a.GaugeS? <==> b.GaugeS?) && (a.CounterS? <==> b.CounterS?) && (a.InfoS? <==> b.InfoS?)
  }

  lemma FamilyDecides(c: Corpus, render: Render, a: SeriesId, b: SeriesId)
    requires !SameFamily(a, b)
    ensures LabelsOf(c, render, a) != LabelsOf(c, render, b)
  {
    hide LabelsOf;
    LabelsDecide(c, render, a, b);
  }

  lemma PositiveFactors(a: nat, b: nat, d: nat)
    requires a * b * d > 0
    ensures a > 0 && b > 0 && d > 0
  {
    assert a == 0 ==> a * b == 0;
    assert b == 0 ==> a * b == 0;
    assert a * b == 0 || d == 0 ==> a * b * d == 0;
  }

  lemma HistogramListDistinct(f: Families, n: nat)
    requires n > 0 ==> f.histogramInstances > 0
    ensures DistinctHistograms(HistogramList(f, n))
  {
    var hs := HistogramList(f, n);
    forall i, j | 0 <= i < j < |hs| ensures hs[i] != hs[j] {
      assert hs[i] == HistogramAt(f, i) && hs[j] == HistogramAt(f, j);
      Recover(i, f.histogramInstances);
      Recover(j, f.histogramInstances);
    }
  }

  lemma PartsDistinct(spec: Spec, render: Render)
    ensures var c := CorpusOf(spec);
      && Distinct(c, render, GaugeIds(c.gauges)) && Distinct(c, render, CounterIds(c.counters))
      && Distinct(c, render, InfoIds(c.infos)) && DistinctHistograms(c.histograms)
  {
    hide Distinct, Specs, SeriesIds, StaleCutoff, ResetAt, GaugeList, CounterList, HistogramList;
    var (c, f) := (CorpusOf(spec), spec.families);
    var (g, k, h) := (f.services * f.gaugeInstances * f.gaugeSlots, f.services * f.counterInstances,
                      f.services * f.histogramInstances);
    if g > 0 { PositiveFactors(f.services, f.gaugeInstances, f.gaugeSlots); }
    if k > 0 { PositiveFactors(f.services, f.counterInstances, 1); }
    if h > 0 { PositiveFactors(f.services, f.histogramInstances, 1); }
    GaugesDistinct(c, render, f, StaleCutoff(spec.sampleCount, spec.stepMs), g);
    CountersDistinct(c, render, f, ResetAt(spec.sampleCount), k);
    InfosDistinct(c, render, f.targetInfoInstances);
    HistogramListDistinct(f, h);
  }

  /** The label sets of a generated corpus are pairwise distinct exactly when no two buckets
      render the same bound, or there is no histogram. */
  lemma LabelsDistinctExactly(spec: Spec, render: Render)
    ensures var c := CorpusOf(spec);
      Distinct(c, render, IdsOf(c)) <==> c.histograms == [] || DistinctBounds(c.bounds, render)
  {
    hide Distinct, Apart, CorpusOf, GaugeIds, CounterIds, HistogramIds, InfoIds, DistinctBounds, DistinctHistograms;
    var c := CorpusOf(spec);
    var (gs, cs, hs, infos) := (GaugeIds(c.gauges), CounterIds(c.counters), HistogramIds(c.histograms, |c.bounds|),
                                InfoIds(c.infos));
    PartsDistinct(spec, render);
    HistogramsDistinct(c, render, c.histograms);
    FamiliesApart(c, render, hs);
    DistinctAppend(c, render, gs, cs);
    DistinctAppend(c, render, gs + cs, hs);
    DistinctAppend(c, render, gs + cs + hs, infos);
  }

  // ----- the series a store sees -----

  function LabelSets(c: Corpus, render: Render, ids: seq<SeriesId>, name: string): set<Labels> {
    set i | 0 <= i < |ids| && Name(ids[i]) == name :: LabelsOf(c, render, ids[i])
  }

  /** The label sets the OTLP requests open under one metric name. */
  function OtlpSeries(c: Corpus, mix: Mix, render: Render, name: string): set<Labels> {
    set s | s in Otlp(c, mix, render) && Named(s.labels, name) :: s.labels
  }

  lemma {:induction false} LabelSetsCount(c: Corpus, render: Render, ids: seq<SeriesId>, n: nat, name: string)
    requires Distinct(c, render, ids)
    ensures |LabelSets(c, render, ids, name)| == NamedSeries(Specs(ids, n), name)
  {
    hide LabelsOf, Specs, Name;
    if ids == [] {
      NoIds();
      assert LabelSets(c, render, ids, name) == {};
    } else {
      var (front, id) := (ids[..|ids| - 1], ids[|ids| - 1]);
      assert ids == front + [id];
      assert Distinct(c, render, front);
      LabelSetsCount(c, render, front, n, name);
      SpecsSnoc(front, id, n);
      NamedSnoc(Specs(front, n), SpecOf(id, n), name);
      LabelSetsSnoc(c, render, front, id, name);
    }
  }

  lemma LabelSetsSnoc(c: Corpus, render: Render, ids: seq<SeriesId>, id: SeriesId, name: string)
    requires Distinct(c, render, ids + [id])
    ensures |LabelSets(c, render, ids + [id], name)|
         == |LabelSets(c, render, ids, name)| + if Name(id) == name then 1 else 0
  {
    hide LabelsOf, Name;
    var (was, m, s) := (LabelSets(c, render, ids, name), LabelsOf(c, render, id), ids + [id]);
    LabelSetsGrow(c, render, ids, id, name);
    assert m !in was by {
      assert s[|ids|] == id;
      forall i | 0 <= i < |ids| ensures LabelsOf(c, render, ids[i]) != m { assert s[i] == ids[i]; }
    }
  }

  lemma {:induction false} RemoteMembers(c: Corpus, mix: Mix, render: Render, ids: seq<SeriesId>, s: Sample)
    requires s in RemoteSamples(RemoteList(c, mix, render, ids))
    ensures exists i :: 0 <= i < |ids| && s.labels == LabelsOf(c, render, ids[i])
  {
    hide LabelsOf, RemoteList, ValueAt;
    if ids == [] {
      RemoteNone(c, mix, render);
    } else {
      var (front, id) := (ids[..|ids| - 1], ids[|ids| - 1]);
      assert ids == front + [id];
      RemoteSnoc(c, mix, render, front, id);
      var (rs, r) := (RemoteList(c, mix, render, front), RemoteOf(c, mix, render, id));
      assert (rs + [r])[..|rs|] == rs;
      if s in RemoteSamples(rs) {
        RemoteMembers(c, mix, render, front, s);
        var i :| 0 <= i < |front| && s.labels == LabelsOf(c, render, front[i]);
        assert ids[i] == front[i];
      } else {
        assert s in SeriesSamples(r);
        assert s.labels == LabelsOf(c, render, ids[|ids| - 1]);
      }
    }
  }

  lemma {:induction false} RemoteOpens(c: Corpus, mix: Mix, render: Render, ids: seq<SeriesId>, i: nat)
    requires i < |ids| && Emitted(ids[i], c.sampleCount) >= 1
    ensures exists s :: s in RemoteSamples(RemoteList(c, mix, render, ids)) && s.labels == LabelsOf(c, render, ids[i])
  {
    hide LabelsOf, RemoteList, SampleAt, Emitted, SeriesSamples, RemoteOf;
    var (front, id) := (ids[..|ids| - 1], ids[|ids| - 1]);
    assert ids == front + [id];
    RemoteSnoc(c, mix, render, front, id);
    var (rs, r) := (RemoteList(c, mix, render, front), RemoteOf(c, mix, render, id));
    assert (rs + [r])[..|rs|] == rs;
    if i < |front| {
      assert front[i] == ids[i];
      RemoteOpens(c, mix, render, front, i);
      var s :| s in RemoteSamples(rs) && s.labels == LabelsOf(c, render, ids[i]);
      assert s in RemoteSamples(rs + [r]);
    } else {
      RemoteRow(c, mix, render, id);
      var s := SampleAt(c, mix, render, id, 0);
      assert SeriesSamples(r)[0] == s;
      SampleLabels(c, mix, render, id);
      assert s in RemoteSamples(rs + [r]);
    }
  }

  lemma SampleLabels(c: Corpus, mix: Mix, render: Render, id: SeriesId)
    ensures SampleAt(c, mix, render, id, 0).labels == LabelsOf(c, render, id)
  {
  }

  lemma SeenIsListed(spec: Spec, mix: Mix, render: Render, name: string)
    requires spec.sampleCount >= 1
    ensures var c := CorpusOf(spec); OtlpSeries(c, mix, render, name) == LabelSets(c, render, IdsOf(c), name)
  {
    hide CorpusOf, IdsOf, Otlp, RemoteSamples, RemoteList, LabelsOf, Name, Named, Emitted;
    var c := CorpusOf(spec);
    var ids := IdsOf(c);
    SeriesKept(spec);
    SameSamples(spec, mix, render);
    GeneratedFits(spec);
    var (a, b) := (Otlp(c, mix, render), Remote(c, mix, render));
    forall s ensures s in a <==> s in b { assert s in multiset(a) <==> s in multiset(b); }
    forall m ensures m in OtlpSeries(c, mix, render, name) ==> m in LabelSets(c, render, ids, name) {
      if m in OtlpSeries(c, mix, render, name) {
        var s :| s in a && Named(s.labels, name) && s.labels == m;
        RemoteMembers(c, mix, render, ids, s);
        var i :| 0 <= i < |ids| && s.labels == LabelsOf(c, render, ids[i]);
        LabelsNamed(c, render, ids[i], name);
      }
    }
    forall m ensures m in LabelSets(c, render, ids, name) ==> m in OtlpSeries(c, mix, render, name) {
      if m in LabelSets(c, render, ids, name) {
        var i :| 0 <= i < |ids| && Name(ids[i]) == name && LabelsOf(c, render, ids[i]) == m;
        RemoteOpens(c, mix, render, ids, i);
        LabelsNamed(c, render, ids[i], name);
        var s :| s in b && s.labels == m;
        assert s in a;
      }
    }
  }

  /** Appending a series adds at most its own label set. */
  lemma LabelSetsGrow(c: Corpus, render: Render, ids: seq<SeriesId>, id: SeriesId, name: string)
    ensures var (was, all) := (LabelSets(c, render, ids, name), LabelSets(c, render, ids + [id], name));
      all == if Name(id) == name then was + {LabelsOf(c, render, id)} else was
  {
    hide LabelsOf, Name;
    var (was, all) := (LabelSets(c, render, ids, name), LabelSets(c, render, ids + [id], name));
    var s := ids + [id];
    assert s[|ids|] == id;
    forall x ensures x in was ==> x in all {
      if x in was {
        var i :| 0 <= i < |ids| && Name(ids[i]) == name && LabelsOf(c, render, ids[i]) == x;
        assert s[i] == ids[i];
      }
    }
  }

  lemma {:induction false} LabelSetsAtMost(c: Corpus, render: Render, ids: seq<SeriesId>, n: nat, name: string)
    ensures |LabelSets(c, render, ids, name)| <= NamedSeries(Specs(ids, n), name)
  {
    hide LabelsOf, Specs, Name;
    if ids == [] {
      NoIds();
      assert LabelSets(c, render, ids, name) == {};
    } else {
      hide LabelSets, NamedSeries;
      var (front, id) := (ids[..|ids| - 1], ids[|ids| - 1]);
      assert ids == front + [id];
      LabelSetsAtMost(c, render, front, n, name);
      SpecsSnoc(front, id, n);
      NamedSnoc(Specs(front, n), SpecOf(id, n), name);
      LabelSetsGrow(c, render, front, id, name);
    }
  }

  /** A repeated label set leaves its metric name short of series. */
  lemma {:induction false} LabelSetsShort(c: Corpus, render: Render, ids: seq<SeriesId>, n: nat, i: nat, j: nat)
    requires i < j < |ids| && LabelsOf(c, render, ids[i]) == LabelsOf(c, render, ids[j])
    ensures |LabelSets(c, render, ids, Name(ids[i]))| < NamedSeries(Specs(ids, n), Name(ids[i]))
  {
    hide LabelsOf, Specs, Name, NamedSeries;
    var (front, id, name) := (ids[..|ids| - 1], ids[|ids| - 1], Name(ids[i]));
    assert ids == front + [id] && front[i] == ids[i];
    SpecsSnoc(front, id, n);
    NamedSnoc(Specs(front, n), SpecOf(id, n), name);
    LabelSetsGrow(c, render, front, id, name);
    if j < |front| {
      LabelSetsShort(c, render, front, n, i, j);
    } else {
      LabelSetsAtMost(c, render, front, n, name);
      LabelsNamed(c, render, ids[i], name);
      LabelsNamed(c, render, id, name);
      assert LabelsOf(c, render, front[i]) in LabelSets(c, render, front, name);
      assert LabelSets(c, render, ids, name) == LabelSets(c, render, front, name);
    }
  }

  ghost predicate SeriesCountsAgree(c: Corpus, mix: Mix, render: Render) {
    forall name :: |OtlpSeries(c, mix, render, name)| == NamedSeries(c.series, name)
  }

  /** From one sample on, the OTLP requests open as many series per metric name as the manifest
      lists exactly when no two buckets render the same bound, or there is no histogram. */
  lemma SeriesCountsAgreeExactly(spec: Spec, mix: Mix, render: Render)
    requires spec.sampleCount >= 1
    ensures var c := CorpusOf(spec);
      SeriesCountsAgree(c, mix, render) <==> c.histograms == [] || DistinctBounds(c.bounds, render)
  {
    hide CorpusOf, IdsOf, OtlpSeries, LabelSets, DistinctBounds, Specs, NamedSeries, LabelsOf, Name;
    var c := CorpusOf(spec);
    var ids := IdsOf(c);
    SeriesKept(spec);
    LabelsDistinctExactly(spec, render);
    forall name ensures OtlpSeries(c, mix, render, name) == LabelSets(c, render, ids, name) {
      SeenIsListed(spec, mix, render, name);
    }
    if Distinct(c, render, ids) {
      forall name ensures |OtlpSeries(c, mix, render, name)| == NamedSeries(c.series, name) {
        LabelSetsCount(c, render, ids, c.sampleCount, name);
      }
    } else {
      var i, j :| 0 <= i < j < |ids| && LabelsOf(c, render, ids[i]) == LabelsOf(c, render, ids[j]);
      LabelSetsShort(c, render, ids, c.sampleCount, i, j);
      assert |OtlpSeries(c, mix, render, Name(ids[i]))| < NamedSeries(c.series, Name(ids[i]));
    }
  }
}
