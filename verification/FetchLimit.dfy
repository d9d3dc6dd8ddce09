/** The fetch-until-limit case of `e2e/src/logs_corpus.rs` and `e2e/src/logs.rs`:
    which records survive, how many lie on the first pages, and the expected
    ordered prefix. */
module FetchLimit {
  import opened Arithmetic
  import opened Common
  import opened Decimal
  import opened LogBodies
  import opened LogCorpus

  /** The deployed server fetches pages of `limit * SCAN_FACTOR` rows. */
  const SCAN_FACTOR := 10

  datatype Entry = Entry(labels: Labels, tsNs: int, line: string)

  predicate Kept(c: Case, r: Record) { CaseProjection(c, r).Some? }

  function EntryOf(spec: Spec, c: Case, r: Record): Entry
    requires Kept(c, r)
  {
    var (extracted, line) := CaseProjection(c, r).value;
    Entry(BaseLabels(spec, r) + extracted, r.tsNs, line)
  }

  /** An entry carries its record's service and run beside every label its case projects: no
      projected label takes their place. */
  lemma EntryLabels(spec: Spec, c: Case, r: Record)
    requires Kept(c, r)
    ensures var (e, extracted) := (EntryOf(spec, c, r), CaseProjection(c, r).value.0);
      && "service_name" in e.labels && e.labels["service_name"] == r.service
      && "run_id" in e.labels && e.labels["run_id"] == spec.runId
      && (forall k :: k in extracted ==> k in e.labels && e.labels[k] == extracted[k])
      && |e.labels| == |extracted| + 2 && e.tsNs == r.tsNs && e.line == CaseProjection(c, r).value.1
  {
    var extracted := CaseProjection(c, r).value.0;
    var e := EntryOf(spec, c, r);
    assert r.service != SVC_SCOPE by { ScopeIsSpecial(r.service); }
    assert "service_name" !in extracted && "run_id" !in extracted by { NotProjected(c, r); }
    assert "service_name"[0] != "run_id"[0];
    var base := BaseLabels(spec, r);
    assert base == map["service_name" := r.service, "run_id" := spec.runId];
    assert e.labels.Keys == {"service_name", "run_id"} + extracted.Keys;
    assert |e.labels.Keys| == 2 + |extracted.Keys|;
  }

  lemma ScopeIsSpecial(service: string)
    requires service == SVC_JSON || service == SVC_LOGFMT || service == SVC_PLAIN
    ensures service != SVC_SCOPE
  {
    assert SVC_SCOPE[4] != SVC_JSON[4] && SVC_SCOPE[4] != SVC_LOGFMT[4] && SVC_SCOPE[4] != SVC_PLAIN[4];
  }

  lemma NotProjected(c: Case, r: Record)
    requires Kept(c, r)
    ensures "service_name" !in CaseProjection(c, r).value.0 && "run_id" !in CaseProjection(c, r).value.0
  {
    hide PrintInt, Print;
    assert "service_name"[1] != "status"[1] && "service_name"[1] != "size"[1];
    assert "run_id"[1] != "req_path"[1];
  }

  /** The entries of the kept records, in record order. */
  function Survivors(spec: Spec, c: Case, records: seq<Record>): (out: seq<Entry>)
    ensures |out| <= |records|
  {
    if records == [] then []
    else
      var front := Survivors(spec, c, records[..|records| - 1]);
      var r := records[|records| - 1];
      if Kept(c, r) then front + [EntryOf(spec, c, r)] else front
  }

  lemma SurvivorsSnoc(spec: Spec, c: Case, records: seq<Record>, r: Record)
    ensures Survivors(spec, c, records + [r]) ==
      Survivors(spec, c, records) + if Kept(c, r) then [EntryOf(spec, c, r)] else []
  {
    assert (records + [r])[..|records|] == records;
  }

  /** Survivors of a prefix are a prefix of the survivors. */
  lemma {:induction false} SurvivorsPrefix(spec: Spec, c: Case, records: seq<Record>, n: nat)
    requires n <= |records|
    ensures Survivors(spec, c, records[..n]) <= Survivors(spec, c, records)
    decreases |records|
  {
    if n < |records| {
      var front := records[..|records| - 1];
      assert front[..n] == records[..n];
      SurvivorsPrefix(spec, c, front, n);
    } else {
      assert records[..n] == records;
    }
  }

  /** The first `limit` of a list; a limit of 0 is never reached, so it does not limit. */
  function Limited<T>(s: seq<T>, limit: nat): seq<T> {
    if limit == 0 || |s| <= limit then s else s[..limit]
  }

  /** `expected_ordered_limited`. */
  method ExpectedOrderedLimited(spec: Spec, records: seq<Record>, c: Case, limit: nat) returns (out: seq<Entry>)
    ensures out == Limited(Survivors(spec, c, records), limit)
  {
    hide Kept, Survivors, EntryOf;
    out := [];
    assert Survivors(spec, c, []) == [] by { SurvivorsNone(spec, c); }
    for i := 0 to |records|
      invariant out == Survivors(spec, c, records[..i]) && (limit > 0 ==> |out| < limit)
    {
      var r := records[i];
      assert records[..i + 1] == records[..i] + [r];
      SurvivorsSnoc(spec, c, records[..i], r);
      if !Kept(c, r) { continue; }
      out := out + [EntryOf(spec, c, r)];
      if |out| == limit {
        SurvivorsPrefix(spec, c, records, i + 1);
        return;
      }
    }
    assert records[..|records|] == records;
  }

  lemma SurvivorsNone(spec: Spec, c: Case)
    ensures Survivors(spec, c, []) == []
  {
  }

  // ----- which records survive the fetch-until-limit case -----

  /** Exactly the svc-json records at positions 9, 29, 49, ... */
  lemma SurvivesExactly(baseNs: int, stepNs: int, i: nat)
    ensures Kept(FetchUntilLimitPaged, RecordAt(baseNs, stepNs, i)) <==> i % 3 == 0 && (i / 3) % 20 == 9
  {
    hide RenderBody, JsonLabels;
    Residues(i / 3);
    assert ServiceOf(i) == SVC_JSON <==> i % 3 == 0;
  }

  lemma Residues(j: nat)
    ensures j % 20 == 9 <==> j % 4 == 1 && j % 5 == 4
  {
    var (q, r) := (j / 20, j % 20);
    DivUnique(j, 4, 5 * q + r / 4, r % 4);
    DivUnique(j, 5, 4 * q + r / 5, r % 5);
    assert 0 <= r < 20 && (r == 9 <==> r % 4 == 1 && r % 5 == 4);
  }

  /** The index of survivor `k`. */
  function IndexOf(k: nat): nat { 3 * (20 * k + 9) }

  /** How many of the first `n` records survive. */
  function Count(n: nat): nat { (n + 32) / 60 }

  lemma CountStep(n: nat)
    ensures n % 3 == 0 && (n / 3) % 20 == 9 <==> n % 60 == 27
    ensures Count(n + 1) == Count(n) + if n % 60 == 27 then 1 else 0
    ensures n % 60 == 27 ==> n == IndexOf(Count(n))
  {
  }

  function SurvivorAt(spec: Spec, k: nat): Entry {
    var r := RecordAt(spec.baseNs, spec.stepNs, IndexOf(k));
    Entry(map["service_name" := SVC_JSON, RUN_ATTR := spec.runId] + JsonLabels(r), r.tsNs, r.body)
  }

  function SurvivorList(spec: Spec, count: nat): seq<Entry> {
    seq(count, k requires 0 <= k => SurvivorAt(spec, k))
  }

  lemma KeptEntry(spec: Spec, r: Record)
    requires Kept(FetchUntilLimitPaged, r)
    ensures EntryOf(spec, FetchUntilLimitPaged, r) ==
      Entry(map["service_name" := SVC_JSON, RUN_ATTR := spec.runId] + JsonLabels(r), r.tsNs, r.body)
  {
    hide JsonLabels;
    assert r.service == SVC_JSON;
  }

  lemma SurvivorEntry(spec: Spec, k: nat)
    ensures var r := RecordAt(spec.baseNs, spec.stepNs, IndexOf(k));
      Kept(FetchUntilLimitPaged, r) && EntryOf(spec, FetchUntilLimitPaged, r) == SurvivorAt(spec, k)
  {
    hide Kept, EntryOf, RecordAt, JsonLabels;
    assert IndexOf(k) / 3 == 20 * k + 9;
    SurvivesExactly(spec.baseNs, spec.stepNs, IndexOf(k));
    KeptEntry(spec, RecordAt(spec.baseNs, spec.stepNs, IndexOf(k)));
  }

  lemma ListSnoc(spec: Spec, k: nat)
    ensures SurvivorList(spec, k + 1) == SurvivorList(spec, k) + [SurvivorAt(spec, k)]
  {
    hide SurvivorAt;
  }

  lemma BeginEmpty(spec: Spec)
    ensures Regular(spec, 0) == [] && SurvivorList(spec, Count(0)) == []
  {
    hide RecordAt, SurvivorAt;
  }

  /** The survivors of the regular records, in full. */
  lemma {:induction false} RegularSurvivors(spec: Spec, n: nat)
    ensures Survivors(spec, FetchUntilLimitPaged, Regular(spec, n)) == SurvivorList(spec, Count(n))
  {
    if n == 0 {
      hide Regular, SurvivorList;
      BeginEmpty(spec);
    } else {
      hide Survivors, Kept, EntryOf, SurvivorAt, RecordAt, Count, IndexOf, Regular, SurvivorList;
      var m := n - 1;
      var r := RecordAt(spec.baseNs, spec.stepNs, m);
      RegularSurvivors(spec, m);
      RegularSnoc(spec, m);
      SurvivorsSnoc(spec, FetchUntilLimitPaged, Regular(spec, m), r);
      SurvivesExactly(spec.baseNs, spec.stepNs, m);
      CountStep(m);
      if m % 60 == 27 {
        SurvivorEntry(spec, Count(m));
        ListSnoc(spec, Count(m));
      }
    }
  }

  // ----- pages -----

  /** How many of the first `n` records are svc-json. */
  function JsonCount(n: nat): nat { (n + 2) / 3 }

  function JsonIndices(n: nat): set<int> { set i | 0 <= i < n && ServiceOf(i) == SVC_JSON }

  lemma {:induction false} JsonCountCounts(n: nat)
    ensures JsonCount(n) == |JsonIndices(n)|
  {
    if n > 0 {
      hide JsonCount, JsonIndices;
      var m := n - 1;
      JsonCountCounts(m);
      JsonStep(m);
    }
  }

  lemma JsonStep(m: nat)
    ensures JsonCount(m + 1) == JsonCount(m) + if m % 3 == 0 then 1 else 0
    ensures |JsonIndices(m + 1)| == |JsonIndices(m)| + if m % 3 == 0 then 1 else 0
  {
    assert ServiceOf(m) == SVC_JSON <==> m % 3 == 0;
    hide ServiceOf;
    var (was, now) := (JsonIndices(m), JsonIndices(m + 1));
    assert m !in was;
    assert now == if ServiceOf(m) == SVC_JSON then was + {m} else was;
  }

  /** The survivors on the first `rows` svc-json rows (every third record). */
  function OnPages(spec: Spec, rows: nat): nat {
    |Survivors(spec, FetchUntilLimitPaged, Regular(spec, 3 * rows))|
  }

  lemma OnPagesIs(spec: Spec, rows: nat)
    ensures OnPages(spec, rows) == (rows + 10) / 20
  {
    hide Survivors;
    RegularSurvivors(spec, 3 * rows);
  }

  /** One page is short of the limit exactly from a limit of 2 on; the second page
      completes it and holds nothing more. */
  lemma TwoPagesNeeded(spec: Spec, limit: nat)
    ensures OnPages(spec, limit * SCAN_FACTOR) == (limit + 1) / 2
    ensures OnPages(spec, limit * SCAN_FACTOR) < limit <==> limit >= 2
    ensures OnPages(spec, 2 * limit * SCAN_FACTOR) == limit
  {
    hide OnPages;
    OnPagesIs(spec, limit * SCAN_FACTOR);
    OnPagesIs(spec, 2 * limit * SCAN_FACTOR);
  }

  lemma WitnessDropped(spec: Spec, w: Witness)
    requires Isolated(w)
    ensures !Kept(FetchUntilLimitPaged, WitnessRecord(spec, w))
  {
  }

  lemma {:induction false} WitnessesDropped(spec: Spec, regular: seq<Record>, ws: seq<Witness>)
    requires AllIsolated(ws)
    ensures Survivors(spec, FetchUntilLimitPaged, regular + WitnessRecords(spec, ws))
         == Survivors(spec, FetchUntilLimitPaged, regular)
  {
    hide Survivors, Kept, WitnessRecord, WitnessRecords, Isolated;
    if ws == [] {
      WitnessesSnoc(spec, [], LAST_WITNESS);
      assert regular + [] == regular;
    } else {
      var (front, w) := (ws[..|ws| - 1], ws[|ws| - 1]);
      assert ws == front + [w];
      WitnessesDropped(spec, regular, front);
      WitnessesSnoc(spec, front, w);
      WitnessDropped(spec, w);
      var done := regular + WitnessRecords(spec, front);
      assert regular + WitnessRecords(spec, ws) == done + [WitnessRecord(spec, w)];
      SurvivorsSnoc(spec, FetchUntilLimitPaged, done, WitnessRecord(spec, w));
      assert Survivors(spec, FetchUntilLimitPaged, done) + [] == Survivors(spec, FetchUntilLimitPaged, done);
    }
  }

  /** The survivors of the whole corpus are those of its regular records. */
  lemma CorpusSurvivors(spec: Spec)
    ensures Survivors(spec, FetchUntilLimitPaged, Records(spec)) == SurvivorList(spec, Count(spec.count))
  {
    hide Survivors, AllWitnesses, WitnessRecords, Regular, SurvivorList, AllIsolated;
    WitnessesIsolated();
    WitnessesDropped(spec, Regular(spec, spec.count), AllWitnesses());
    RegularSurvivors(spec, spec.count);
  }

  /** With enough svc-json records the expected prefix is the first `limit` survivors,
      all of them on the first two pages, in strictly increasing time. */
  lemma ExpectedPrefix(spec: Spec, limit: nat)
    requires limit >= 1 && JsonCount(spec.count) >= 2 * limit * SCAN_FACTOR && spec.stepNs > 0
    ensures var out := Limited(Survivors(spec, FetchUntilLimitPaged, Records(spec)), limit);
      && out == SurvivorList(spec, limit)
      && |out| == limit
      && (forall k :: 0 <= k < limit ==> IndexOf(k) / 3 < 2 * limit * SCAN_FACTOR)
      && (forall a, b :: 0 <= a < b < limit ==> out[a].tsNs < out[b].tsNs)
  {
    hide Survivors, Records;
    CorpusSurvivors(spec);
    assert Count(spec.count) >= limit;
    assert SurvivorList(spec, Count(spec.count))[..limit] == SurvivorList(spec, limit);
    forall a, b | 0 <= a < b < limit ensures SurvivorAt(spec, a).tsNs < SurvivorAt(spec, b).tsNs {
      Ordered(spec, a, b);
    }
  }

  lemma Ordered(spec: Spec, a: nat, b: nat)
    requires a < b && spec.stepNs > 0
    ensures SurvivorAt(spec, a).tsNs < SurvivorAt(spec, b).tsNs
  {
    assert IndexOf(a) < IndexOf(b);
    assert spec.stepNs * IndexOf(a) < spec.stepNs * IndexOf(b);
  }
}
