/** `generate` of `e2e/src/logs_corpus.rs`: the regular records by index, then
    the witness records of the dedicated services. */
module LogCorpus {
  import opened Arithmetic
  import opened Common
  import opened LogBodies

  const SVC_SCOPE := "svc-scope"
  const SVC_SORT := "svc-sort"
  const SVC_RC_RESET := "svc-rcreset"
  const SVC_RC_DUPTS := "svc-rcdup"
  const RUN_ATTR := "run_id"

  datatype Spec = Spec(count: nat, stepNs: int, baseNs: int, runId: string)

  datatype Corpus = Corpus(runId: string, records: seq<Record>, firstTsNs: int, lastTsNs: int)

  // ----- witnesses -----

  /** A witness record's offset after the regular records, its service and its body. */
  datatype Witness = Witness(offset: nat, service: string, body: string)

  const ERROR_WITNESSES: seq<Witness> := [
    Witness(0, "svc-badjson", "not a json line"), Witness(1, "svc-badnum", "n=oops"),
    Witness(2, SVC_SCOPE, "scope collision witness"), Witness(3, "svc-ipmiss", "addr=10.1.2.3"),
    Witness(4, "svc-ipmiss", "svc=web"), Witness(5, "svc-ipbad", "addr=not-an-ip")]

  const RATE_WITNESSES: seq<Witness> := [
    Witness(6, SVC_RC_RESET, "c=10"), Witness(7, SVC_RC_RESET, "c=30"), Witness(8, SVC_RC_RESET, "c=5"),
    Witness(9, SVC_RC_RESET, "c=12"), Witness(10, "svc-rcsparse", "c=200"), Witness(11, "svc-rcsparse", "c=260"),
    Witness(12, "svc-rcbound", "c=100"), Witness(13, "svc-rcbound", "c=160"), Witness(14, SVC_RC_DUPTS, "c=5"),
    Witness(15, SVC_RC_DUPTS, "c=10"), Witness(15, SVC_RC_DUPTS, "c=3"), Witness(16, SVC_RC_DUPTS, "c=12")]

  /** The eleven `sort` witnesses: five of group a, one of b, five of c. */
  function SortWitness(k: nat): Witness {
    Witness(17 + k, SVC_SORT, if k < 5 then "grp=a" else if k == 5 then "grp=b" else "grp=c")
  }

  const LAST_WITNESS := Witness(28, "svc-badunit", "took=abc x=1")

  function AllWitnesses(): seq<Witness> {
    ERROR_WITNESSES + RATE_WITNESSES + seq(11, k requires 0 <= k => SortWitness(k)) + [LAST_WITNESS]
  }

  /** A witness has none of the regular services and no offset beyond the last one's. */
  predicate Isolated(w: Witness) {
    w.offset <= 28 && w.service != SVC_JSON && w.service != SVC_LOGFMT && w.service != SVC_PLAIN
  }

  predicate AllIsolated(ws: seq<Witness>) { forall i :: 0 <= i < |ws| ==> Isolated(ws[i]) }

  lemma OtherService(service: string)
    requires |service| > 4 && service[4] != 'j' && service[4] != 'l' && service[4] != 'p'
    ensures service != SVC_JSON && service != SVC_LOGFMT && service != SVC_PLAIN
  {
  }

  lemma ErrorsIsolated()
    ensures AllIsolated(ERROR_WITNESSES)
  {
    OtherService("svc-badjson");
    OtherService("svc-badnum");
    OtherService(SVC_SCOPE);
    OtherService("svc-ipmiss");
    OtherService("svc-ipbad");
  }

  lemma RatesIsolated()
    ensures AllIsolated(RATE_WITNESSES)
  {
    OtherService(SVC_RC_RESET);
    OtherService("svc-rcsparse");
    OtherService("svc-rcbound");
    OtherService(SVC_RC_DUPTS);
  }

  lemma AppendIsolated(a: seq<Witness>, b: seq<Witness>)
    requires AllIsolated(a) && AllIsolated(b)
    ensures AllIsolated(a + b)
  {
  }

  /** How many of the witnesses are of `service` and say `body`. */
  function Saying(ws: seq<Witness>, service: string, body: string): nat {
    if ws == [] then 0
    else
      var (front, w) := (ws[..|ws| - 1], ws[|ws| - 1]);
      Saying(front, service, body) + if w.service == service && w.body == body then 1 else 0
  }

  lemma {:induction false} SayingJoin(a: seq<Witness>, b: seq<Witness>, service: string, body: string)
    ensures Saying(a + b, service, body) == Saying(a, service, body) + Saying(b, service, body)
  {
    if b == [] {
      assert a + b == a;
    } else {
      SayingJoin(a, b[..|b| - 1], service, body);
      assert (a + b)[..|a + b| - 1] == a + b[..|b| - 1];
    }
  }

  lemma {:induction false} SayingNone(ws: seq<Witness>, service: string, body: string)
    requires forall i :: 0 <= i < |ws| ==> ws[i].service != service
    ensures Saying(ws, service, body) == 0
  {
    if ws != [] { SayingNone(ws[..|ws| - 1], service, body); }
  }

  /** The first `n` of the sort witnesses. */
  function Sorts(n: nat): seq<Witness> { seq(n, k requires 0 <= k => SortWitness(k)) }

  lemma {:induction false} SortsSaying(n: nat)
    ensures Saying(Sorts(n), SVC_SORT, "grp=a") == if n < 5 then n else 5
    ensures Saying(Sorts(n), SVC_SORT, "grp=b") == if n < 6 then 0 else 1
    ensures Saying(Sorts(n), SVC_SORT, "grp=c") == if n < 6 then 0 else n - 6
  {
    if n > 0 {
      SortsSaying(n - 1);
      assert Sorts(n)[..n - 1] == Sorts(n - 1) && Sorts(n)[n - 1] == SortWitness(n - 1);
      assert "grp=a"[4] != "grp=b"[4] && "grp=a"[4] != "grp=c"[4] && "grp=b"[4] != "grp=c"[4];
    }
  }

  /** The counts the sort cases expect of the corpus: five, one and five. */
  lemma SortCounts()
    ensures var all := AllWitnesses();
      Saying(all, SVC_SORT, "grp=a") == 5 && Saying(all, SVC_SORT, "grp=b") == 1 && Saying(all, SVC_SORT, "grp=c") == 5
  {
    hide Saying;
    SortsSaying(11);
    var others := ERROR_WITNESSES + RATE_WITNESSES;
    assert Sorts(11) == seq(11, k requires 0 <= k => SortWitness(k));
    assert AllWitnesses() == others + Sorts(11) + [LAST_WITNESS];
    forall body ensures Saying(AllWitnesses(), SVC_SORT, body) == Saying(Sorts(11), SVC_SORT, body) {
      NoOtherSorts(body);
      SayingJoin(others, Sorts(11), SVC_SORT, body);
      SayingJoin(others + Sorts(11), [LAST_WITNESS], SVC_SORT, body);
    }
  }

  lemma NoOtherSorts(body: string)
    ensures Saying(ERROR_WITNESSES + RATE_WITNESSES, SVC_SORT, body) == 0 && Saying([LAST_WITNESS], SVC_SORT, body) == 0
  {
    NotSort("svc-badjson");
    NotSort("svc-badnum");
    NotSort(SVC_SCOPE);
    NotSort("svc-ipmiss");
    NotSort("svc-ipbad");
    NotSort(SVC_RC_RESET);
    NotSort("svc-rcsparse");
    NotSort("svc-rcbound");
    NotSort(SVC_RC_DUPTS);
    NotSort("svc-badunit");
    SayingNone(ERROR_WITNESSES, SVC_SORT, body);
    SayingNone(RATE_WITNESSES, SVC_SORT, body);
    SayingJoin(ERROR_WITNESSES, RATE_WITNESSES, SVC_SORT, body);
    SayingNone([LAST_WITNESS], SVC_SORT, body);
  }

  lemma NotSort(service: string)
    requires |service| > 5 && (service[4] != 's' || service[5] != 'o')
    ensures service != SVC_SORT
  {
  }

  /** Every witness keeps out of the regular services. */
  lemma WitnessesIsolated()
    ensures AllIsolated(AllWitnesses()) && |AllWitnesses()| == 30 && AllWitnesses()[29] == LAST_WITNESS
  {
    hide AllIsolated;
    var sorts := seq(11, k requires 0 <= k => SortWitness(k));
    assert AllIsolated(sorts) by { SortsIsolated(sorts); }
    assert AllIsolated([LAST_WITNESS]) by { LastIsolated(); }
    ErrorsIsolated();
    RatesIsolated();
    AppendIsolated(ERROR_WITNESSES, RATE_WITNESSES);
    AppendIsolated(ERROR_WITNESSES + RATE_WITNESSES, sorts);
    AppendIsolated(ERROR_WITNESSES + RATE_WITNESSES + sorts, [LAST_WITNESS]);
  }

  lemma SortsIsolated(sorts: seq<Witness>)
    requires |sorts| == 11 && forall k :: 0 <= k < 11 ==> sorts[k] == SortWitness(k)
    ensures AllIsolated(sorts)
  {
    OtherService(SVC_SORT);
  }

  lemma LastIsolated()
    ensures AllIsolated([LAST_WITNESS])
  {
    OtherService("svc-badunit");
  }

  // ----- the records -----

  function WitnessRecord(spec: Spec, w: Witness): Record {
    Record(w.service, spec.baseNs + spec.stepNs * (spec.count + w.offset), w.body, "GET", 0, "/", "info", 0, 0,
           spec.count + w.offset)
  }

  function Regular(spec: Spec, n: nat): seq<Record> {
    seq(n, i requires 0 <= i => RecordAt(spec.baseNs, spec.stepNs, i))
  }

  function WitnessRecords(spec: Spec, ws: seq<Witness>): seq<Record> {
    seq(|ws|, i requires 0 <= i < |ws| => WitnessRecord(spec, ws[i]))
  }

  function Records(spec: Spec): seq<Record> {
    Regular(spec, spec.count) + WitnessRecords(spec, AllWitnesses())
  }

  function CorpusOf(spec: Spec): Corpus {
    Corpus(spec.runId, Records(spec), spec.baseNs, spec.baseNs + spec.stepNs * (spec.count + LAST_WITNESS.offset))
  }

  lemma RegularSnoc(spec: Spec, m: nat)
    ensures Regular(spec, 0) == []
    ensures Regular(spec, m + 1) == Regular(spec, m) + [RecordAt(spec.baseNs, spec.stepNs, m)]
  {
    hide RecordAt;
  }

  lemma WitnessesSnoc(spec: Spec, ws: seq<Witness>, w: Witness)
    ensures WitnessRecords(spec, []) == []
    ensures WitnessRecords(spec, ws + [w]) == WitnessRecords(spec, ws) + [WitnessRecord(spec, w)]
  {
    hide WitnessRecord;
  }

  /** `generate`; the last timestamp is the last record's, the `svc-badunit` witness's. */
  method Generate(spec: Spec) returns (corpus: Corpus)
    ensures corpus == CorpusOf(spec)
  {
    hide RecordAt, Regular, WitnessRecords, AllWitnesses;
    var records := [];
    RegularSnoc(spec, 0);
    for i := 0 to spec.count
      invariant records == Regular(spec, i)
    {
      RegularSnoc(spec, i);
      records := records + [RecordAt(spec.baseNs, spec.stepNs, i)];
    }
    ghost var regular := records;
    var ws := AllWitnesses();
    WitnessesSnoc(spec, [], LAST_WITNESS);
    assert regular + [] == regular;
    for i := 0 to |ws|
      invariant records == regular + WitnessRecords(spec, ws[..i])
      invariant i > 0 ==> |records| > 0 && records[|records| - 1] == WitnessRecord(spec, ws[i - 1])
    {
      assert ws[..i + 1] == ws[..i] + [ws[i]];
      WitnessesSnoc(spec, ws[..i], ws[i]);
      records := records + [WitnessRecord(spec, ws[i])];
    }
    assert ws[..|ws|] == ws;
    WitnessesIsolated();
    var lastTsNs := if records == [] then spec.baseNs else records[|records| - 1].tsNs;
    corpus := Corpus(spec.runId, records, spec.baseNs, lastTsNs);
  }

  /** The corpus window holds every record. */
  lemma WindowHoldsAll(spec: Spec, i: nat)
    requires spec.stepNs >= 0 && i < |Records(spec)|
    ensures var c := CorpusOf(spec); c.firstTsNs <= c.records[i].tsNs <= c.lastTsNs
  {
    hide RecordAt, AllWitnesses;
    WitnessesIsolated();
    if i < spec.count {
      assert Records(spec)[i] == RecordAt(spec.baseNs, spec.stepNs, i);
      TimeOf(spec, i);
      Between(spec.stepNs, i, spec.count + 28);
    } else {
      var w := AllWitnesses()[i - spec.count];
      assert Isolated(w) && Records(spec)[i] == WitnessRecord(spec, w);
      Between(spec.stepNs, spec.count + w.offset, spec.count + 28);
    }
  }

  /** Witness `p` comes `p` steps after the regular records, one less from the duplicate on. */
  lemma OffsetAt(p: nat)
    requires p < 30
    ensures |AllWitnesses()| == 30 && AllWitnesses()[p].offset == if p <= 15 then p else p - 1
  {
    var sorts := seq(11, k requires 0 <= k => SortWitness(k));
    var all := AllWitnesses();
    assert all == ERROR_WITNESSES + RATE_WITNESSES + sorts + [LAST_WITNESS];
    if p < 6 {
      assert all[p] == ERROR_WITNESSES[p];
    } else if p < 18 {
      assert all[p] == RATE_WITNESSES[p - 6];
    } else if p < 29 {
      assert all[p] == sorts[p - 18];
    }
  }

  /** The step a record's timestamp is at. */
  function StepOf(spec: Spec, i: nat): nat {
    if i <= spec.count + 15 then i else i - 1
  }

  lemma TimesByStep(spec: Spec, i: nat)
    requires i < |Records(spec)|
    ensures |Records(spec)| == spec.count + 30
    ensures Records(spec)[i].tsNs == spec.baseNs + spec.stepNs * StepOf(spec, i)
  {
    hide RecordAt, AllWitnesses;
    WitnessesIsolated();
    if i < spec.count {
      assert Records(spec)[i] == RecordAt(spec.baseNs, spec.stepNs, i);
      TimeOf(spec, i);
    } else {
      OffsetAt(i - spec.count);
      assert Records(spec)[i] == WitnessRecord(spec, AllWitnesses()[i - spec.count]);
    }
  }

  /** Timestamps ascend, and are distinct but for the one pair that shares a timestamp on purpose. */
  lemma TimesDistinctExactly(spec: Spec, i: nat, j: nat)
    requires spec.stepNs > 0 && i < j < |Records(spec)|
    ensures var r := Records(spec);
      r[i].tsNs <= r[j].tsNs && (r[i].tsNs == r[j].tsNs <==> i == spec.count + 15 && j == spec.count + 16)
  {
    hide Records;
    TimesByStep(spec, i);
    TimesByStep(spec, j);
    var (a, b) := (StepOf(spec, i), StepOf(spec, j));
    MulLe(a, b, spec.stepNs);
    if a < b { MulLe(a + 1, b, spec.stepNs); }
  }

  lemma TimeOf(spec: Spec, i: nat)
    ensures RecordAt(spec.baseNs, spec.stepNs, i).tsNs == spec.baseNs + spec.stepNs * i
  {
    hide RenderBody;
  }

  lemma Between(step: int, i: nat, n: nat)
    requires step >= 0 && i <= n
    ensures 0 <= step * i <= step * n
  {
    MulLe(0, i, step);
    MulLe(i, n, step);
  }

  /** `scope_witness_sm_labels`. */
  const SCOPE_LABELS: Labels := map["dup_key" := "v_us", "scope_name" := "coll-scope", "scope_version" := "1.0"]

  /** `base_labels`. */
  function BaseLabels(spec: Spec, r: Record): Labels {
    var labels := map["service_name" := r.service, RUN_ATTR := spec.runId];
    if r.service == SVC_SCOPE then labels + SCOPE_LABELS else labels
  }
}
