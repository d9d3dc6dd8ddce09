/** The traces corpus of `e2e/src/traces_corpus.rs`: its generator, the
    by-construction case labels, and the evaluator that re-derives every case
    from the generated spans alone. */
module TraceOracles {
  import opened Common
  import Arithmetic
  import TraceIds
  import Words

  datatype AnyVal = Str(s: string) | Int(i: int) | Double(d: real) | Bool(b: bool)

  type Attrs = seq<(string, AnyVal)>

  datatype Span = Span(
    spanId: seq<nat>, parentId: seq<nat>, name: string, kind: int, statusCode: int, service: string,
    startNs: int, durationNs: int, resourceAttrs: Attrs, attrs: Attrs)

  datatype Trace = Trace(traceId: seq<nat>, spans: seq<Span>, matches: set<Case>)

  datatype Spec = Spec(seed: nat, traceCount: nat, stepNs: int, baseNs: int, runId: string, runIdBytes: seq<nat>)

  datatype Corpus = Corpus(runId: string, traces: seq<Trace>, firstTsNs: int, lastTsNs: int)

  /** `CASE_IDS`, in fixture order. */
  datatype Case =
    | ServiceEq | ServiceEqChild | ServiceRegex | SpanAttrIntGte | SpanAttrIntEq | SpanAttrBool
    | SpanAttrFloatGt | ResourceAttrEq | UnscopedAttr | AttrRegex | NegAttrKeyOnAll | NegRegexKeyOnAll
    | NegAttrMissingKey | NameEq | StatusError | KindConsumer | DurationGt | ConjServiceError
    | OrSpansets | CrossSpansetAnd | CountGt | AvgDurationGt | SelectStatus | NestedBool
    | ByName | ByNameCoalesce

  const MS := 1_000_000

  // ----- per-trace features, as functions of the index -----

  const CHECKOUT := "svc-checkout"
  const PAYMENTS := "svc-payments"
  const INVENTORY := "svc-inventory"
  const NOTIFY := "svc-notify"

  function RootService(t: nat): string {
    if t % 3 == 0 then CHECKOUT else if t % 3 == 1 then PAYMENTS else INVENTORY
  }

  /** `format!("GET /api/{}", root_svc.trim_start_matches("svc-"))`. */
  function RootName(t: nat): string {
    "GET /api/" + RootService(t)[4..]
  }

  predicate IsError(t: nat) { t % 4 == 0 }

  function HttpStatus(t: nat): int {
    if IsError(t) then 500 + ((t / 4) % 2) * 3 else 200
  }

  function RootKind(t: nat): int { if t % 2 == 0 then 2 else 5 }

  function Child0Name(t: nat): string { if t % 4 == 1 then "charge-card" else "reserve-stock" }

  function EnvAttr(t: nat): Option<string> {
    if t % 5 <= 1 then Some("prod") else if t % 5 <= 3 then Some("staging") else None
  }

  function RegionAttr(t: nat): string { if t % 2 == 0 then "eu" else "us" }

  predicate CacheHit(t: nat) { t % 2 == 0 }

  function SampleRatio(t: nat): real { if (t / 2) % 2 == 1 then 0.75 else 0.25 }

  function Tier(t: nat): string { if t % 6 < 2 then "gold" else "standard" }

  predicate Child2IsNotify(t: nat) { t % 4 == 2 }

  function RootDurationMs(t: nat): int { 50 + 100 * (t % 12) }

  function ChildDurationMs(t: nat, child: nat): int {
    if child == 0 then 10 + t % 7
    else if child == 1 then 15 + t % 5
    else if child == 2 then 20 + t % 3
    else 25 + t % 2
  }

  const AVG_DURATION_LIT_NS := 250 * 1_000_000

  function ChildrenNs(t: nat, k: nat): int {
    if k == 0 then 0 else ChildrenNs(t, k - 1) + ChildDurationMs(t, k - 1) * MS
  }

  /** `total_duration_ns`. */
  method TotalDurationNs(t: nat) returns (sum: int)
    ensures sum == RootDurationMs(t) * MS + ChildrenNs(t, TraceIds.SpanCount(t) - 1)
  {
    sum := RootDurationMs(t) * MS;
    for child := 0 to TraceIds.SpanCount(t) - 1
      invariant sum == RootDurationMs(t) * MS + ChildrenNs(t, child)
    {
      sum := sum + ChildDurationMs(t, child) * MS;
    }
  }

  predicate AvgDurationExceeds(t: nat) {
    RootDurationMs(t) * MS + ChildrenNs(t, TraceIds.SpanCount(t) - 1) > AVG_DURATION_LIT_NS * TraceIds.SpanCount(t)
  }

  /** The label arithmetic of `construction_matches`, case by case. */
  predicate Label(c: Case, t: nat) {
    match c
    case ServiceEq => t % 3 == 0
    case ServiceEqChild => Child2IsNotify(t) && TraceIds.SpanCount(t) >= 4
    case ServiceRegex => t % 3 <= 1
    case SpanAttrIntGte => IsError(t)
    case SpanAttrIntEq => !IsError(t)
    case SpanAttrBool => CacheHit(t)
    case SpanAttrFloatGt => (t / 2) % 2 == 1
    case ResourceAttrEq => t % 5 < 2
    case UnscopedAttr => t % 6 < 2
    case AttrRegex => t % 5 != 4
    case NegAttrKeyOnAll => t % 2 == 1
    case NegRegexKeyOnAll => t % 2 == 0
    case NegAttrMissingKey => 2 <= t % 5 <= 3
    case NameEq => t % 4 == 1
    case StatusError => IsError(t)
    case KindConsumer => t % 2 == 1
    case DurationGt => t % 12 >= 8
    case ConjServiceError => t % 12 == 0
    case OrSpansets => IsError(t) || t % 2 == 1
    case CrossSpansetAnd => t % 6 == 1
    case CountGt => t % 3 == 2
    case AvgDurationGt => AvgDurationExceeds(t)
    case SelectStatus => IsError(t)
    case NestedBool => t % 5 < 2
    case ByName => t % 4 == 1
    case ByNameCoalesce => t % 4 == 1
  }

  // ----- generation -----

  function ResourceAttrs(runId: string, t: nat): Attrs {
    var env: Attrs := if EnvAttr(t).Some? then [("env", Str(EnvAttr(t).value))] else [];
    [("run_id", Str(runId))] + env + [("region", Str(RegionAttr(t)))]
  }

  function RootSpan(spec: Spec, idSeed: nat, t: nat): Span {
    Span(TraceIds.SpanId(idSeed, t, 0), TraceIds.BeBytes(0, 8), RootName(t), RootKind(t), 1, RootService(t),
         spec.baseNs + spec.stepNs * t, RootDurationMs(t) * MS, ResourceAttrs(spec.runId, t), [])
  }

  function ChildAttrs(t: nat, child: nat): Attrs {
    if child == 0 then [("http.status_code", Int(HttpStatus(t)))]
    else if child == 1 then
      [("cache_hit", Bool(CacheHit(t))), ("sample_ratio", Double(SampleRatio(t))), ("tier", Str(Tier(t)))]
    else []
  }

  function ChildSpan(spec: Spec, idSeed: nat, t: nat, child: nat): Span {
    Span(TraceIds.SpanId(idSeed, t, child + 1), TraceIds.SpanId(idSeed, t, 0),
         if child == 0 then Child0Name(t) else if child == 1 then "cache-lookup"
         else if child == 2 then "notify" else "audit-log",
         if child == 1 then 1 else 3,
         if child == 0 && IsError(t) then 2 else 0,
         if child == 2 && Child2IsNotify(t) then NOTIFY else RootService(t),
         spec.baseNs + spec.stepNs * t + (child + 1) * MS, ChildDurationMs(t, child) * MS,
         ResourceAttrs(spec.runId, t), ChildAttrs(t, child))
  }

  function SpansOf(spec: Spec, idSeed: nat, t: nat): seq<Span> {
    [RootSpan(spec, idSeed, t)]
    + seq(TraceIds.SpanCount(t) - 1, child requires child >= 0 => ChildSpan(spec, idSeed, t, child))
  }

  function Tag(m: set<Case>, c: Case, hit: bool): (r: set<Case>)
    ensures forall x :: x in r <==> x in m || (x == c && hit)
  {
    if hit then m + {c} else m
  }

  /** `construction_matches`: the labels tagged one after another. */
  method ConstructionMatches(t: nat) returns (m: set<Case>)
    ensures forall c: Case :: c in m <==> Label(c, t)
  {
    hide Label;
    m := {};
    m := TagServices(m, t);
    m := TagTypedAttrs(m, t);
    m := TagStringAttrs(m, t);
    m := TagNegations(m, t);
    m := TagSpanFields(m, t);
    m := TagSpansets(m, t);
    m := TagAggregates(m, t);
    m := TagGroupings(m, t);
  }

  function TagServices(before: set<Case>, t: nat): (m: set<Case>)
    ensures forall c: Case :: c in m <==> c in before || (c in {ServiceEq, ServiceEqChild, ServiceRegex} && Label(c, t))
  {
    var m := Tag(before, ServiceEq, t % 3 == 0);
    var m := Tag(m, ServiceEqChild, Child2IsNotify(t) && TraceIds.SpanCount(t) >= 4);
    var m := Tag(m, ServiceRegex, t % 3 <= 1);
    m
  }

  function TagTypedAttrs(before: set<Case>, t: nat): (m: set<Case>)
    ensures forall c: Case :: c in m <==>
      c in before || (c in {SpanAttrIntGte, SpanAttrIntEq, SpanAttrBool, SpanAttrFloatGt} && Label(c, t))
  {
    var m := Tag(before, SpanAttrIntGte, IsError(t));
    var m := Tag(m, SpanAttrIntEq, !IsError(t));
    var m := Tag(m, SpanAttrBool, CacheHit(t));
    var m := Tag(m, SpanAttrFloatGt, (t / 2) % 2 == 1);
    m
  }

  function TagStringAttrs(before: set<Case>, t: nat): (m: set<Case>)
    ensures forall c: Case :: c in m <==> c in before || (c in {ResourceAttrEq, UnscopedAttr, AttrRegex} && Label(c, t))
  {
    var m := Tag(before, ResourceAttrEq, t % 5 < 2);
    var m := Tag(m, UnscopedAttr, t % 6 < 2);
    var m := Tag(m, AttrRegex, t % 5 != 4);
    m
  }

  function TagNegations(before: set<Case>, t: nat): (m: set<Case>)
    ensures forall c: Case :: c in m <==>
      c in before || (c in {NegAttrKeyOnAll, NegRegexKeyOnAll, NegAttrMissingKey} && Label(c, t))
  {
    var m := Tag(before, NegAttrKeyOnAll, t % 2 == 1);
    var m := Tag(m, NegRegexKeyOnAll, t % 2 == 0);
    var m := Tag(m, NegAttrMissingKey, 2 <= t % 5 <= 3);
    m
  }

  function TagSpanFields(before: set<Case>, t: nat): (m: set<Case>)
    ensures forall c: Case :: c in m <==>
      c in before || (c in {NameEq, StatusError, KindConsumer, DurationGt} && Label(c, t))
  {
    var m := Tag(before, NameEq, t % 4 == 1);
    var m := Tag(m, StatusError, IsError(t));
    var m := Tag(m, KindConsumer, t % 2 == 1);
    var m := Tag(m, DurationGt, t % 12 >= 8);
    m
  }

  function TagSpansets(before: set<Case>, t: nat): (m: set<Case>)
    ensures forall c: Case :: c in m <==>
      c in before || (c in {ConjServiceError, OrSpansets, CrossSpansetAnd} && Label(c, t))
  {
    var m := Tag(before, ConjServiceError, t % 12 == 0);
    var m := Tag(m, OrSpansets, IsError(t) || t % 2 == 1);
    var m := Tag(m, CrossSpansetAnd, t % 6 == 1);
    m
  }

  function TagAggregates(before: set<Case>, t: nat): (m: set<Case>)
    ensures forall c: Case :: c in m <==> c in before || (c in {CountGt, AvgDurationGt, SelectStatus} && Label(c, t))
  {
    var m := Tag(before, CountGt, t % 3 == 2);
    var m := Tag(m, AvgDurationGt, AvgDurationExceeds(t));
    var m := Tag(m, SelectStatus, IsError(t));
    m
  }

  function TagGroupings(before: set<Case>, t: nat): (m: set<Case>)
    ensures forall c: Case :: c in m <==> c in before || (c in {NestedBool, ByName, ByNameCoalesce} && Label(c, t))
  {
    var m := Tag(before, NestedBool, t % 5 < 2);
    var m := Tag(m, ByName, t % 4 == 1);
    var m := Tag(m, ByNameCoalesce, t % 4 == 1);
    m
  }

  /** The span loop of `generate`: the root, then the children. */
  method BuildSpans(spec: Spec, ids: nat, t: nat) returns (spans: seq<Span>)
    ensures spans == SpansOf(spec, ids, t)
  {
    hide RootSpan, ChildSpan;
    spans := [RootSpan(spec, ids, t)];
    for child := 0 to TraceIds.SpanCount(t) - 1
      invariant spans == SpansOf(spec, ids, t)[..child + 1]
    {
      spans := spans + [ChildSpan(spec, ids, t, child)];
    }
  }

  /** `generate`. */
  method Generate(spec: Spec) returns (corpus: Corpus, ghost idSeed: nat)
    requires Words.IsWord(spec.seed) && Words.IsWord(spec.traceCount)
    requires forall i :: 0 <= i < |spec.runIdBytes| ==> spec.runIdBytes[i] < 256
    ensures corpus.runId == spec.runId && IsCorpusOf(corpus, spec, idSeed)
    ensures TraceIds.Unfold(idSeed, spec.runIdBytes) == spec.seed
    ensures corpus.firstTsNs == spec.baseNs && IsLastEnd(corpus.lastTsNs, corpus.traces, spec.baseNs)
  {
    hide TraceIds.TraceId, TraceIds.Unfold, SpansOf, Label;
    var ids := TraceIds.IdSeed(spec.seed, spec.runIdBytes);
    idSeed := ids;
    var traces: seq<Trace> := [];
    for t := 0 to spec.traceCount
      invariant |traces| == t
      invariant forall u: nat :: u < t ==> IsTraceOf(traces[u], spec, ids, u)
    {
      var spans := BuildSpans(spec, ids, t);
      var matches := ConstructionMatches(t);
      traces := traces + [Trace(TraceIds.TraceId(ids, t), spans, matches)];
    }
    var last := LastEnd(traces, spec.baseNs);
    corpus := Corpus(spec.runId, traces, spec.baseNs, last);
  }

  ghost predicate IsTraceOf(trace: Trace, spec: Spec, idSeed: nat, t: nat) {
    && trace.traceId == TraceIds.TraceId(idSeed, t)
    && trace.spans == SpansOf(spec, idSeed, t)
    && forall c: Case :: c in trace.matches <==> Label(c, t)
  }

  /** Trace `t` of the corpus is the one of index `t`, under one id seed. */
  ghost predicate IsCorpusOf(corpus: Corpus, spec: Spec, idSeed: nat) {
    && Words.IsWord(idSeed) && |corpus.traces| == spec.traceCount
    && forall t: nat :: t < spec.traceCount ==> IsTraceOf(corpus.traces[t], spec, idSeed, t)
  }

  function EndNs(s: Span): int { s.startNs + s.durationNs }

  /** The latest span end, or the base when there is no span. */
  ghost predicate IsLastEnd(last: int, traces: seq<Trace>, base: int) {
    && (forall t, i :: 0 <= t < |traces| && 0 <= i < |traces[t].spans| ==> EndNs(traces[t].spans[i]) <= last)
    && ((exists t, i :: 0 <= t < |traces| && 0 <= i < |traces[t].spans| && EndNs(traces[t].spans[i]) == last)
        || (last == base && forall t :: 0 <= t < |traces| ==> traces[t].spans == []))
  }

  method LastEnd(traces: seq<Trace>, base: int) returns (last: int)
    ensures IsLastEnd(last, traces, base)
  {
    last := base;
    var any := false;
    for t := 0 to |traces|
      invariant IsLastEnd(last, traces[..t], base)
      invariant !any ==> last == base && forall u :: 0 <= u < t ==> traces[u].spans == []
      invariant any ==> exists u, i :: 0 <= u < t && 0 <= i < |traces[u].spans| && EndNs(traces[u].spans[i]) == last
    {
      var spans := traces[t].spans;
      for i := 0 to |spans|
        invariant forall u, j :: 0 <= u < t && 0 <= j < |traces[u].spans| ==> EndNs(traces[u].spans[j]) <= last
        invariant forall j :: 0 <= j < i ==> EndNs(spans[j]) <= last
        invariant !any ==> i == 0 && last == base && forall u :: 0 <= u < t ==> traces[u].spans == []
        invariant any ==> exists u, j :: 0 <= u <= t && 0 <= j < |traces[u].spans| && EndNs(traces[u].spans[j]) == last
      {
        if !any || EndNs(spans[i]) > last {
          last := EndNs(spans[i]);
          any := true;
          assert EndNs(traces[t].spans[i]) == last;
        }
      }
    }
    assert traces[..|traces|] == traces;
  }

  // ----- the independent evaluator: reads spans only -----

  /** `res_str`: the first string value under `key` among the resource attributes. */
  function ResStr(attrs: Attrs, key: string): Option<string> {
    if attrs == [] then None
    else if attrs[0].0 == key && attrs[0].1.Str? then Some(attrs[0].1.s)
    else ResStr(attrs[1..], key)
  }

  /** `attr_val`: the first value under `key` among the span attributes. */
  function AttrVal(attrs: Attrs, key: string): Option<AnyVal> {
    if attrs == [] then None
    else if attrs[0].0 == key then Some(attrs[0].1)
    else AttrVal(attrs[1..], key)
  }

  function Res(s: Span, key: string): Option<string> { ResStr(s.resourceAttrs, key) }

  function Http(s: Span): Option<int> {
    var v := AttrVal(s.attrs, "http.status_code");
    if v.Some? && v.value.Int? then Some(v.value.i) else None
  }

  function Hit(s: Span): Option<bool> {
    var v := AttrVal(s.attrs, "cache_hit");
    if v.Some? && v.value.Bool? then Some(v.value.b) else None
  }

  function Ratio(s: Span): Option<real> {
    var v := AttrVal(s.attrs, "sample_ratio");
    if v.Some? && v.value.Double? then Some(v.value.d) else None
  }

  /** `unscoped_str`: span scope first, then resource scope. */
  function Unscoped(s: Span, key: string): Option<string> {
    var v := AttrVal(s.attrs, key);
    if v.Some? && v.value.Str? then Some(v.value.s) else Res(s, key)
  }

  predicate RunScoped(s: Span, runId: string) {
    Res(s, "run_id") == Some(runId)
  }

  /** The `{…}` filter of a case on one span, for the cases that are one spanset. */
  predicate SpanHits(c: Case, s: Span) {
    match c
    case ServiceEq => s.service == CHECKOUT
    case ServiceEqChild => s.service == NOTIFY
    case ServiceRegex => s.service == CHECKOUT || s.service == PAYMENTS
    case SpanAttrIntGte => Http(s).Some? && Http(s).value >= 500
    case SpanAttrIntEq => Http(s) == Some(200)
    case SpanAttrBool => Hit(s) == Some(true)
    case SpanAttrFloatGt => Ratio(s).Some? && Ratio(s).value > 0.5
    case ResourceAttrEq => Res(s, "env") == Some("prod")
    case UnscopedAttr => Unscoped(s, "tier") == Some("gold")
    case AttrRegex => Res(s, "env") == Some("prod") || Res(s, "env") == Some("staging")
    case NegAttrKeyOnAll => Res(s, "region") != Some("eu")
    case NegRegexKeyOnAll => !(Res(s, "region").Some? && "u" <= Res(s, "region").value)
    case NegAttrMissingKey => Res(s, "env").Some? && Res(s, "env").value != "prod"
    case NameEq => s.name == "charge-card"
    case StatusError => s.statusCode == 2
    case KindConsumer => s.kind == 5
    case DurationGt => s.durationNs > 800 * MS
    case ConjServiceError => s.service == CHECKOUT && Http(s).Some? && Http(s).value >= 500 && s.statusCode == 2
    case SelectStatus => Http(s).Some? && Http(s).value >= 500
    case NestedBool =>
      (Res(s, "env") == Some("prod") || Http(s) == Some(200)) && (s.kind == 5 || Hit(s) == Some(true))
    case ByName => s.name == "charge-card"
    case ByNameCoalesce => s.name == "charge-card"
    case _ => false
  }

  predicate Any(c: Case, spans: seq<Span>, runId: string) {
    exists i :: 0 <= i < |spans| && RunScoped(spans[i], runId) && SpanHits(c, spans[i])
  }

  function Scoped(spans: seq<Span>, runId: string): seq<Span> {
    if spans == [] then []
    else (if RunScoped(spans[0], runId) then [spans[0]] else []) + Scoped(spans[1..], runId)
  }

  function SumNs(spans: seq<Span>): int {
    if spans == [] then 0 else SumNs(spans[..|spans| - 1]) + spans[|spans| - 1].durationNs
  }

  /** `naive_matches`. */
  predicate NaiveMatches(c: Case, spans: seq<Span>, runId: string) {
    match c
    case OrSpansets => Any(StatusError, spans, runId) || Any(KindConsumer, spans, runId)
    case CrossSpansetAnd => Any(UnscopedAttr, spans, runId) && Any(KindConsumer, spans, runId)
    case CountGt => |Scoped(spans, runId)| > 4
    case AvgDurationGt =>
      var hits := Scoped(spans, runId);
      |hits| > 0 && SumNs(hits) > AVG_DURATION_LIT_NS * |hits|
    case _ => Any(c, spans, runId)
  }

  // ----- what the lookups find on generated spans -----

  lemma ResourceFacts(runId: string, t: nat)
    ensures var a := ResourceAttrs(runId, t);
            ResStr(a, "run_id") == Some(runId) && ResStr(a, "env") == EnvAttr(t)
            && ResStr(a, "region") == Some(RegionAttr(t)) && ResStr(a, "tier") == None
  {
    var a := ResourceAttrs(runId, t);
    assert "run_id"[1] != "region"[1];
    assert a[1..][0] == a[1];
    assert EnvAttr(t).Some? ==> a[1..][1..] == [a[2]];
    assert EnvAttr(t).None? ==> a[1..] == [a[1]];
    assert ResStr([a[|a| - 1]], "region") == Some(RegionAttr(t));
    assert ResStr([a[|a| - 1]], "env") == None && ResStr([a[|a| - 1]], "tier") == None;
  }

  lemma AttrFacts(t: nat, child: nat)
    ensures AttrVal([], "tier") == None
    ensures var a := ChildAttrs(t, child);
      && AttrVal(a, "http.status_code") == (if child == 0 then Some(Int(HttpStatus(t))) else None)
      && AttrVal(a, "cache_hit") == (if child == 1 then Some(Bool(CacheHit(t))) else None)
      && AttrVal(a, "sample_ratio") == (if child == 1 then Some(Double(SampleRatio(t))) else None)
      && AttrVal(a, "tier") == (if child == 1 then Some(Str(Tier(t))) else None)
  {
    var a := ChildAttrs(t, child);
    if child == 1 {
      assert a[1..] == [a[1], a[2]] && a[1..][1..] == [a[2]];
      assert AttrVal([a[2]], "tier") == Some(Str(Tier(t)));
      assert AttrVal([a[2]], "http.status_code") == None;
    }
  }

  lemma NamesDiffer()
    ensures CHECKOUT != PAYMENTS && CHECKOUT != INVENTORY && CHECKOUT != NOTIFY
    ensures PAYMENTS != INVENTORY && PAYMENTS != NOTIFY && INVENTORY != NOTIFY
    ensures "gold" != "standard" && "prod" != "staging" && "eu" != "us"
    ensures !("u" <= "eu") && "u" <= "us"
  {
    assert CHECKOUT[4] != PAYMENTS[4];
    assert "eu"[0] != "us"[0];
  }

  lemma RootNameNotCard(t: nat)
    ensures RootName(t) != "charge-card"
  {
    assert RootName(t)[0] == 'G';
  }

  // ----- agreement -----

  /** Everything a case can observe about span `i` of trace `t`. */
  lemma SpanFacts(spec: Spec, idSeed: nat, t: nat, i: nat)
    requires i < TraceIds.SpanCount(t)
    ensures |SpansOf(spec, idSeed, t)| == TraceIds.SpanCount(t)
    ensures var s := SpansOf(spec, idSeed, t)[i];
      && s.kind == (if i == 0 then RootKind(t) else if i == 2 then 1 else 3)
      && s.statusCode == (if i == 0 then 1 else if i == 1 && IsError(t) then 2 else 0)
      && s.service == (if i == 3 && Child2IsNotify(t) then NOTIFY else RootService(t))
      && s.durationNs == (if i == 0 then RootDurationMs(t) else ChildDurationMs(t, i - 1)) * MS
      && (s.name == "charge-card" <==> i == 1 && t % 4 == 1)
      && Res(s, "run_id") == Some(spec.runId) && Res(s, "env") == EnvAttr(t) && Res(s, "region") == Some(RegionAttr(t))
      && Http(s) == (if i == 1 then Some(HttpStatus(t)) else None)
      && Hit(s) == (if i == 2 then Some(CacheHit(t)) else None)
      && Ratio(s) == (if i == 2 then Some(SampleRatio(t)) else None)
      && Unscoped(s, "tier") == (if i == 2 then Some(Tier(t)) else None)
  {
    hide ResourceAttrs, ChildAttrs, RootName, TraceIds.SpanId;
    var s := SpansOf(spec, idSeed, t)[i];
    assert s == if i == 0 then RootSpan(spec, idSeed, t) else ChildSpan(spec, idSeed, t, i - 1);
    ResourceFacts(spec.runId, t);
    RootNameNotCard(t);
    if i > 0 { AttrFacts(t, i - 1); }
  }

  /** The same, as the yes/no answers the string comparisons give. */
  lemma SpanAnswers(spec: Spec, idSeed: nat, t: nat, i: nat)
    requires i < TraceIds.SpanCount(t)
    ensures |SpansOf(spec, idSeed, t)| == TraceIds.SpanCount(t)
    ensures var s := SpansOf(spec, idSeed, t)[i];
      var notify := i == 3 && t % 4 == 2;
      && (s.kind == 5 <==> i == 0 && t % 2 == 1)
      && (s.statusCode == 2 <==> i == 1 && t % 4 == 0)
      && (s.service == CHECKOUT <==> t % 3 == 0 && !notify)
      && (s.service == PAYMENTS <==> t % 3 == 1 && !notify)
      && (s.service == NOTIFY <==> notify)
      && (s.durationNs > 800 * MS <==> i == 0 && t % 12 >= 8)
      && (s.name == "charge-card" <==> i == 1 && t % 4 == 1)
      && (Res(s, "env") == Some("prod") <==> t % 5 <= 1)
      && (Res(s, "env") == Some("staging") <==> 2 <= t % 5 <= 3)
      && (Res(s, "env").Some? <==> t % 5 != 4)
      && (Res(s, "region") == Some("eu") <==> t % 2 == 0)
      && (Res(s, "region").Some? && "u" <= Res(s, "region").value <==> t % 2 == 1)
      && (Http(s).Some? && Http(s).value >= 500 <==> i == 1 && t % 4 == 0)
      && (Http(s) == Some(200) <==> i == 1 && t % 4 != 0)
      && (Hit(s) == Some(true) <==> i == 2 && t % 2 == 0)
      && (Ratio(s).Some? && Ratio(s).value > 0.5 <==> i == 2 && (t / 2) % 2 == 1)
      && (Unscoped(s, "tier") == Some("gold") <==> i == 2 && t % 6 < 2)
  {
    hide Res, Http, Hit, Ratio, Unscoped, SpansOf;
    SpanFacts(spec, idSeed, t, i);
    NamesDiffer();
  }

  predicate OneSpanset(c: Case) {
    !c.OrSpansets? && !c.CrossSpansetAnd? && !c.CountGt? && !c.AvgDurationGt?
  }

  /** Soundness: a span that hits is only generated when the label says so. */
  lemma HitHasLabel(c: Case, spec: Spec, idSeed: nat, t: nat, i: nat)
    requires OneSpanset(c) && i < TraceIds.SpanCount(t)
    requires i < |SpansOf(spec, idSeed, t)| && SpanHits(c, SpansOf(spec, idSeed, t)[i])
    ensures Label(c, t)
  {
    hide Res, Http, Hit, Ratio, Unscoped, SpansOf;
    SpanAnswers(spec, idSeed, t, i);
    TwelveAndSix(t);
  }

  /** The span that witnesses a label. */
  function Witness(c: Case, t: nat): nat {
    match c
    case ServiceEqChild => 3
    case SpanAttrIntGte => 1
    case SpanAttrIntEq => 1
    case SpanAttrBool => 2
    case SpanAttrFloatGt => 2
    case UnscopedAttr => 2
    case NameEq => 1
    case StatusError => 1
    case ConjServiceError => 1
    case SelectStatus => 1
    case NestedBool => if t % 2 == 1 then 0 else 2
    case ByName => 1
    case ByNameCoalesce => 1
    case _ => 0
  }

  /** Completeness: a labelled trace holds a span that hits. */
  lemma LabelHasHit(c: Case, spec: Spec, idSeed: nat, t: nat)
    requires OneSpanset(c) && Label(c, t)
    ensures var i := Witness(c, t);
            i < |SpansOf(spec, idSeed, t)| && SpanHits(c, SpansOf(spec, idSeed, t)[i])
  {
    hide Res, Http, Hit, Ratio, Unscoped, SpansOf;
    SpanAnswers(spec, idSeed, t, Witness(c, t));
    TwelveAndSix(t);
  }

  lemma TwelveAndSix(t: nat)
    ensures t % 12 == 0 <==> t % 3 == 0 && t % 4 == 0
    ensures t % 6 == 1 <==> t % 6 < 2 && t % 2 == 1
  {
    var (q, r, h) := (t / 12, t % 12, t % 6);
    Arithmetic.DivUnique(t, 3, 4 * q + r / 3, r % 3);
    Arithmetic.DivUnique(t, 4, 3 * q + r / 4, r % 4);
    Arithmetic.DivUnique(t, 2, 3 * (t / 6) + h / 2, h % 2);
  }

  lemma AnyIsLabel(c: Case, spec: Spec, idSeed: nat, t: nat)
    requires OneSpanset(c)
    ensures Any(c, SpansOf(spec, idSeed, t), spec.runId) <==> Label(c, t)
  {
    hide SpanHits, Label, SpansOf, Res;
    var spans := SpansOf(spec, idSeed, t);
    forall i: nat | i < TraceIds.SpanCount(t)
      ensures |spans| == TraceIds.SpanCount(t) && RunScoped(spans[i], spec.runId)
    {
      SpanFacts(spec, idSeed, t, i);
    }
    SpanFacts(spec, idSeed, t, 0);
    if Label(c, t) {
      LabelHasHit(c, spec, idSeed, t);
    }
    if i: nat :| i < |spans| && SpanHits(c, spans[i]) {
      HitHasLabel(c, spec, idSeed, t, i);
    }
  }

  lemma {:induction false} ScopedAll(spans: seq<Span>, runId: string)
    requires forall i :: 0 <= i < |spans| ==> RunScoped(spans[i], runId)
    ensures Scoped(spans, runId) == spans
  {
    if spans != [] { ScopedAll(spans[1..], runId); }
  }

  lemma {:induction false} ScopedNone(spans: seq<Span>, runId: string)
    requires forall i :: 0 <= i < |spans| ==> !RunScoped(spans[i], runId)
    ensures Scoped(spans, runId) == []
  {
    if spans != [] { ScopedNone(spans[1..], runId); }
  }

  lemma {:induction false} SumOfPrefix(spec: Spec, idSeed: nat, t: nat, k: nat)
    requires k < TraceIds.SpanCount(t)
    ensures SumNs(SpansOf(spec, idSeed, t)[..k + 1]) == RootDurationMs(t) * MS + ChildrenNs(t, k)
  {
    hide SpansOf, RootDurationMs, ChildDurationMs;
    DurationAt(spec, idSeed, t, k);
    SumSnoc(SpansOf(spec, idSeed, t), k);
    if k > 0 { SumOfPrefix(spec, idSeed, t, k - 1); }
  }

  lemma DurationAt(spec: Spec, idSeed: nat, t: nat, i: nat)
    requires i < TraceIds.SpanCount(t)
    ensures |SpansOf(spec, idSeed, t)| == TraceIds.SpanCount(t)
    ensures SpansOf(spec, idSeed, t)[i].durationNs
         == (if i == 0 then RootDurationMs(t) else ChildDurationMs(t, i - 1)) * MS
  {
  }

  lemma SumSnoc(spans: seq<Span>, k: nat)
    requires k < |spans|
    ensures SumNs(spans[..k + 1]) == SumNs(spans[..k]) + spans[k].durationNs
  {
    assert spans[..k + 1][..k] == spans[..k];
  }

  /** The two oracles agree: for every index, every run id and every case, the
      label arithmetic equals what evaluation over the generated spans finds. */
  lemma OraclesAgree(c: Case, spec: Spec, idSeed: nat, t: nat)
    ensures NaiveMatches(c, SpansOf(spec, idSeed, t), spec.runId) <==> Label(c, t)
  {
    hide SpansOf, Any, AvgDurationExceeds;
    if OneSpanset(c) {
      AnyIsLabel(c, spec, idSeed, t);
    } else if c.OrSpansets? || c.CrossSpansetAnd? {
      AnyIsLabel(StatusError, spec, idSeed, t);
      AnyIsLabel(KindConsumer, spec, idSeed, t);
      AnyIsLabel(UnscopedAttr, spec, idSeed, t);
      TwelveAndSix(t);
    } else {
      AggregatesAgree(spec, idSeed, t);
    }
  }

  lemma AggregatesAgree(spec: Spec, idSeed: nat, t: nat)
    ensures var hits := Scoped(SpansOf(spec, idSeed, t), spec.runId);
      && |hits| == TraceIds.SpanCount(t)
      && (AvgDurationExceeds(t) <==> SumNs(hits) > AVG_DURATION_LIT_NS * |hits|)
  {
    hide SpansOf, Res, SumNs;
    var spans := SpansOf(spec, idSeed, t);
    SpanFacts(spec, idSeed, t, 0);
    forall i: nat | i < |spans| ensures RunScoped(spans[i], spec.runId) { SpanFacts(spec, idSeed, t, i); }
    ScopedAll(spans, spec.runId);
    SumOfPrefix(spec, idSeed, t, |spans| - 1);
    assert spans[..|spans|] == spans;
  }

  /** Run isolation: queries scoped to another run match nothing. */
  lemma OtherRunsMatchNothing(c: Case, spec: Spec, idSeed: nat, t: nat, other: string)
    requires other != spec.runId
    ensures !NaiveMatches(c, SpansOf(spec, idSeed, t), other)
  {
    hide SpansOf, Res, SpanHits;
    var spans := SpansOf(spec, idSeed, t);
    SpanFacts(spec, idSeed, t, 0);
    forall i: nat | i < |spans| ensures !RunScoped(spans[i], other) { SpanFacts(spec, idSeed, t, i); }
    ScopedNone(spans, other);
  }

  /** Both oracles on a generated corpus: a trace carries a case's tag exactly
      when evaluation over its spans, scoped to the corpus's run, matches it. */
  method CheckCorpus(spec: Spec) returns (corpus: Corpus)
    requires Words.IsWord(spec.seed) && Words.IsWord(spec.traceCount)
    requires forall i :: 0 <= i < |spec.runIdBytes| ==> spec.runIdBytes[i] < 256
    ensures forall t: nat, c: Case :: t < |corpus.traces| ==>
      (c in corpus.traces[t].matches <==> NaiveMatches(c, corpus.traces[t].spans, corpus.runId))
  {
    hide NaiveMatches, SpansOf, Label;
    ghost var ids;
    corpus, ids := Generate(spec);
    forall t: nat, c: Case | t < |corpus.traces|
      ensures c in corpus.traces[t].matches <==> NaiveMatches(c, corpus.traces[t].spans, corpus.runId)
    {
      assert IsTraceOf(corpus.traces[t], spec, ids, t);
      OraclesAgree(c, spec, ids, t);
    }
  }
}
