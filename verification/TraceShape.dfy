/** The generated traces themselves (`generate` of `e2e/src/traces_corpus.rs`):
    their span trees, their identifiers across the corpus, and their times. */
module TraceShape {
  import opened Common
  import opened TraceOracles
  import Arithmetic
  import TraceIds
  import Words

  const NO_PARENT: seq<nat> := [0, 0, 0, 0, 0, 0, 0, 0]

  /** A root and its children: the first span alone has no parent and is everyone else's,
      they follow it by a millisecond each and end before it does. */
  ghost predicate IsTree(spans: seq<Span>) {
    && spans != [] && spans[0].parentId == NO_PARENT
    && forall i :: 0 < i < |spans| ==>
         && spans[i].parentId == spans[0].spanId && spans[i].parentId != NO_PARENT
         && spans[i].startNs == spans[0].startNs + i * 1_000_000
         && EndNs(spans[i]) < EndNs(spans[0])
         && spans[i].resourceAttrs == spans[0].resourceAttrs
  }

  lemma ZeroBytes()
    ensures TraceIds.BeBytes(0, 8) == NO_PARENT
  {
    assert TraceIds.BeBytes(0, 2) == [0, 0];
    assert TraceIds.BeBytes(0, 4) == [0, 0, 0, 0];
    assert TraceIds.BeBytes(0, 6) == [0, 0, 0, 0, 0, 0];
  }

  lemma ChildInside(t: nat, child: nat)
    ensures child < 4 ==> (child + 1) * MS + ChildDurationMs(t, child) * MS < RootDurationMs(t) * MS
  {
  }

  /** Every trace of a corpus is a tree of three to five spans, its root `stepNs` after the one before. */
  lemma TracesAreTrees(corpus: Corpus, spec: Spec, idSeed: nat, t: nat)
    requires IsCorpusOf(corpus, spec, idSeed) && t < spec.traceCount
    ensures var spans := corpus.traces[t].spans;
      IsTree(spans) && |spans| == 3 + t % 3 && spans[0].startNs == spec.baseNs + t * spec.stepNs
  {
    hide TraceIds.SpanId, ResourceAttrs, ChildAttrs, RootName, RootService, Label, ChildDurationMs, RootDurationMs;
    var spans := corpus.traces[t].spans;
    assert IsTraceOf(corpus.traces[t], spec, idSeed, t);
    assert spans[0] == RootSpan(spec, idSeed, t);
    ZeroBytes();
    TraceIds.SpanIdNotZero(idSeed, t, 0);
    forall i | 0 < i < |spans|
      ensures spans[i] == ChildSpan(spec, idSeed, t, i - 1) && EndNs(spans[i]) < EndNs(spans[0])
    {
      ChildInside(t, i - 1);
    }
  }

  /** Position `i` of trace `t`. */
  ghost predicate IsSpan(corpus: Corpus, t: nat, i: nat) {
    t < |corpus.traces| && i < |corpus.traces[t].spans|
  }

  function IdAt(corpus: Corpus, t: nat, i: nat): seq<nat>
    requires t < |corpus.traces| && i < |corpus.traces[t].spans|
  {
    corpus.traces[t].spans[i].spanId
  }

  ghost predicate SpanIdsUnique(corpus: Corpus) {
    forall t: nat, i: nat, u: nat, j: nat ::
      IsSpan(corpus, t, i) && IsSpan(corpus, u, j) && IdAt(corpus, t, i) == IdAt(corpus, u, j) ==> t == u && i == j
  }

  ghost predicate TraceIdsUnique(corpus: Corpus) {
    forall t: nat, u: nat :: t < u < |corpus.traces| ==> corpus.traces[t].traceId != corpus.traces[u].traceId
  }

  /** The ids the traces and spans of a corpus carry are unique exactly as far as the generated ids are. */
  lemma CorpusIdsUniqueExactly(corpus: Corpus, spec: Spec, idSeed: nat)
    requires IsCorpusOf(corpus, spec, idSeed) && Words.IsWord(spec.traceCount)
    ensures SpanIdsUnique(corpus)
       <==> spec.traceCount <= Words.Pow2(33) && !TraceIds.RemapCollides(idSeed, spec.traceCount)
    ensures TraceIdsUnique(corpus) <==> spec.traceCount <= Words.Pow2(39)
  {
    hide TraceIds.SpanId, TraceIds.TraceId, TraceIds.RemapCollides, Words.Pow2, SpansOf, Label;
    var n := spec.traceCount;
    TraceIds.SpanIdsDistinctExactly(idSeed, n);
    TraceIds.TraceIdsDistinctExactly(idSeed, n);
    forall t: nat, i: nat
      ensures IsSpan(corpus, t, i) <==> TraceIds.Generated(n, t, i)
      ensures IsSpan(corpus, t, i) ==> IdAt(corpus, t, i) == TraceIds.SpanId(idSeed, t, i)
    {
      if t < n { IdsInPlace(corpus, spec, idSeed, t, i); }
    }
    forall t: nat | t < n ensures corpus.traces[t].traceId == TraceIds.TraceId(idSeed, t) {
      assert IsTraceOf(corpus.traces[t], spec, idSeed, t);
    }
    SameUniqueness(corpus, idSeed, n);
  }

  lemma IdsInPlace(corpus: Corpus, spec: Spec, idSeed: nat, t: nat, i: nat)
    requires IsCorpusOf(corpus, spec, idSeed) && t < spec.traceCount
    ensures |corpus.traces[t].spans| == TraceIds.SpanCount(t)
    ensures i < TraceIds.SpanCount(t) ==> corpus.traces[t].spans[i].spanId == TraceIds.SpanId(idSeed, t, i)
  {
    hide TraceIds.SpanId, ResourceAttrs, ChildAttrs, RootName, RootService, Label;
    assert IsTraceOf(corpus.traces[t], spec, idSeed, t);
  }

  lemma SameUniqueness(corpus: Corpus, idSeed: nat, n: nat)
    requires forall t: nat, i: nat :: IsSpan(corpus, t, i) <==> TraceIds.Generated(n, t, i)
    requires forall t: nat, i: nat ::
      IsSpan(corpus, t, i) ==> IdAt(corpus, t, i) == TraceIds.SpanId(idSeed, t, i)
    ensures SpanIdsUnique(corpus) <==> TraceIds.SpanIdsDistinct(idSeed, n)
  {
    hide TraceIds.SpanId, IsSpan, IdAt, TraceIds.Generated;
  }

  // ----- what the spans say -----

  /** The root is named after its service. */
  lemma RootNamesService(spec: Spec, idSeed: nat, t: nat)
    ensures var root := SpansOf(spec, idSeed, t)[0];
      |root.name| > 9 && root.name[..9] == "GET /api/" && root.service == "svc-" + root.name[9..]
  {
    hide ResourceAttrs, ChildAttrs, TraceIds.SpanId;
    var root := SpansOf(spec, idSeed, t)[0];
    assert root.name[..9] == "GET /api/" && root.name[9..] == RootService(t)[4..];
    assert RootService(t)[..4] == "svc-";
    assert RootService(t) == RootService(t)[..4] + RootService(t)[4..];
  }

  /** One trace in four fails, in turn with 500 and 503. */
  lemma FailuresAlternate(spec: Spec, idSeed: nat, t: nat)
    ensures |SpansOf(spec, idSeed, t)| > 1
    ensures Http(SpansOf(spec, idSeed, t)[1]) == Some(if t % 8 == 0 then 500 else if t % 8 == 4 then 503 else 200)
  {
    hide SpansOf;
    SpanFacts(spec, idSeed, t, 1);
    var (q, r) := (t / 8, t % 8);
    Arithmetic.DivUnique(t, 4, 2 * q + r / 4, r % 4);
    Arithmetic.DivUnique(t / 4, 2, q, r / 4);
  }

  // ----- durations -----

  lemma ChildrenBounds(t: nat)
    ensures 25 * MS <= ChildrenNs(t, 2) <= 35 * MS
    ensures 45 * MS <= ChildrenNs(t, 3) <= 57 * MS
    ensures 70 * MS <= ChildrenNs(t, 4) <= 83 * MS
  {
    assert ChildrenNs(t, 1) == ChildDurationMs(t, 0) * MS;
    assert ChildrenNs(t, 2) == ChildrenNs(t, 1) + ChildDurationMs(t, 1) * MS;
    assert ChildrenNs(t, 3) == ChildrenNs(t, 2) + ChildDurationMs(t, 2) * MS;
    assert ChildrenNs(t, 4) == ChildrenNs(t, 3) + ChildDurationMs(t, 3) * MS;
  }

  /** The mean span lasts more than a quarter of a second exactly at two of twelve indices,
      whatever the children's own periods. */
  lemma AverageExactly(t: nat)
    ensures Label(AvgDurationGt, t) <==> t % 12 == 9 || t % 12 == 10
  {
    hide ChildrenNs;
    var n := t % 12;
    Arithmetic.DivUnique(t, 3, 4 * (t / 12) + n / 3, n % 3);
    ChildrenBounds(t);
  }
}
