/** The comparison-validity gates of `e2e/src/logs.rs`: the set-collapsed
    result, the raw counts, and why passing them pins the response itself; and
    the completeness diff. */
module Gates {
  import opened Common
  import opened StreamMerge

  type Line = (int, string)

  /** `ExpectedResult`: label set to entry set. */
  type ResultSet = map<Labels, set<Line>>

  function EntriesIn(m: ResultSet): set<Entry> {
    set l, e | l in m && e in m[l] :: Entry(l, e.0, e.1)
  }

  // ----- counting a result set -----

  function Tagged(l: Labels, es: set<Line>): set<Entry> {
    set e | e in es :: Entry(l, e.0, e.1)
  }

  lemma {:induction false} TaggedSize(l: Labels, es: set<Line>)
    ensures |Tagged(l, es)| == |es|
  {
    if es != {} {
      var e :| e in es;
      TaggedSize(l, es - {e});
      TaggedLess(l, es, e);
    }
  }

  /** `set_entry_count`: the number of distinct labelled entries. */
  method SetEntryCount(m: ResultSet) returns (n: nat)
    ensures n == |EntriesIn(m)|
  {
    hide EntriesIn, Tagged;
    n := 0;
    var rest := m;
    while rest != map[]
      invariant n + |EntriesIn(rest)| == |EntriesIn(m)|
      decreases |rest|
    {
      var l :| l in rest;
      SplitOff(rest, l);
      TaggedSize(l, rest[l]);
      n := n + |rest[l]|;
      assert rest.Keys - {l} == (rest - {l}).Keys;
      rest := rest - {l};
    }
    EmptyHasNone();
  }

  lemma SplitOff(m: ResultSet, l: Labels)
    requires l in m
    ensures EntriesIn(m) == EntriesIn(m - {l}) + Tagged(l, m[l]) && EntriesIn(m - {l}) !! Tagged(l, m[l])
    ensures |EntriesIn(m)| == |EntriesIn(m - {l})| + |Tagged(l, m[l])|
  {
    assert EntriesIn(m - {l}) !! Tagged(l, m[l]);
    forall x ensures x in EntriesIn(m) <==> x in EntriesIn(m - {l}) + Tagged(l, m[l]) {
      InEntries(m, x);
      InEntries(m - {l}, x);
      if x.labels == l && l in m && (x.ts, x.line) in m[l] { assert x in Tagged(l, m[l]); }
    }
  }

  lemma InEntries(m: ResultSet, x: Entry)
    ensures x in EntriesIn(m) <==> x.labels in m && (x.ts, x.line) in m[x.labels]
  {
    if x.labels in m && (x.ts, x.line) in m[x.labels] {
      var e := (x.ts, x.line);
      assert x == Entry(x.labels, e.0, e.1);
    }
  }

  // ----- normalizing a response -----

  predicate Readable(body: Body) {
    body.resultType == "streams" && forall i :: 0 <= i < |body.result| ==> WellShaped(body.result[i])
  }

  /** Every entry of the response, duplicates included, in document order. */
  function RawEntries(body: Body): seq<Entry>
    requires Readable(body)
  {
    RawFrom(body.result)
  }

  function RawFrom(streams: seq<Stream>): seq<Entry>
    requires forall i :: 0 <= i < |streams| ==> WellShaped(streams[i])
  {
    if streams == [] then [] else RawFrom(streams[..|streams| - 1]) + EntriesOf(streams[|streams| - 1])
  }

  /** `raw_entry_count`, before any collapse. */
  function RawCount(streams: seq<Stream>): nat {
    if streams == [] then 0 else RawCount(streams[..|streams| - 1]) + |streams[|streams| - 1].values|
  }

  lemma {:induction false} RawCountIsLength(streams: seq<Stream>)
    requires forall i :: 0 <= i < |streams| ==> WellShaped(streams[i])
    ensures RawCount(streams) == |RawFrom(streams)|
  {
    if streams != [] { RawCountIsLength(streams[..|streams| - 1]); }
  }

  function Add(m: ResultSet, x: Entry): ResultSet {
    m[x.labels := (if x.labels in m then m[x.labels] else {}) + {(x.ts, x.line)}]
  }

  lemma AddAdds(m: ResultSet, x: Entry)
    ensures EntriesIn(Add(m, x)) == EntriesIn(m) + {x}
  {
    forall y ensures y in EntriesIn(Add(m, x)) <==> y in EntriesIn(m) + {x} {
      InEntries(m, y);
      InEntries(Add(m, x), y);
    }
  }

  lemma TouchKeeps(m: ResultSet, l: Labels)
    ensures EntriesIn(m[l := if l in m then m[l] else {}]) == EntriesIn(m)
  {
    var m' := m[l := if l in m then m[l] else {}];
    forall y ensures y in EntriesIn(m') <==> y in EntriesIn(m) {
      InEntries(m, y);
      InEntries(m', y);
    }
  }

  function SetOf(es: seq<Entry>): set<Entry> {
    set x | x in es
  }

  predicate IsValue(x: Entry, l: Labels, v: Value) {
    v.ts.Some? && v.line.Some? && x == Entry(l, v.ts.value, v.line.value)
  }

  /** One stream's values folded into the result set. */
  method AddStream(m: ResultSet, s: Stream) returns (r: Result<ResultSet, Violation>)
    ensures r.Ok? <==> WellShaped(s)
    ensures r.Ok? ==> EntriesIn(r.value) == EntriesIn(m) + SetOf(EntriesOf(s))
    ensures r.Ok? ==> r.value.Keys == m.Keys + {s.labels.value}
  {
    hide EntriesIn;
    if s.labels.None? { return Err(NoLabels); }
    var l := s.labels.value;
    var out := m[l := if l in m then m[l] else {}];
    TouchKeeps(m, l);
    ghost var seen: set<Entry> := {};
    for i := 0 to |s.values|
      invariant out.Keys == m.Keys + {l}
      invariant forall j :: 0 <= j < i ==> s.values[j].ts.Some? && s.values[j].line.Some?
      invariant forall x :: x in seen <==> exists j :: 0 <= j < i && IsValue(x, l, s.values[j])
      invariant EntriesIn(out) == EntriesIn(m) + seen
    {
      var v := s.values[i];
      if v.ts.None? { return Err(BadTimestamp); }
      if v.line.None? { return Err(BadLine); }
      var x := Entry(l, v.ts.value, v.line.value);
      AddAdds(out, x);
      out := Add(out, x);
      seen := seen + {x};
    }
    assert seen == SetOf(EntriesOf(s)) by {
      forall x ensures x in seen <==> x in EntriesOf(s) {
        if x in seen {
          var j :| 0 <= j < |s.values| && IsValue(x, l, s.values[j]);
          assert EntriesOf(s)[j] == x;
        }
      }
    }
    r := Ok(out);
  }

  function LabelSets(streams: seq<Stream>): set<Labels> {
    set i | 0 <= i < |streams| && streams[i].labels.Some? :: streams[i].labels.value
  }

  /** `m` holds the response's label sets, each with its distinct entries. */
  ghost predicate IsCollapse(body: Body, m: ResultSet)
    requires Readable(body)
  {
    m.Keys == LabelSets(body.result) && EntriesIn(m) == SetOf(RawEntries(body))
  }

  lemma CollapseUnique(body: Body, m: ResultSet, n: ResultSet)
    requires Readable(body) && IsCollapse(body, m) && IsCollapse(body, n)
    ensures m == n
  {
    hide EntriesIn, RawFrom;
    forall l | l in m ensures m[l] == n[l] {
      forall e ensures e in m[l] <==> e in n[l] {
        InEntries(m, Entry(l, e.0, e.1));
        InEntries(n, Entry(l, e.0, e.1));
        assert e == (e.0, e.1);
      }
    }
  }

  /** `result_set`. */
  method CollapseToSet(body: Body) returns (r: Result<ResultSet, Violation>)
    ensures r.Ok? <==> Readable(body)
    ensures r.Ok? ==> IsCollapse(body, r.value)
  {
    hide EntriesIn, WellShaped, LabelSets, SetOf, RawFrom, EntriesOf;
    if body.resultType != "streams" { return Err(NotStreams); }
    var out: ResultSet := map[];
    EmptyHasNone();
    for i := 0 to |body.result|
      invariant forall j :: 0 <= j < i ==> WellShaped(body.result[j])
      invariant out.Keys == LabelSets(body.result[..i]) && EntriesIn(out) == SetOf(RawFrom(body.result[..i]))
    {
      var next := AddStream(out, body.result[i]);
      if next.Err? { return Err(next.error); }
      out := next.value;
      SnocStream(body.result[..i], body.result[i]);
      assert body.result[..i + 1] == body.result[..i] + [body.result[i]];
    }
    assert body.result[..|body.result|] == body.result;
    r := Ok(out);
  }

  lemma SnocStream(streams: seq<Stream>, s: Stream)
    requires WellShaped(s) && forall i :: 0 <= i < |streams| ==> WellShaped(streams[i])
    ensures var more := streams + [s];
      && (forall i :: 0 <= i < |more| ==> WellShaped(more[i]))
      && LabelSets(more) == LabelSets(streams) + {s.labels.value}
      && SetOf(RawFrom(more)) == SetOf(RawFrom(streams)) + SetOf(EntriesOf(s))
  {
    var more := streams + [s];
    assert more[..|streams|] == streams && more[|streams|] == s;
    forall l ensures l in LabelSets(more) <==> l in LabelSets(streams) + {s.labels.value} {
      if l in LabelSets(streams) {
        var i :| 0 <= i < |streams| && streams[i].labels.Some? && streams[i].labels.value == l;
        assert more[i].labels.value == l;
      }
    }
  }

  lemma EmptyHasNone()
    ensures EntriesIn(map[]) == {} && LabelSets([]) == {} && SetOf(RawFrom([])) == {}
  {
  }

  // ----- the gates -----

  predicate NoDuplicates(es: seq<Entry>) {
    forall i, j :: 0 <= i < j < |es| ==> es[i] != es[j]
  }

  lemma {:induction false} DistinctCount(es: seq<Entry>)
    ensures |SetOf(es)| <= |es|
    ensures |SetOf(es)| == |es| <==> NoDuplicates(es)
  {
    if es != [] {
      var (front, last) := (es[..|es| - 1], es[|es| - 1]);
      DistinctCount(front);
      assert es == front + [last];
      assert SetOf(es) == SetOf(front) + {last};
      if last in front {
        assert SetOf(es) == SetOf(front);
      } else {
        assert |SetOf(es)| == |SetOf(front)| + 1;
      }
    }
  }

  lemma {:induction false} OnceEach(es: seq<Entry>)
    requires NoDuplicates(es)
    ensures multiset(es) == multiset(SetOf(es))
  {
    if es != [] {
      var (front, last) := (es[..|es| - 1], es[|es| - 1]);
      OnceEach(front);
      assert es == front + [last];
      assert last !in SetOf(front);
      assert SetOf(es) == SetOf(front) + {last};
      assert multiset(SetOf(es)) == multiset(SetOf(front)) + multiset{last};
    }
  }

  lemma MultisetOfSet(es: seq<Entry>, s: set<Entry>)
    requires multiset(es) == multiset(s)
    ensures SetOf(es) == s && |es| == |s|
  {
    forall x ensures x in SetOf(es) <==> x in s {
      assert x in es <==> x in multiset(es);
      assert x in s <==> x in multiset(s);
    }
    assert |multiset(es)| == |es| && |multiset(s)| == |s|;
  }

  const U32 := 0x1_0000_0000

  datatype Verdict = Pass | Unreadable(violation: Violation) | Truncated | Duplicated | Diverged

  /** The single-store gates of `run_streams_case`, in order. */
  method RunGates(body: Body, limit: nat, expected: ResultSet) returns (v: Verdict)
    ensures v.Unreadable? <==> !Readable(body)
    ensures Readable(body) ==> (v == Truncated <==> RawCount(body.result) % U32 >= limit)
    ensures v == Duplicated ==> Readable(body) && !NoDuplicates(RawEntries(body))
    ensures v == Diverged ==> Readable(body) && NoDuplicates(RawEntries(body)) && !IsCollapse(body, expected)
    ensures v == Pass ==> Readable(body) && NoDuplicates(RawEntries(body)) && IsCollapse(body, expected)
    ensures v == Pass <==> Readable(body) && RawCount(body.result) % U32 < limit && IsExpected(body, expected)
    ensures v == Pass ==> RawCount(body.result) == |EntriesIn(expected)|
    ensures v == Pass ==> (RawCount(body.result) < limit <==> |EntriesIn(expected)| < limit)
  {
    hide EntriesIn, RawFrom, LabelSets, SetOf, NoDuplicates;
    var got := CollapseToSet(body);
    if got.Err? { return Unreadable(got.error); }
    GatesAreExact(body, got.value, expected);
    var raw := RawCount(body.result);
    if raw % U32 >= limit { return Truncated; }
    RawCountIsLength(body.result);
    DistinctCount(RawEntries(body));
    var distinct := SetEntryCount(got.value);
    if raw != distinct { return Duplicated; }
    if got.value != expected {
      if IsCollapse(body, expected) { CollapseUnique(body, got.value, expected); }
      return Diverged;
    }
    v := Pass;
  }

  /** The response holds the expected entries once each, however label sets are
      split across stream objects, and the expected label sets and no others. */
  ghost predicate IsExpected(body: Body, expected: ResultSet)
    requires Readable(body)
  {
    multiset(RawEntries(body)) == multiset(EntriesIn(expected)) && LabelSets(body.result) == expected.Keys
  }

  /** The duplicate gate and the comparison of the collapsed maps together are
      exact: they accept a response precisely when it is the expected one. */
  lemma GatesAreExact(body: Body, got: ResultSet, expected: ResultSet)
    requires Readable(body) && IsCollapse(body, got)
    ensures RawCount(body.result) == |EntriesIn(got)| && got == expected <==> IsExpected(body, expected)
  {
    hide EntriesIn, RawFrom;
    var es := RawEntries(body);
    RawCountIsLength(body.result);
    DistinctCount(es);
    if NoDuplicates(es) { OnceEach(es); }
    if IsExpected(body, expected) {
      MultisetOfSet(es, EntriesIn(expected));
      CollapseUnique(body, got, expected);
    }
  }

  /** The label sets matter: a stream object without values is a divergence from an
      empty expectation although no entry differs. */
  lemma EmptyStreamDiverges(labels: Labels)
    ensures var body := Body("streams", [Stream(Some(labels), [])]);
      && Readable(body) && multiset(RawEntries(body)) == multiset(EntriesIn(map[]))
      && !IsExpected(body, map[]) && IsExpected(body, map[labels := {}])
  {
    var body := Body("streams", [Stream(Some(labels), [])]);
    assert body.result[..0] == [] && EntriesOf(body.result[0]) == [];
    assert RawFrom(body.result) == RawFrom([]) + [];
    assert body.result[0].labels.value == labels;
    var empty: ResultSet := map[labels := {}];
    assert LabelSets(body.result) == {labels} == empty.Keys;
    assert EntriesIn(map[]) == {} && EntriesIn(empty) == {};
  }

  /** The truncation gate compares the count after a cast to 32 bits. */
  predicate GateMeansLimit(raw: nat, limit: nat) { raw % U32 < limit <==> raw < limit }

  /** So it means `count < limit` for all responses up to a size exactly when that
      size is below 2^32, or the limit is 0 and nothing passes. */
  lemma TruncationGateExactly(limit: nat, n: nat)
    requires limit < 0x1_0000_0000
    ensures (forall raw: nat :: raw <= n ==> GateMeansLimit(raw, limit)) <==> n < 0x1_0000_0000 || limit == 0
  {
    if n >= U32 && limit > 0 { assert !GateMeansLimit(U32, limit); }
  }

  // ----- completeness_set_diff -----

  datatype Diff = Diff(matched: nat, missing: seq<Entry>, extra: seq<Entry>)

  /** The entries of `m` split into those in `other` and the rest. */
  method Split(m: ResultSet, other: ResultSet) returns (matched: nat, rest: seq<Entry>)
    ensures matched == |EntriesIn(m) * EntriesIn(other)|
    ensures multiset(rest) == multiset(EntriesIn(m) - EntriesIn(other))
  {
    hide EntriesIn, Tagged;
    matched, rest := 0, [];
    var todo := m;
    while todo != map[]
      invariant matched + |EntriesIn(todo) * EntriesIn(other)| == |EntriesIn(m) * EntriesIn(other)|
      invariant multiset(rest) + multiset(EntriesIn(todo) - EntriesIn(other))
             == multiset(EntriesIn(m) - EntriesIn(other))
      decreases |todo|
    {
      var l :| l in todo;
      var hits, misses := SplitLines(l, todo[l], other);
      SplitOff(todo, l);
      Partition(EntriesIn(todo), EntriesIn(todo - {l}), Tagged(l, todo[l]), EntriesIn(other));
      matched, rest := matched + hits, rest + misses;
      assert todo.Keys - {l} == (todo - {l}).Keys;
      todo := todo - {l};
    }
    EmptyHasNone();
  }

  lemma Partition(all: set<Entry>, a: set<Entry>, b: set<Entry>, o: set<Entry>)
    requires all == a + b && a !! b
    ensures |all * o| == |a * o| + |b * o|
    ensures multiset(all - o) == multiset(a - o) + multiset(b - o)
  {
    assert all * o == (a * o) + (b * o);
    assert all - o == (a - o) + (b - o);
  }

  /** The same for the lines of one label set. */
  /** Taking one line off: it is either matched or left over. */
  lemma OneLine(l: Labels, todo: set<Line>, e: Line, o: set<Entry>)
    requires e in todo
    ensures var (x, all, less) := (Entry(l, e.0, e.1), Tagged(l, todo), Tagged(l, todo - {e}));
      && |all * o| == |less * o| + (if x in o then 1 else 0)
      && multiset(all - o) == multiset(less - o) + (if x in o then multiset{} else multiset{x})
  {
    hide Tagged;
    var x := Entry(l, e.0, e.1);
    TaggedLess(l, todo, e);
    Partition(Tagged(l, todo), Tagged(l, todo - {e}), {x}, o);
    assert if x in o then {x} * o == {x} && {x} - o == {} else {x} * o == {} && {x} - o == {x};
  }

  method SplitLines(l: Labels, lines: set<Line>, other: ResultSet) returns (matched: nat, rest: seq<Entry>)
    ensures matched == |Tagged(l, lines) * EntriesIn(other)|
    ensures multiset(rest) == multiset(Tagged(l, lines) - EntriesIn(other))
  {
    hide EntriesIn, Tagged;
    matched, rest := 0, [];
    var todo := lines;
    ghost var o := EntriesIn(other);
    while todo != {}
      invariant matched + |Tagged(l, todo) * o| == |Tagged(l, lines) * o|
      invariant multiset(rest) + multiset(Tagged(l, todo) - o) == multiset(Tagged(l, lines) - o)
      decreases todo
    {
      var e :| e in todo;
      var x := Entry(l, e.0, e.1);
      OneLine(l, todo, e, o);
      InEntries(other, x);
      assert e == (e.0, e.1);
      if l in other && e in other[l] {
        matched := matched + 1;
      } else {
        rest := rest + [x];
      }
      todo := todo - {e};
    }
    assert Tagged(l, {}) == {} by { TaggedSize(l, {}); }
  }

  lemma TaggedLess(l: Labels, es: set<Line>, e: Line)
    requires e in es
    ensures var x := Entry(l, e.0, e.1);
            Tagged(l, es) == Tagged(l, es - {e}) + {x} && x !in Tagged(l, es - {e})
  {
    assert e == (e.0, e.1);
  }

  /** `completeness_set_diff`. */
  method SetDiff(store: ResultSet, expected: ResultSet) returns (d: Diff)
    ensures multiset(d.missing) == multiset(EntriesIn(expected) - EntriesIn(store))
    ensures multiset(d.extra) == multiset(EntriesIn(store) - EntriesIn(expected))
    ensures d.matched + |d.missing| == |EntriesIn(expected)| && d.matched + |d.extra| == |EntriesIn(store)|
    ensures d.missing == [] && d.extra == [] <==> EntriesIn(store) == EntriesIn(expected)
  {
    hide EntriesIn;
    var matched, missing := Split(expected, store);
    var again, extra := Split(store, expected);
    var (s, e) := (EntriesIn(store), EntriesIn(expected));
    Sizes(e, s, missing);
    Sizes(s, e, extra);
    assert s * e == e * s;
    d := Diff(matched, missing, extra);
  }

  lemma Sizes(a: set<Entry>, b: set<Entry>, rest: seq<Entry>)
    requires multiset(rest) == multiset(a - b)
    ensures |a| == |a * b| + |rest|
    ensures rest == [] <==> a <= b
  {
    assert a == (a * b) + (a - b);
    assert |multiset(rest)| == |rest| && |multiset(a - b)| == |a - b|;
    assert a - b == {} <==> a <= b;
  }
}
