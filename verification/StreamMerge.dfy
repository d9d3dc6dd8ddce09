/** `ordered_entries` of `e2e/src/logs.rs`: the forward-order check on every
    stream and the k-way merge, against the stable sort of all entries. */
module StreamMerge {
  import opened Common

  datatype Entry = Entry(labels: Labels, ts: int, line: string)

  /** One `[ts, line]` pair of a response, as far as it could be read. */
  datatype Value = Value(ts: Option<int>, line: Option<string>)

  datatype Stream = Stream(labels: Option<Labels>, values: seq<Value>)

  datatype Body = Body(resultType: string, result: seq<Stream>)

  datatype Violation = NotStreams | NoLabels | BadTimestamp | BadLine | OutOfOrder

  // ----- the specification -----

  predicate WellShaped(s: Stream) {
    s.labels.Some? && forall i :: 0 <= i < |s.values| ==> s.values[i].ts.Some? && s.values[i].line.Some?
  }

  function EntriesOf(s: Stream): (es: seq<Entry>)
    requires WellShaped(s)
    ensures |es| == |s.values|
  {
    var (l, vs) := (s.labels.value, s.values);
    seq(|vs|, i requires 0 <= i < |vs| => Entry(l, vs[i].ts.value, vs[i].line.value))
  }

  predicate Ascending(es: seq<Entry>) {
    forall i :: 0 < i < |es| ==> es[i - 1].ts <= es[i].ts
  }

  predicate Forward(s: Stream) {
    WellShaped(s) && Ascending(EntriesOf(s))
  }

  function ForwardEntries(s: Stream): (es: seq<Entry>)
    ensures Ascending(es)
  {
    if Forward(s) then EntriesOf(s) else []
  }

  function StreamsOf(body: Body): seq<seq<Entry>> {
    seq(|body.result|, i requires 0 <= i < |body.result| => ForwardEntries(body.result[i]))
  }

  function Flatten(streams: seq<seq<Entry>>): seq<Entry> {
    if streams == [] then [] else streams[0] + Flatten(streams[1..])
  }

  /** How many entries precede stream `j`. */
  function Preceding(streams: seq<seq<Entry>>, j: nat): nat
    requires j <= |streams|
  {
    if j == 0 then 0 else Preceding(streams, j - 1) + |streams[j - 1]|
  }

  lemma {:induction false} PrecedingRest(streams: seq<seq<Entry>>, j: nat)
    requires 0 < j <= |streams|
    ensures Preceding(streams, j) == |streams[0]| + Preceding(streams[1..], j - 1)
  {
    if j > 1 { PrecedingRest(streams, j - 1); }
  }

  /** The entries before sorting: stream after stream, each in its own order, and nothing else. */
  lemma {:induction false} FlattenAt(streams: seq<seq<Entry>>, j: nat, i: nat)
    requires j < |streams| && i < |streams[j]|
    ensures |Flatten(streams)| == Preceding(streams, |streams|)
    ensures Preceding(streams, j) + i < |Flatten(streams)|
    ensures Flatten(streams)[Preceding(streams, j) + i] == streams[j][i]
  {
    FlattenLength(streams);
    if j > 0 {
      FlattenAt(streams[1..], j - 1, i);
      PrecedingRest(streams, j);
    } else if |streams| > 0 {
      FlattenLength(streams[1..]);
    }
  }

  lemma {:induction false} FlattenLength(streams: seq<seq<Entry>>)
    ensures |Flatten(streams)| == Preceding(streams, |streams|)
  {
    if streams != [] {
      FlattenLength(streams[1..]);
      PrecedingRest(streams, |streams|);
    }
  }

  /** The entries stamped `v`, in order. */
  function AtTs(es: seq<Entry>, v: int): seq<Entry> {
    if es == [] then [] else (if es[0].ts == v then [es[0]] else []) + AtTs(es[1..], v)
  }

  function Insert(e: Entry, es: seq<Entry>): seq<Entry> {
    if es == [] || e.ts <= es[0].ts then [e] + es else [es[0]] + Insert(e, es[1..])
  }

  /** Insertion sort by timestamp, stable: equal timestamps keep their order. */
  function StableSort(es: seq<Entry>): seq<Entry> {
    if es == [] then [] else Insert(es[0], StableSort(es[1..]))
  }

  lemma {:induction false} InsertPermutes(e: Entry, es: seq<Entry>)
    ensures multiset(Insert(e, es)) == multiset([e] + es)
  {
    if es != [] && e.ts > es[0].ts {
      InsertPermutes(e, es[1..]);
      assert es == [es[0]] + es[1..];
    }
  }

  lemma {:induction false} StableSortPermutes(es: seq<Entry>)
    ensures multiset(StableSort(es)) == multiset(es)
  {
    if es != [] {
      StableSortPermutes(es[1..]);
      InsertPermutes(es[0], StableSort(es[1..]));
      assert es == [es[0]] + es[1..];
    }
  }

  // ----- sorted sequences are determined by their timestamp classes -----

  lemma AtTsCons(e: Entry, es: seq<Entry>, v: int)
    ensures AtTs([e] + es, v) == (if e.ts == v then [e] else []) + AtTs(es, v)
  {
    assert ([e] + es)[1..] == es;
  }

  lemma {:induction false} InsertAscends(e: Entry, es: seq<Entry>)
    requires Ascending(es)
    ensures Ascending(Insert(e, es))
  {
    if es != [] && e.ts > es[0].ts {
      InsertAscends(e, es[1..]);
      FirstOfInsert(e, es[1..]);
    }
  }

  lemma {:induction false} InsertAtTs(e: Entry, es: seq<Entry>, v: int)
    ensures AtTs(Insert(e, es), v) == AtTs([e] + es, v)
  {
    if es != [] && e.ts > es[0].ts {
      var (x, tail) := (es[0], es[1..]);
      InsertAtTs(e, tail, v);
      AtTsPastInsert(x, e, tail, Insert(e, tail), v);
      assert es == [x] + tail;
    }
  }

  /** Entries with different timestamps commute as far as one timestamp can see. */
  lemma AtTsPastInsert(x: Entry, e: Entry, tail: seq<Entry>, inserted: seq<Entry>, v: int)
    requires x.ts < e.ts && AtTs(inserted, v) == AtTs([e] + tail, v)
    ensures AtTs([x] + inserted, v) == AtTs([e] + ([x] + tail), v)
  {
    hide AtTs;
    AtTsCons(x, inserted, v);
    AtTsCons(e, [x] + tail, v);
    AtTsCons(e, tail, v);
    AtTsCons(x, tail, v);
  }

  lemma FirstOfInsert(e: Entry, es: seq<Entry>)
    ensures Insert(e, es) != [] && (Insert(e, es)[0] == e || (es != [] && Insert(e, es)[0] == es[0]))
  {
  }

  lemma {:induction false} StableSortSorts(es: seq<Entry>)
    ensures Ascending(StableSort(es))
    ensures forall v :: AtTs(StableSort(es), v) == AtTs(es, v)
  {
    hide AtTs;
    if es != [] {
      StableSortSorts(es[1..]);
      InsertAscends(es[0], StableSort(es[1..]));
      forall v ensures AtTs(StableSort(es), v) == AtTs(es, v) {
        InsertAtTs(es[0], StableSort(es[1..]), v);
        AtTsCons(es[0], StableSort(es[1..]), v);
        AtTsCons(es[0], es[1..], v);
        assert es == [es[0]] + es[1..];
      }
    }
  }

  lemma {:induction false} AscendingFrom(es: seq<Entry>, i: nat, j: nat)
    requires Ascending(es) && i <= j < |es|
    ensures es[i].ts <= es[j].ts
  {
    if i < j { AscendingFrom(es, i, j - 1); }
  }

  lemma {:induction false} AtTsEmpty(es: seq<Entry>, v: int)
    requires forall i :: 0 <= i < |es| ==> es[i].ts != v
    ensures AtTs(es, v) == []
  {
    if es != [] { AtTsEmpty(es[1..], v); }
  }

  lemma {:induction false} AtTsMember(es: seq<Entry>, i: nat)
    requires i < |es|
    ensures AtTs(es, es[i].ts) != []
  {
    if i > 0 { AtTsMember(es[1..], i - 1); }
  }

  lemma AtTsNone(v: int)
    ensures AtTs([], v) == []
  {
  }

  lemma {:induction false} AtTsConcat(a: seq<Entry>, b: seq<Entry>, v: int)
    ensures AtTs(a + b, v) == AtTs(a, v) + AtTs(b, v)
  {
    hide AtTs;
    if a == [] {
      AtTsNone(v);
      assert a + b == b && [] + AtTs(b, v) == AtTs(b, v);
    } else {
      AtTsConcat(a[1..], b, v);
      AtTsCons(a[0], a[1..], v);
      AtTsCons(a[0], a[1..] + b, v);
      assert a == [a[0]] + a[1..] && a + b == [a[0]] + (a[1..] + b);
    }
  }

  /** Two ascending sequences with the same entries at every timestamp, in the
      same order, are the same sequence. */
  lemma {:induction false} SortedUnique(a: seq<Entry>, b: seq<Entry>)
    requires Ascending(a) && Ascending(b) && forall v :: AtTs(a, v) == AtTs(b, v)
    ensures a == b
  {
    if a != [] { AtTsMember(a, 0); }
    if b != [] { AtTsMember(b, 0); }
    assert AtTs([], 0) == [];
    assert a != [] ==> AtTs(b, a[0].ts) != [];
    assert b != [] ==> AtTs(a, b[0].ts) != [];
    if a != [] && b != [] {
      MinimumAgrees(a, b);
      MinimumAgrees(b, a);
      assert AtTs(a, a[0].ts)[0] == a[0] && AtTs(b, b[0].ts)[0] == b[0];
      forall v ensures AtTs(a[1..], v) == AtTs(b[1..], v) {
        assert AtTs(a, v) == AtTs(b, v);
        assert AtTs(a[1..], v) == AtTs(a, v)[if a[0].ts == v then 1 else 0..];
        assert AtTs(b[1..], v) == AtTs(b, v)[if b[0].ts == v then 1 else 0..];
      }
      SortedUnique(a[1..], b[1..]);
    }
  }

  lemma MinimumAgrees(a: seq<Entry>, b: seq<Entry>)
    requires a != [] && b != [] && Ascending(b) && forall v :: AtTs(a, v) == AtTs(b, v)
    ensures b[0].ts <= a[0].ts
  {
    AtTsMember(a, 0);
    var v := a[0].ts;
    if v < b[0].ts {
      forall i | 0 <= i < |b| ensures b[i].ts != v { AscendingFrom(b, 0, i); }
      AtTsEmpty(b, v);
    }
  }

  // ----- what is left to merge -----

  predicate Heads(streams: seq<seq<Entry>>, heads: seq<nat>) {
    |heads| == |streams| && forall j :: 0 <= j < |streams| ==> heads[j] <= |streams[j]|
  }

  function Remaining(streams: seq<seq<Entry>>, heads: seq<nat>, k: nat): nat
    requires Heads(streams, heads) && k <= |streams|
    decreases |streams| - k
  {
    if k == |streams| then 0 else |streams[k]| - heads[k] + Remaining(streams, heads, k + 1)
  }

  /** The unmerged entries stamped `v`, stream by stream from stream `k`. */
  function RestAt(streams: seq<seq<Entry>>, heads: seq<nat>, v: int, k: nat): seq<Entry>
    requires Heads(streams, heads) && k <= |streams|
    decreases |streams| - k
  {
    if k == |streams| then [] else AtTs(streams[k][heads[k]..], v) + RestAt(streams, heads, v, k + 1)
  }

  lemma {:induction false} RestOfAll(streams: seq<seq<Entry>>, heads: seq<nat>, v: int, k: nat)
    requires Heads(streams, heads) && k <= |streams| && forall j :: 0 <= j < |heads| ==> heads[j] == 0
    ensures RestAt(streams, heads, v, k) == AtTs(Flatten(streams[k..]), v)
    decreases |streams| - k
  {
    if k < |streams| {
      RestOfAll(streams, heads, v, k + 1);
      assert streams[k..][1..] == streams[k + 1..] && streams[k][0..] == streams[k];
      AtTsConcat(streams[k], Flatten(streams[k + 1..]), v);
    }
  }

  lemma {:induction false} NothingLeft(streams: seq<seq<Entry>>, heads: seq<nat>, v: int, k: nat)
    requires Heads(streams, heads) && k <= |streams| && Remaining(streams, heads, k) == 0
    ensures RestAt(streams, heads, v, k) == []
    decreases |streams| - k
  {
    if k < |streams| { NothingLeft(streams, heads, v, k + 1); }
  }

  lemma {:induction false} SomethingLeft(streams: seq<seq<Entry>>, heads: seq<nat>, k: nat)
    requires Heads(streams, heads) && k <= |streams|
    requires forall j :: k <= j < |streams| ==> heads[j] == |streams[j]|
    ensures Remaining(streams, heads, k) == 0
    decreases |streams| - k
  {
    if k < |streams| { SomethingLeft(streams, heads, k + 1); }
  }

  /** `p` is the first stream whose next entry has the smallest timestamp. */
  predicate IsPick(streams: seq<seq<Entry>>, heads: seq<nat>, p: nat, upTo: nat)
    requires Heads(streams, heads) && upTo <= |streams|
  {
    && p < upTo && heads[p] < |streams[p]|
    && forall j :: 0 <= j < upTo && heads[j] < |streams[j]| ==>
         var (mine, theirs) := (streams[p][heads[p]].ts, streams[j][heads[j]].ts);
         if j < p then mine < theirs else mine <= theirs
  }

  /** Taking the picked entry removes it, and nothing else, from the front of its timestamp's rest. */
  lemma {:induction false} PickStep(streams: seq<seq<Entry>>, heads: seq<nat>, p: nat, v: int, k: nat)
    requires Heads(streams, heads) && k <= |streams| && IsPick(streams, heads, p, |streams|)
    requires forall j :: 0 <= j < |streams| ==> Ascending(streams[j])
    ensures var next := heads[p := heads[p] + 1];
      var e := streams[p][heads[p]];
      && Heads(streams, next)
      && RestAt(streams, heads, v, k) == (if k <= p && e.ts == v then [e] else []) + RestAt(streams, next, v, k)
    decreases |streams| - k
  {
    hide AtTs, Ascending;
    var next := heads[p := heads[p] + 1];
    if k < |streams| {
      PickStep(streams, heads, p, v, k + 1);
      PickFrom(streams, heads, p, v, k);
      var (mine, theirs) := (AtTs(streams[k][heads[k]..], v), AtTs(streams[k][next[k]..], v));
      var (rest, rest') := (RestAt(streams, heads, v, k + 1), RestAt(streams, next, v, k + 1));
      hide *;
      if k < p && streams[p][heads[p]].ts == v {
        assert mine == [] && theirs == [];
      } else if k == p && streams[p][heads[p]].ts == v {
        assert [streams[p][heads[p]]] + theirs + rest' == [streams[p][heads[p]]] + (theirs + rest');
      }
    }
  }

  lemma {:induction false} RemainingStep(streams: seq<seq<Entry>>, heads: seq<nat>, p: nat, k: nat)
    requires Heads(streams, heads) && k <= |streams| && p < |streams| && heads[p] < |streams[p]|
    ensures var next := heads[p := heads[p] + 1];
      Heads(streams, next) && Remaining(streams, heads, k) == Remaining(streams, next, k) + (if k <= p then 1 else 0)
    decreases |streams| - k
  {
    if k < |streams| { RemainingStep(streams, heads, p, k + 1); }
  }

  /** The same for stream `k` alone; streams before `p` hold nothing at the picked timestamp. */
  lemma PickFrom(streams: seq<seq<Entry>>, heads: seq<nat>, p: nat, v: int, k: nat)
    requires Heads(streams, heads) && k < |streams| && IsPick(streams, heads, p, |streams|)
    requires forall j :: 0 <= j < |streams| ==> Ascending(streams[j])
    ensures var next := heads[p := heads[p] + 1];
      var (e, rest) := (streams[p][heads[p]], AtTs(streams[k][heads[k]..], v));
      && rest == (if k == p && e.ts == v then [e] else []) + AtTs(streams[k][next[k]..], v)
      && (k < p && e.ts == v ==> rest == [])
  {
    var next := heads[p := heads[p] + 1];
    var rest := streams[k][heads[k]..];
    if k == p {
      assert rest[1..] == streams[k][next[k]..];
    } else if k < p && streams[p][heads[p]].ts == v {
      forall i | 0 <= i < |rest| ensures rest[i].ts != v {
        AscendingFrom(streams[k], heads[k], heads[k] + i);
      }
      AtTsEmpty(rest, v);
    }
  }

  // ----- the code -----

  /** An adjacent pair of timestamps that goes back in time. */
  predicate Descends(s: Stream, i: int) {
    && 0 < i < |s.values| && s.values[i - 1].ts.Some? && s.values[i].ts.Some?
    && s.values[i].ts.value < s.values[i - 1].ts.value
  }

  /** Reads one stream, failing on the first malformed or descending value. */
  method ReadStream(s: Stream) returns (r: Result<seq<Entry>, Violation>)
    ensures r.Ok? <==> Forward(s)
    ensures r.Ok? ==> r.value == ForwardEntries(s)
    ensures r == Err(OutOfOrder) ==> s.labels.Some? && exists i :: Descends(s, i)
  {
    if s.labels.None? { return Err(NoLabels); }
    var entries: seq<Entry> := [];
    for i := 0 to |s.values|
      invariant |entries| == i && Ascending(entries)
      invariant forall j :: 0 <= j < i ==> s.values[j].ts.Some? && s.values[j].line.Some?
      invariant forall j :: 0 <= j < i ==>
        entries[j] == Entry(s.labels.value, s.values[j].ts.value, s.values[j].line.value)
    {
      var value := s.values[i];
      if value.ts.None? { return Err(BadTimestamp); }
      if value.line.None? { return Err(BadLine); }
      if i > 0 && value.ts.value < entries[i - 1].ts {
        assert WellShaped(s) ==> EntriesOf(s)[i - 1].ts > EntriesOf(s)[i].ts;
        assert Descends(s, i);
        return Err(OutOfOrder);
      }
      entries := entries + [Entry(s.labels.value, value.ts.value, value.line.value)];
    }
    assert entries == EntriesOf(s);
    r := Ok(entries);
  }

  /** Merged so far: `out` is ascending, nothing left precedes it, and at every
      timestamp what was merged followed by what is left is the whole class. */
  ghost predicate Merging(streams: seq<seq<Entry>>, heads: seq<nat>, out: seq<Entry>) {
    && Heads(streams, heads) && Ascending(out)
    && (forall j :: 0 <= j < |streams| && heads[j] < |streams[j]| && out != [] ==>
          out[|out| - 1].ts <= streams[j][heads[j]].ts)
    && forall v :: AtTs(out, v) + RestAt(streams, heads, v, 0) == AtTs(Flatten(streams), v)
  }

  lemma MergeBegins(streams: seq<seq<Entry>>, heads: seq<nat>)
    requires heads == seq(|streams|, _ => 0)
    ensures Merging(streams, heads, [])
  {
    forall v ensures AtTs([], v) + RestAt(streams, heads, v, 0) == AtTs(Flatten(streams), v) {
      RestOfAll(streams, heads, v, 0);
      assert streams[0..] == streams;
    }
  }

  lemma MergeStep(streams: seq<seq<Entry>>, heads: seq<nat>, out: seq<Entry>, p: nat)
    requires forall j :: 0 <= j < |streams| ==> Ascending(streams[j])
    requires Merging(streams, heads, out) && IsPick(streams, heads, p, |streams|)
    ensures var next := heads[p := heads[p] + 1];
      && Merging(streams, next, out + [streams[p][heads[p]]])
      && Remaining(streams, next, 0) == Remaining(streams, heads, 0) - 1
  {
    hide AtTs, RestAt, Flatten, Remaining;
    var next := heads[p := heads[p] + 1];
    var e := streams[p][heads[p]];
    RemainingStep(streams, heads, p, 0);
    forall v ensures AtTs(out + [e], v) + RestAt(streams, next, v, 0) == AtTs(Flatten(streams), v) {
      PickStep(streams, heads, p, v, 0);
      AtTsConcat(out, [e], v);
      AtTsOne(e, v);
      assert AtTs(out, v) + RestAt(streams, heads, v, 0) == AtTs(Flatten(streams), v);
    }
  }

  lemma AtTsOne(e: Entry, v: int)
    ensures AtTs([e], v) == if e.ts == v then [e] else []
  {
  }

  lemma MergeEnds(streams: seq<seq<Entry>>, heads: seq<nat>, out: seq<Entry>)
    requires Merging(streams, heads, out) && Remaining(streams, heads, 0) == 0
    ensures out == StableSort(Flatten(streams))
  {
    hide AtTs, RestAt, Flatten;
    StableSortSorts(Flatten(streams));
    forall v ensures AtTs(out, v) == AtTs(StableSort(Flatten(streams)), v) {
      NothingLeft(streams, heads, v, 0);
      assert AtTs(out, v) + RestAt(streams, heads, v, 0) == AtTs(Flatten(streams), v);
    }
    SortedUnique(out, StableSort(Flatten(streams)));
  }

  /** The inner scan: the first stream with the smallest next timestamp. While
      anything is left there is one, so the `expect` after the scan holds. */
  method PickNext(streams: seq<seq<Entry>>, heads: seq<nat>) returns (p: nat)
    requires Heads(streams, heads) && Remaining(streams, heads, 0) > 0
    ensures IsPick(streams, heads, p, |streams|)
  {
    var pick: Option<nat> := None;
    for si := 0 to |streams|
      invariant pick.None? ==> forall j :: 0 <= j < si ==> heads[j] == |streams[j]|
      invariant pick.Some? ==> IsPick(streams, heads, pick.value, si)
    {
      if heads[si] < |streams[si]| {
        if pick.None? || streams[si][heads[si]].ts < streams[pick.value][heads[pick.value]].ts {
          pick := Some(si);
        }
      }
    }
    if pick.None? { SomethingLeft(streams, heads, 0); }
    p := pick.value;
  }

  /** The k-way merge. */
  method Merge(streams: seq<seq<Entry>>) returns (out: seq<Entry>)
    requires forall j :: 0 <= j < |streams| ==> Ascending(streams[j])
    ensures out == StableSort(Flatten(streams))
  {
    hide AtTs, RestAt, Flatten, Remaining;
    var heads: seq<nat> := seq(|streams|, _ => 0);
    MergeBegins(streams, heads);
    var total := Remaining(streams, heads, 0);
    out := [];
    for n := 0 to total
      invariant Merging(streams, heads, out) && Remaining(streams, heads, 0) == total - n
    {
      var p := PickNext(streams, heads);
      MergeStep(streams, heads, out, p);
      out := out + [streams[p][heads[p]]];
      heads := heads[p := heads[p] + 1];
    }
    MergeEnds(streams, heads, out);
  }

  /** Value `k` of a stream is earlier than the one before it. */
  predicate StepsBack(s: Stream, k: nat) {
    && 0 < k < |s.values| && s.values[k - 1].ts.Some? && s.values[k].ts.Some?
    && s.values[k].ts.value < s.values[k - 1].ts.value
  }

  lemma NotForward(s: Stream, k: nat)
    requires StepsBack(s, k)
    ensures !Forward(s)
  {
    assert WellShaped(s) ==> EntriesOf(s)[k - 1].ts > EntriesOf(s)[k].ts;
  }

  /** `ordered_entries`. */
  method OrderedEntries(body: Body) returns (r: Result<seq<Entry>, Violation>)
    ensures r.Ok? <==> body.resultType == "streams" && forall i :: 0 <= i < |body.result| ==> Forward(body.result[i])
    ensures r.Ok? ==> r.value == StableSort(Flatten(StreamsOf(body)))
    ensures r.Ok? ==> forall i :: 0 < i < |r.value| ==> r.value[i - 1].ts <= r.value[i].ts
    ensures (exists i, k :: 0 <= i < |body.result| && StepsBack(body.result[i], k)) ==> r.Err?
  {
    hide Flatten, StableSort, EntriesOf, Forward, StepsBack;
    forall i, k | 0 <= i < |body.result| && StepsBack(body.result[i], k) ensures !Forward(body.result[i]) {
      NotForward(body.result[i], k);
    }
    if body.resultType != "streams" { return Err(NotStreams); }
    var streams: seq<seq<Entry>> := [];
    for i := 0 to |body.result|
      invariant |streams| == i
      invariant forall j :: 0 <= j < i ==> Forward(body.result[j]) && streams[j] == ForwardEntries(body.result[j])
      invariant forall j :: 0 <= j < i ==> Ascending(streams[j])
    {
      var s := ReadStream(body.result[i]);
      if s.Err? { return Err(s.error); }
      streams := streams + [s.value];
    }
    var out := Merge(streams);
    assert streams == StreamsOf(body);
    StableSortSorts(Flatten(streams));
    r := Ok(out);
  }
}
