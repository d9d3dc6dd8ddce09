/** The vector-matching oracle of `e2e/src/logs_corpus.rs`: the hash join by
    construction against the nested-loop relational join, and the range matrix
    against an instant join at every step point. */
module VectorJoin {
  import opened Common
  import opened RangeGrid

  datatype Grouping = OneToOne | Left | Right

  /** How two sides are matched: `on(keys)` or `ignoring(keys)`, and the grouping. */
  datatype Matching = Matching(on: bool, keys: set<string>, grouping: Grouping)

  type Row<V> = (Labels, V)

  /** `match_sig`: `on` keeps the listed keys, `ignoring` drops them. */
  function Sig(m: Matching, labels: Labels): Labels {
    map k | k in labels && m.on == (k in m.keys) :: labels[k]
  }

  // ----- the relational join -----

  function Many<V>(m: Matching, lhs: seq<Row<V>>, rhs: seq<Row<V>>): seq<Row<V>> {
    if m.grouping.Right? then rhs else lhs
  }

  function One<V>(m: Matching, lhs: seq<Row<V>>, rhs: seq<Row<V>>): seq<Row<V>> {
    if m.grouping.Right? then lhs else rhs
  }

  /** The output row of a matched pair: left operand first, whichever side is many. */
  function Emit<V, W>(m: Matching, op: (V, V) -> W, row: Row<V>, mate: Row<V>): Row<W> {
    (if m.grouping.OneToOne? then Sig(m, row.0) else row.0,
     if m.grouping.Right? then op(mate.1, row.1) else op(row.1, mate.1))
  }

  function RowJoin<V, W>(m: Matching, op: (V, V) -> W, row: Row<V>, one: seq<Row<V>>): seq<Row<W>> {
    if one == [] then []
    else
      var mate := one[|one| - 1];
      RowJoin(m, op, row, one[..|one| - 1]) + (if Sig(m, row.0) == Sig(m, mate.0) then [Emit(m, op, row, mate)] else [])
  }

  function NestedLoop<V, W>(m: Matching, op: (V, V) -> W, many: seq<Row<V>>, one: seq<Row<V>>): seq<Row<W>> {
    if many == [] then []
    else NestedLoop(m, op, many[..|many| - 1], one) + RowJoin(m, op, many[|many| - 1], one)
  }

  /** The join of two sides: every pair with equal reduced signatures. */
  function Join<V, W>(m: Matching, op: (V, V) -> W, lhs: seq<Row<V>>, rhs: seq<Row<V>>): seq<Row<W>> {
    NestedLoop(m, op, Many(m, lhs, rhs), One(m, lhs, rhs))
  }

  // ----- when it is defined -----

  ghost predicate DistinctSigs<V>(m: Matching, rows: seq<Row<V>>) {
    forall i, j :: 0 <= i < j < |rows| ==> Sig(m, rows[i].0) != Sig(m, rows[j].0)
  }

  ghost predicate HasMate<V>(m: Matching, row: Row<V>, one: seq<Row<V>>) {
    exists j :: 0 <= j < |one| && Sig(m, one[j].0) == Sig(m, row.0)
  }

  ghost predicate SingleMatches<V>(m: Matching, many: seq<Row<V>>, one: seq<Row<V>>) {
    forall i, j :: 0 <= i < j < |many| && HasMate(m, many[i], one) ==> Sig(m, many[i].0) != Sig(m, many[j].0)
  }

  /** No assertion of the join fires. */
  ghost predicate Defined<V>(m: Matching, lhs: seq<Row<V>>, rhs: seq<Row<V>>) {
    lhs == [] || rhs == []
    || (DistinctSigs(m, One(m, lhs, rhs))
        && (m.grouping.OneToOne? ==> SingleMatches(m, Many(m, lhs, rhs), One(m, lhs, rhs))))
  }

  // ----- the code -----

  /** `one_by_sig`: the one side indexed by signature. */
  ghost predicate Indexes<V>(m: Matching, one: seq<Row<V>>, index: map<Labels, V>) {
    && (forall j :: 0 <= j < |one| ==> Sig(m, one[j].0) in index && index[Sig(m, one[j].0)] == one[j].1)
    && (forall s :: s in index ==> exists j :: 0 <= j < |one| && Sig(m, one[j].0) == s)
  }

  method IndexOne<V>(m: Matching, one: seq<Row<V>>) returns (r: Option<map<Labels, V>>)
    ensures r.Some? <==> DistinctSigs(m, one)
    ensures r.Some? ==> Indexes(m, one, r.value)
  {
    hide Sig, Indexes, DistinctSigs;
    var index: map<Labels, V> := map[];
    IndexNone<V>(m);
    for i := 0 to |one|
      invariant DistinctSigs(m, one[..i]) && Indexes(m, one[..i], index)
    {
      var s := Sig(m, one[i].0);
      IndexSnoc(m, one[..i], one[i], index);
      assert one[..i + 1] == one[..i] + [one[i]];
      if s in index {
        if DistinctSigs(m, one) { SigsPrefix(m, one, i + 1); }
        return None;
      }
      index := index[s := one[i].1];
    }
    assert one[..|one|] == one;
    r := Some(index);
  }

  lemma IndexNone<V>(m: Matching)
    ensures DistinctSigs<V>(m, []) && Indexes<V>(m, [], map[])
  {
  }

  lemma IndexSnoc<V>(m: Matching, one: seq<Row<V>>, row: Row<V>, index: map<Labels, V>)
    requires DistinctSigs(m, one) && Indexes(m, one, index)
    ensures DistinctSigs(m, one + [row]) <==> Sig(m, row.0) !in index
    ensures Sig(m, row.0) !in index ==> Indexes(m, one + [row], index[Sig(m, row.0) := row.1])
  {
    hide Sig;
    var (more, s) := (one + [row], Sig(m, row.0));
    assert more[|one|] == row && forall j :: 0 <= j < |one| ==> more[j] == one[j];
    if s in index {
      var j :| 0 <= j < |one| && Sig(m, one[j].0) == s;
      assert Sig(m, more[j].0) == Sig(m, more[|one|].0);
    } else {
      var next := index[s := row.1];
      forall t | t in next ensures exists j :: 0 <= j < |more| && Sig(m, more[j].0) == t {
        if t != s {
          var j :| 0 <= j < |one| && Sig(m, one[j].0) == t;
          assert Sig(m, more[j].0) == t;
        } else {
          assert Sig(m, more[|one|].0) == t;
        }
      }
    }
  }

  lemma SigsPrefix<V>(m: Matching, rows: seq<Row<V>>, n: nat)
    requires n <= |rows| && DistinctSigs(m, rows)
    ensures DistinctSigs(m, rows[..n])
  {
    hide Sig;
  }

  /** One row against an index is the row's join. */
  lemma {:induction false} RowJoinIndexed<V, W>(m: Matching, op: (V, V) -> W, row: Row<V>, one: seq<Row<V>>,
                                                index: map<Labels, V>)
    requires DistinctSigs(m, one) && Indexes(m, one, index)
    ensures var s := Sig(m, row.0);
      RowJoin(m, op, row, one) == (if s in index then [Emit(m, op, row, (s, index[s]))] else [])
    ensures HasMate(m, row, one) <==> Sig(m, row.0) in index
  {
    var s := Sig(m, row.0);
    hide Sig;
    if s in index {
      var j :| 0 <= j < |one| && Sig(m, one[j].0) == s;
      RowJoinOne(m, op, row, one, j);
    } else {
      RowJoinNone(m, op, row, one);
    }
  }

  lemma {:induction false} RowJoinNone<V, W>(m: Matching, op: (V, V) -> W, row: Row<V>, one: seq<Row<V>>)
    requires forall j :: 0 <= j < |one| ==> Sig(m, one[j].0) != Sig(m, row.0)
    ensures RowJoin(m, op, row, one) == []
  {
    hide Sig;
    if one != [] { RowJoinNone(m, op, row, one[..|one| - 1]); }
  }

  lemma {:induction false} RowJoinOne<V, W>(m: Matching, op: (V, V) -> W, row: Row<V>, one: seq<Row<V>>, j: nat)
    requires DistinctSigs(m, one) && j < |one| && Sig(m, one[j].0) == Sig(m, row.0)
    ensures RowJoin(m, op, row, one) == [Emit(m, op, row, one[j])]
  {
    hide Sig;
    if j == |one| - 1 {
      RowJoinNone(m, op, row, one[..j]);
    } else {
      RowJoinOne(m, op, row, one[..|one| - 1], j);
    }
  }

  /** The signatures that found a mate. */
  ghost function MatchedSigs<V>(m: Matching, many: seq<Row<V>>, one: seq<Row<V>>): set<Labels> {
    set i | 0 <= i < |many| && HasMate(m, many[i], one) :: Sig(m, many[i].0)
  }

  lemma SingleSnoc<V>(m: Matching, many: seq<Row<V>>, row: Row<V>, one: seq<Row<V>>)
    ensures SingleMatches(m, many + [row], one) <==>
      SingleMatches(m, many, one) && Sig(m, row.0) !in MatchedSigs(m, many, one)
    ensures MatchedSigs(m, many + [row], one)
         == MatchedSigs(m, many, one) + if HasMate(m, row, one) then {Sig(m, row.0)} else {}
  {
    hide Sig, HasMate;
    var more := many + [row];
    assert more[|many|] == row && forall j :: 0 <= j < |many| ==> more[j] == many[j];
    var added := if HasMate(m, row, one) then {Sig(m, row.0)} else {};
    forall s ensures s in MatchedSigs(m, more, one) <==> s in MatchedSigs(m, many, one) + added {
      if s in MatchedSigs(m, many, one) {
        var i :| 0 <= i < |many| && HasMate(m, many[i], one) && Sig(m, many[i].0) == s;
        assert Sig(m, more[i].0) == s && HasMate(m, more[i], one);
      }
    }
    if Sig(m, row.0) in MatchedSigs(m, many, one) {
      var i :| 0 <= i < |many| && HasMate(m, many[i], one) && Sig(m, many[i].0) == Sig(m, row.0);
      assert HasMate(m, more[i], one) && Sig(m, more[i].0) == Sig(m, more[|many|].0);
    }
    if SingleMatches(m, more, one) {
      forall i, j | 0 <= i < j < |many| && HasMate(m, many[i], one) ensures Sig(m, many[i].0) != Sig(m, many[j].0) {
        assert more[i] == many[i] && more[j] == many[j];
      }
    }
  }

  lemma SinglePrefix<V>(m: Matching, many: seq<Row<V>>, one: seq<Row<V>>, n: nat)
    requires n <= |many| && SingleMatches(m, many, one)
    ensures SingleMatches(m, many[..n], one)
  {
    hide Sig, HasMate;
  }

  lemma NestedSnoc<V, W>(m: Matching, op: (V, V) -> W, many: seq<Row<V>>, row: Row<V>, one: seq<Row<V>>)
    ensures NestedLoop(m, op, many + [row], one) == NestedLoop(m, op, many, one) + RowJoin(m, op, row, one)
  {
    hide RowJoin;
    assert (many + [row])[..|many|] == many;
  }

  lemma JoinBegins<V, W>(m: Matching, op: (V, V) -> W, one: seq<Row<V>>)
    ensures NestedLoop(m, op, [], one) == [] && SingleMatches(m, [], one) && MatchedSigs(m, [], one) == {}
  {
  }

  /** `join_by_construction`; `None` stands for a failed assertion. */
  method JoinByConstruction<V, W>(m: Matching, op: (V, V) -> W, lhs: seq<Row<V>>, rhs: seq<Row<V>>)
    returns (r: Option<seq<Row<W>>>)
    ensures r.Some? <==> Defined(m, lhs, rhs)
    ensures r.Some? ==> r.value == Join(m, op, lhs, rhs)
  {
    hide Sig, Emit, RowJoin, NestedLoop, Indexes, DistinctSigs, SingleMatches, MatchedSigs, HasMate;
    if lhs == [] || rhs == [] {
      EmptyJoin(m, op, lhs, rhs);
      return Some([]);
    }
    var many, one := Many(m, lhs, rhs), One(m, lhs, rhs);
    var indexed := IndexOne(m, one);
    if indexed.None? { return None; }
    var index := indexed.value;
    var out: seq<Row<W>> := [];
    var seen: set<Labels> := {};
    JoinBegins(m, op, one);
    for i := 0 to |many|
      invariant out == NestedLoop(m, op, many[..i], one)
      invariant m.grouping.OneToOne? ==> seen == MatchedSigs(m, many[..i], one) && SingleMatches(m, many[..i], one)
    {
      var row := many[i];
      var s := Sig(m, row.0);
      assert many[..i + 1] == many[..i] + [row];
      RowJoinIndexed(m, op, row, one, index);
      NestedSnoc(m, op, many[..i], row, one);
      SingleSnoc(m, many[..i], row, one);
      if s !in index { NoMateNotSeen(m, many[..i], row, one); }
      if s in index {
        if m.grouping.OneToOne? {
          if s in seen {
            if SingleMatches(m, many, one) { SinglePrefix(m, many, one, i + 1); }
            return None;
          }
          seen := seen + {s};
        }
        out := out + [Emit(m, op, row, (s, index[s]))];
      }
    }
    assert many[..|many|] == many;
    r := Some(out);
  }

  lemma NoMateNotSeen<V>(m: Matching, many: seq<Row<V>>, row: Row<V>, one: seq<Row<V>>)
    requires !HasMate(m, row, one)
    ensures Sig(m, row.0) !in MatchedSigs(m, many, one)
  {
    hide Sig;
  }

  lemma {:induction false} EmptyJoin<V, W>(m: Matching, op: (V, V) -> W, lhs: seq<Row<V>>, rhs: seq<Row<V>>)
    requires lhs == [] || rhs == []
    ensures Join(m, op, lhs, rhs) == []
  {
    if One(m, lhs, rhs) == [] { NoMates(m, op, Many(m, lhs, rhs)); }
  }

  lemma {:induction false} NoMates<V, W>(m: Matching, op: (V, V) -> W, many: seq<Row<V>>)
    ensures NestedLoop(m, op, many, []) == []
  {
    if many != [] { NoMates(m, op, many[..|many| - 1]); }
  }

  // ----- laws of the join -----

  /** `group_right` is `group_left` with the sides and the operands exchanged. */
  lemma RightIsLeftExchanged<V, W>(m: Matching, op: (V, V) -> W, flipped: (V, V) -> W, lhs: seq<Row<V>>,
                                   rhs: seq<Row<V>>)
    requires m.grouping.Right? && forall a, b :: flipped(a, b) == op(b, a)
    ensures Join(m, op, lhs, rhs) == Join(m.(grouping := Left), flipped, rhs, lhs)
    ensures Defined(m, lhs, rhs) <==> Defined(m.(grouping := Left), rhs, lhs)
  {
    hide Sig;
    SameSigs(m);
    ExchangeNested(m, op, flipped, rhs, lhs);
  }

  lemma SameSigs(m: Matching)
    ensures forall l :: Sig(m, l) == Sig(m.(grouping := Left), l)
  {
  }

  lemma {:induction false} ExchangeNested<V, W>(m: Matching, op: (V, V) -> W, flipped: (V, V) -> W,
                                                many: seq<Row<V>>, one: seq<Row<V>>)
    requires m.grouping.Right? && forall a, b :: flipped(a, b) == op(b, a)
    ensures NestedLoop(m, op, many, one) == NestedLoop(m.(grouping := Left), flipped, many, one)
  {
    if many != [] {
      ExchangeNested(m, op, flipped, many[..|many| - 1], one);
      ExchangeRow(m, op, flipped, many[|many| - 1], one);
    }
  }

  lemma {:induction false} ExchangeRow<V, W>(m: Matching, op: (V, V) -> W, flipped: (V, V) -> W, row: Row<V>,
                                             one: seq<Row<V>>)
    requires m.grouping.Right? && forall a, b :: flipped(a, b) == op(b, a)
    ensures RowJoin(m, op, row, one) == RowJoin(m.(grouping := Left), flipped, row, one)
  {
    SameSigs(m);
    if one != [] {
      hide Sig;
      ExchangeRow(m, op, flipped, row, one[..|one| - 1]);
    }
  }

  ghost predicate DistinctLabels<V>(rows: seq<Row<V>>) {
    forall i, j :: 0 <= i < j < |rows| ==> rows[i].0 != rows[j].0
  }

  /** Every output row comes from a many-side row, in order, and carries its label set or its signature. */
  lemma {:induction false} OutputRows<V, W>(m: Matching, op: (V, V) -> W, many: seq<Row<V>>, one: seq<Row<V>>)
    returns (from: seq<nat>)
    requires DistinctSigs(m, one)
    ensures var out := NestedLoop(m, op, many, one);
      && |from| == |out|
      && (forall a :: 0 <= a < |out| ==> from[a] < |many| && HasMate(m, many[from[a]], one))
      && (forall a :: 0 <= a < |out| ==>
            out[a].0 == if m.grouping.OneToOne? then Sig(m, many[from[a]].0) else many[from[a]].0)
      && (forall a, b :: 0 <= a < b < |out| ==> from[a] < from[b])
  {
    hide Sig, HasMate, RowJoin;
    if many == [] {
      from := [];
    } else {
      var n := |many| - 1;
      from := OutputRows(m, op, many[..n], one);
      MateOrNothing(m, op, many[n], one);
      if RowJoin(m, op, many[n], one) != [] { from := from + [n]; }
    }
  }

  lemma MateOrNothing<V, W>(m: Matching, op: (V, V) -> W, row: Row<V>, one: seq<Row<V>>)
    requires DistinctSigs(m, one)
    ensures var r := RowJoin(m, op, row, one);
      r == [] || (|r| == 1 && HasMate(m, row, one) && r[0].0 == if m.grouping.OneToOne? then Sig(m, row.0) else row.0)
  {
    hide Sig;
    if j :| 0 <= j < |one| && Sig(m, one[j].0) == Sig(m, row.0) {
      RowJoinOne(m, op, row, one, j);
    } else {
      RowJoinNone(m, op, row, one);
    }
  }

  /** Distinct label sets in, distinct label sets out. */
  lemma OutputsDistinct<V, W>(m: Matching, op: (V, V) -> W, lhs: seq<Row<V>>, rhs: seq<Row<V>>)
    requires Defined(m, lhs, rhs) && DistinctLabels(Many(m, lhs, rhs))
    ensures DistinctLabels(Join(m, op, lhs, rhs))
  {
    hide Sig, NestedLoop;
    if lhs == [] || rhs == [] {
      EmptyJoin(m, op, lhs, rhs);
    } else {
      var from := OutputRows(m, op, Many(m, lhs, rhs), One(m, lhs, rhs));
    }
  }

  // ----- counts per label set -----

  /** A record as the counting sees it: its timestamp, whether the selector
      keeps it, and the label set it is grouped under. */
  datatype Record = Record(ts: int, kept: bool, group: Labels)

  type Counts = map<Labels, nat>

  function Bump(c: Counts, l: Labels): Counts {
    c[l := (if l in c then c[l] else 0) + 1]
  }

  /** `svc_json_counts`. */
  function CountsOf(recs: seq<Record>): Counts {
    if recs == [] then map[]
    else
      var (before, r) := (CountsOf(recs[..|recs| - 1]), recs[|recs| - 1]);
      if r.kept then Bump(before, r.group) else before
  }

  /** The records inside the window at `t`. */
  function InWindow(g: Grid, t: int, recs: seq<Record>): seq<Record> {
    if recs == [] then []
    else InWindow(g, t, recs[..|recs| - 1]) + (if g.Covers(t, recs[|recs| - 1].ts) then [recs[|recs| - 1]] else [])
  }

  /** The records counted under `key` by the first `upTo` points: the windows of the points
      with that key, one after another. */
  function Gathered(g: Grid, recs: seq<Record>, upTo: nat, key: int): seq<Record> {
    if upTo == 0 then []
    else
      var t := g.Point(upTo - 1);
      Gathered(g, recs, upTo - 1, key) + if KeyMs(t) == key then InWindow(g, t, recs) else []
  }

  /** `counts` holds, for every key, the counts of what is gathered under it. */
  ghost predicate AreWindowCounts(g: Grid, recs: seq<Record>, upTo: nat, counts: map<int, Counts>) {
    forall key :: CountsUnder(Gathered(g, recs, upTo, key), counts, key)
  }

  predicate CountsUnder(recs: seq<Record>, counts: map<int, Counts>, key: int) {
    Lookup(counts, key) == CountsOf(recs) && (key in counts <==> CountsOf(recs) != map[])
  }

  /** Nothing but the entry of `except` differs. */
  ghost predicate SameExcept(before: map<int, Counts>, counts: map<int, Counts>, except: int) {
    forall key :: key != except ==> (key in counts <==> key in before) && Lookup(counts, key) == Lookup(before, key)
  }

  function Lookup(counts: map<int, Counts>, key: int): Counts {
    if key in counts then counts[key] else map[]
  }

  /** `svc_json_window_counts`. */
  method WindowCounts(g: Grid, recs: seq<Record>) returns (counts: map<int, Counts>)
    ensures AreWindowCounts(g, recs, g.Size(), counts)
  {
    hide KeyMs, CountsOf, InWindow, Gathered;
    counts := map[];
    NothingGathered(g, recs);
    for k := 0 to g.Size()
      invariant AreWindowCounts(g, recs, k, counts)
    {
      var t := g.Point(k);
      ghost var (before, had) := (counts, Gathered(g, recs, k, KeyMs(t)));
      NoRecords(g, t);
      assert had + [] == had;
      for i := 0 to |recs|
        invariant SameExcept(before, counts, KeyMs(t))
        invariant CountsUnder(had + InWindow(g, t, recs[..i]), counts, KeyMs(t))
      {
        var r := recs[i];
        OneMoreRecord(g, t, had, recs[..i], r);
        assert recs[..i + 1] == recs[..i] + [r];
        if r.kept && g.Covers(t, r.ts) {
          counts := counts[KeyMs(t) := Bump(Lookup(counts, KeyMs(t)), r.group)];
        }
      }
      assert recs[..|recs|] == recs;
      KeepOthers(g, recs, k, before, counts);
    }
  }

  lemma NothingGathered(g: Grid, recs: seq<Record>)
    ensures AreWindowCounts(g, recs, 0, map[])
  {
    forall key ensures CountsUnder(Gathered(g, recs, 0, key), map[], key) {
      assert Gathered(g, recs, 0, key) == [];
    }
  }

  lemma NoRecords(g: Grid, t: int)
    ensures InWindow(g, t, []) == []
  {
  }

  lemma OneMoreRecord(g: Grid, t: int, had: seq<Record>, recs: seq<Record>, r: Record)
    ensures var before := CountsOf(had + InWindow(g, t, recs));
      && CountsOf(had + InWindow(g, t, recs + [r]))
         == (if r.kept && g.Covers(t, r.ts) then Bump(before, r.group) else before)
      && Bump(before, r.group) != map[]
  {
    hide Bump;
    assert (recs + [r])[..|recs|] == recs;
    var w := had + InWindow(g, t, recs);
    assert had + (InWindow(g, t, recs) + [r]) == w + [r];
    assert (w + [r])[..|w|] == w;
    assert had + (InWindow(g, t, recs) + []) == w;
    assert Bump(CountsOf(w), r.group) != map[] by { BumpNotEmpty(CountsOf(w), r.group); }
  }

  lemma BumpNotEmpty(counts: Counts, group: Labels)
    ensures Bump(counts, group) != map[]
  {
    assert group in Bump(counts, group);
  }

  lemma KeepOthers(g: Grid, recs: seq<Record>, k: nat, before: map<int, Counts>, counts: map<int, Counts>)
    requires AreWindowCounts(g, recs, k, before)
    requires var t := g.Point(k); CountsUnder(Gathered(g, recs, k, KeyMs(t)) + InWindow(g, t, recs), counts, KeyMs(t))
    requires SameExcept(before, counts, KeyMs(g.Point(k)))
    ensures AreWindowCounts(g, recs, k + 1, counts)
  {
    hide KeyMs, CountsOf, InWindow;
    var n := k + 1;
    forall key ensures CountsUnder(Gathered(g, recs, n, key), counts, key) {
      assert CountsUnder(Gathered(g, recs, k, key), before, key);
      assert Gathered(g, recs, k, key) + [] == Gathered(g, recs, k, key);
    }
  }

  lemma GatheredStep(g: Grid, recs: seq<Record>, upTo: nat, key: int)
    ensures Gathered(g, recs, 0, key) == []
    ensures Gathered(g, recs, upTo + 1, key)
         == Gathered(g, recs, upTo, key) + if KeyMs(g.Point(upTo)) == key then InWindow(g, g.Point(upTo), recs) else []
  {
    hide KeyMs, InWindow;
  }

  /** On a grid of at least a millisecond a point's key gathers exactly its own window. */
  lemma {:induction false} GatheredIsWindow(g: Grid, recs: seq<Record>, upTo: nat, k: nat)
    requires g.stepNs >= 1_000_000
    ensures Gathered(g, recs, upTo, KeyMs(g.Point(k))) == if k < upTo then InWindow(g, g.Point(k), recs) else []
  {
    hide KeyMs, InWindow, Gathered;
    var key := KeyMs(g.Point(k));
    GatheredStep(g, recs, if upTo > 0 then upTo - 1 else 0, key);
    if upTo > 0 {
      GatheredIsWindow(g, recs, upTo - 1, k);
      if k < upTo - 1 { KeysApart(g, k, upTo - 1); }
      if upTo - 1 < k { KeysApart(g, upTo - 1, k); }
      var w := InWindow(g, g.Point(k), recs);
      assert w + [] == w && [] + w == w;
    }
  }

  // ----- the range matrix -----

  type Matrix<W> = map<Labels, map<int, W>>

  /** The listing of a counts map, in whatever fixed order the map iterates. */
  type Listing = Counts -> seq<Row<nat>>

  ghost predicate Lists(items: Listing) {
    forall c :: DistinctLabels(items(c)) && (c == map[] <==> items(c) == [])
      && forall l, n :: (l, n) in items(c) <==> l in c && c[l] == n
  }

  /** Some listing: any entry first, then the rest. */
  ghost function ListOf(c: Counts): seq<Row<nat>>
    decreases |c|
  {
    if c == map[] then []
    else
      var l :| l in c;
      assert (c - {l}).Keys == c.Keys - {l};
      [(l, c[l])] + ListOf(c - {l})
  }

  lemma {:induction false} ListOfLists(c: Counts)
    ensures DistinctLabels(ListOf(c)) && (c == map[] <==> ListOf(c) == [])
    ensures forall l, n :: (l, n) in ListOf(c) <==> l in c && c[l] == n
    decreases |c|
  {
    if c != map[] {
      var first := ListOf(c)[0];
      var rest := c - {first.0};
      assert rest.Keys == c.Keys - {first.0};
      ListOfLists(rest);
      assert ListOf(c) == [first] + ListOf(rest);
      forall i | 0 <= i < |ListOf(rest)| ensures ListOf(rest)[i].0 != first.0 {
        var (l, n) := ListOf(rest)[i];
        assert (l, n) in ListOf(rest);
      }
    }
  }

  /** A map does have a listing. */
  lemma ListingExists()
    ensures Lists(ListOf)
  {
    hide ListOf, DistinctLabels;
    forall c: Counts
      ensures DistinctLabels(ListOf(c)) && (c == map[] <==> ListOf(c) == [])
      ensures forall l, n :: (l, n) in ListOf(c) <==> l in c && c[l] == n
    {
      ListOfLists(c);
    }
  }

  predicate HasCell<W>(out: Matrix<W>, l: Labels, key: int) {
    l in out && key in out[l]
  }

  /** Column `key` of the matrix is exactly `rows`. */
  ghost predicate Column<W>(out: Matrix<W>, key: int, rows: seq<Row<W>>) {
    && (forall i :: 0 <= i < |rows| ==> HasCell(out, rows[i].0, key) && Cell(out, rows[i].0, key) == rows[i].1)
    && (forall l :: HasCell(out, l, key) ==> exists i :: 0 <= i < |rows| && rows[i].0 == l)
  }

  /** The rows of one step point inserted under its key. */
  method InsertColumn<W>(out: Matrix<W>, key: int, rows: seq<Row<W>>) returns (next: Matrix<W>)
    requires DistinctLabels(rows) && forall l :: !HasCell(out, l, key)
    ensures Column(next, key, rows) && Elsewhere(out, next, key)
  {
    hide HasCell, Column;
    next := out;
    ColumnNone(out, key);
    for i := 0 to |rows|
      invariant Column(next, key, rows[..i]) && Elsewhere(out, next, key)
    {
      var (l, v) := rows[i];
      assert rows[..i + 1] == rows[..i] + [rows[i]];
      ColumnSnoc(out, next, key, rows[..i], rows[i]);
      next := next[l := (if l in next then next[l] else map[])[key := v]];
    }
    assert rows[..|rows|] == rows;
  }

  /** Nothing but column `key` differs. */
  ghost predicate Elsewhere<W>(out: Matrix<W>, next: Matrix<W>, key: int) {
    && (forall l, b :: b != key ==> (HasCell(next, l, b) <==> HasCell(out, l, b)))
    && (forall l, b :: b != key && HasCell(next, l, b) && HasCell(out, l, b) ==> Cell(next, l, b) == Cell(out, l, b))
  }

  function Cell<W>(out: Matrix<W>, l: Labels, key: int): W
    requires HasCell(out, l, key)
  {
    out[l][key]
  }

  lemma ColumnNone<W>(out: Matrix<W>, key: int)
    requires forall l :: !HasCell(out, l, key)
    ensures Column(out, key, [])
  {
  }

  lemma ColumnSnoc<W>(out: Matrix<W>, next: Matrix<W>, key: int, rows: seq<Row<W>>, row: Row<W>)
    requires Column(next, key, rows) && Elsewhere(out, next, key)
    requires forall i :: 0 <= i < |rows| ==> rows[i].0 != row.0
    ensures var after := next[row.0 := (if row.0 in next then next[row.0] else map[])[key := row.1]];
      Column(after, key, rows + [row]) && Elsewhere(out, after, key)
  {
    var after := next[row.0 := (if row.0 in next then next[row.0] else map[])[key := row.1]];
    var more := rows + [row];
    assert more[|rows|] == row && forall i :: 0 <= i < |rows| ==> more[i] == rows[i];
    forall l | HasCell(after, l, key) ensures exists i :: 0 <= i < |more| && more[i].0 == l {
      if l == row.0 {
        assert more[|rows|].0 == l;
      } else {
        assert HasCell(next, l, key);
        var i :| 0 <= i < |rows| && rows[i].0 == l;
        assert more[i].0 == l;
      }
    }
  }

  // ----- the join at every step point -----

  /** The instant join over the records of the window at `t`. */
  ghost function JoinAt<W>(g: Grid, items: Listing, m: Matching, op: (nat, nat) -> W, lhs: seq<Record>,
                           rhs: seq<Record>, t: int): seq<Row<W>>
  {
    Join(m, op, items(CountsOf(InWindow(g, t, lhs))), items(CountsOf(InWindow(g, t, rhs))))
  }

  ghost predicate DefinedAt(g: Grid, items: Listing, m: Matching, lhs: seq<Record>, rhs: seq<Record>, t: int) {
    Defined(m, items(CountsOf(InWindow(g, t, lhs))), items(CountsOf(InWindow(g, t, rhs))))
  }

  /** The instant join over the records gathered under one key. */
  ghost function JoinUnder<W>(g: Grid, items: Listing, m: Matching, op: (nat, nat) -> W, lhs: seq<Record>,
                              rhs: seq<Record>, b: int): seq<Row<W>>
  {
    Join(m, op, items(CountsOf(Gathered(g, lhs, g.Size(), b))), items(CountsOf(Gathered(g, rhs, g.Size(), b))))
  }

  ghost predicate DefinedUnder(g: Grid, items: Listing, m: Matching, lhs: seq<Record>, rhs: seq<Record>, b: int) {
    Defined(m, items(CountsOf(Gathered(g, lhs, g.Size(), b))), items(CountsOf(Gathered(g, rhs, g.Size(), b))))
  }

  /** Columns are filled exactly for the keys in `done`. */
  ghost predicate Filled<W>(g: Grid, items: Listing, m: Matching, op: (nat, nat) -> W, lhs: seq<Record>,
                            rhs: seq<Record>, done: set<int>, out: Matrix<W>)
  {
    && (forall b :: b in done ==> Column(out, b, JoinUnder(g, items, m, op, lhs, rhs, b)))
    && (forall b :: b in done ==> DefinedUnder(g, items, m, lhs, rhs, b))
    && (forall l, b :: HasCell(out, l, b) ==> b in done)
  }

  /** The join arm of `expected_metric_matrix`: column by column, the matrix holds exactly the
      instant join over the records gathered under the key. */
  method RangeJoin<W>(g: Grid, items: Listing, m: Matching, op: (nat, nat) -> W, lhs: seq<Record>, rhs: seq<Record>)
    returns (r: Option<Matrix<W>>)
    requires Lists(items)
    ensures r.Some? <==> forall b :: DefinedUnder(g, items, m, lhs, rhs, b)
    ensures r.Some? ==> forall b :: Column(r.value, b, JoinUnder(g, items, m, op, lhs, rhs, b))
  {
    hide CountsOf, Gathered, Join, HasCell, Column, Defined, DistinctLabels, DefinedUnder, JoinUnder, CountsUnder;
    var left := WindowCounts(g, lhs);
    var right := WindowCounts(g, rhs);
    var all := left.Keys + right.Keys;
    var buckets := all;
    var out: Matrix<W> := map[];
    EmptyMatrix(out);
    while buckets != {}
      invariant buckets <= all && Filled(g, items, m, op, lhs, rhs, all - buckets, out)
      decreases buckets
    {
      SomeKey(buckets);
      var b :| b in buckets;
      SidesUnder(g, items, m, op, lhs, rhs, left, right, b);
      var joined := JoinByConstruction(m, op, items(Lookup(left, b)), items(Lookup(right, b)));
      if joined.None? { return None; }
      DistinctUnder(g, items, m, op, lhs, rhs, b);
      var next := InsertColumn(out, b, joined.value);
      FillStep(g, items, m, op, lhs, rhs, all - buckets, out, b, next);
      out := next;
      assert all - (buckets - {b}) == all - buckets + {b};
      buckets := buckets - {b};
    }
    assert all - {} == all;
    forall b ensures DefinedUnder(g, items, m, lhs, rhs, b) && Column(out, b, JoinUnder(g, items, m, op, lhs, rhs, b)) {
      if b !in all {
        SidesUnder(g, items, m, op, lhs, rhs, left, right, b);
        NothingUnder(m, op, items(Lookup(left, b)), items(Lookup(right, b)), b, out);
      }
    }
    r := Some(out);
  }

  /** With a step of at least a millisecond, as the cases use, the column of every step point is
      the instant join over that point's own window. */
  lemma JoinPerPoint<W>(g: Grid, items: Listing, m: Matching, op: (nat, nat) -> W, lhs: seq<Record>,
                        rhs: seq<Record>, k: nat)
    requires g.stepNs >= 1_000_000 && k < g.Size()
    ensures JoinUnder(g, items, m, op, lhs, rhs, KeyMs(g.Point(k))) == JoinAt(g, items, m, op, lhs, rhs, g.Point(k))
    ensures DefinedUnder(g, items, m, lhs, rhs, KeyMs(g.Point(k))) <==> DefinedAt(g, items, m, lhs, rhs, g.Point(k))
  {
    hide KeyMs, CountsOf, InWindow, Gathered, Join, Defined;
    GatheredIsWindow(g, lhs, g.Size(), k);
    GatheredIsWindow(g, rhs, g.Size(), k);
  }

  /** Under a key the two sides hold the gathered counts. */
  lemma SidesUnder<W>(g: Grid, items: Listing, m: Matching, op: (nat, nat) -> W, lhs: seq<Record>, rhs: seq<Record>,
                      left: map<int, Counts>, right: map<int, Counts>, b: int)
    requires Lists(items) && AreWindowCounts(g, lhs, g.Size(), left) && AreWindowCounts(g, rhs, g.Size(), right)
    ensures JoinUnder(g, items, m, op, lhs, rhs, b) == Join(m, op, items(Lookup(left, b)), items(Lookup(right, b)))
    ensures DefinedUnder(g, items, m, lhs, rhs, b) <==> Defined(m, items(Lookup(left, b)), items(Lookup(right, b)))
    ensures b !in left ==> items(Lookup(left, b)) == []
  {
    hide CountsOf, Gathered, Join, Defined, DistinctLabels;
    assert CountsUnder(Gathered(g, lhs, g.Size(), b), left, b) && CountsUnder(Gathered(g, rhs, g.Size(), b), right, b);
  }

  lemma SomeKey(keys: set<int>)
    requires keys != {}
    ensures exists b :: b in keys
  {
    assert (forall b :: b !in keys) ==> keys == {};
  }

  lemma EmptyMatrix<W>(out: Matrix<W>)
    requires out == map[]
    ensures forall l, b :: !HasCell(out, l, b)
  {
  }

  lemma DistinctUnder<W>(g: Grid, items: Listing, m: Matching, op: (nat, nat) -> W, lhs: seq<Record>,
                         rhs: seq<Record>, b: int)
    requires Lists(items) && DefinedUnder(g, items, m, lhs, rhs, b)
    ensures DistinctLabels(JoinUnder(g, items, m, op, lhs, rhs, b))
  {
    hide Defined, Join, DistinctLabels, CountsOf, Gathered;
    var (l, r) := (items(CountsOf(Gathered(g, lhs, g.Size(), b))), items(CountsOf(Gathered(g, rhs, g.Size(), b))));
    assert DistinctLabels(l) && DistinctLabels(r);
    OutputsDistinct(m, op, l, r);
  }

  lemma FillStep<W>(g: Grid, items: Listing, m: Matching, op: (nat, nat) -> W, lhs: seq<Record>, rhs: seq<Record>,
                    done: set<int>, out: Matrix<W>, b: int, next: Matrix<W>)
    requires Filled(g, items, m, op, lhs, rhs, done, out) && b !in done && Elsewhere(out, next, b)
    requires Column(next, b, JoinUnder(g, items, m, op, lhs, rhs, b)) && DefinedUnder(g, items, m, lhs, rhs, b)
    ensures Filled(g, items, m, op, lhs, rhs, done + {b}, next)
  {
    hide HasCell, JoinUnder, DefinedUnder;
    forall c | c in done ensures Column(next, c, JoinUnder(g, items, m, op, lhs, rhs, c)) {
      assert Column(out, c, JoinUnder(g, items, m, op, lhs, rhs, c));
    }
  }

  lemma NothingUnder<W>(m: Matching, op: (nat, nat) -> W, lhs: seq<Row<nat>>, rhs: seq<Row<nat>>, b: int,
                        out: Matrix<W>)
    requires lhs == [] && forall l :: !HasCell(out, l, b)
    ensures Defined(m, lhs, rhs) && Column(out, b, Join(m, op, lhs, rhs))
  {
    hide HasCell, Join;
    EmptyJoin(m, op, lhs, rhs);
  }
}
