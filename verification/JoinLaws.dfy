/** What the vector-matching oracle of `e2e/src/logs_corpus.rs` matches and
    counts, said of the label sets and records themselves: without signatures,
    indexes or loops. */
module JoinLaws {
  import opened Common
  import opened RangeGrid
  import opened VectorJoin

  // ----- which rows match -----

  /** The two label sets say the same of `k`: the same value, or nothing. */
  predicate SameAt(a: Labels, b: Labels, k: string) {
    (k in a && k in b && a[k] == b[k]) || (k !in a && k !in b)
  }

  /** `on(keys)` compares the listed labels, `ignoring(keys)` all the others. */
  ghost predicate Agree(m: Matching, a: Labels, b: Labels) {
    if m.on then forall k :: k in m.keys ==> SameAt(a, b, k)
    else forall k :: k !in m.keys ==> SameAt(a, b, k)
  }

  /** `out` is what the matching compares of `row`: the listed labels it has, or the others. */
  ghost predicate Reduced(m: Matching, row: Labels, out: Labels) {
    if m.on then forall k :: if k in m.keys then SameAt(row, out, k) else k !in out
    else forall k :: if k in m.keys then k !in out else SameAt(row, out, k)
  }

  lemma SigReduces(m: Matching, row: Labels)
    ensures Reduced(m, row, Sig(m, row))
  {
  }

  /** Equal signatures are agreement. */
  lemma SigsAgree(m: Matching, a: Labels, b: Labels)
    ensures Sig(m, a) == Sig(m, b) <==> Agree(m, a, b)
  {
    if Sig(m, a) == Sig(m, b) {
      forall k | m.on == (k in m.keys) ensures SameAt(a, b, k) { SigAt(m, a, k); SigAt(m, b, k); }
    }
    if Agree(m, a, b) {
      forall k ensures SameAt(Sig(m, a), Sig(m, b), k) {
        SigAt(m, a, k);
        SigAt(m, b, k);
        assert m.on == (k in m.keys) ==> SameAt(a, b, k);
      }
      assert forall k :: k in Sig(m, a) <==> k in Sig(m, b) by {
        forall k ensures k in Sig(m, a) <==> k in Sig(m, b) { assert SameAt(Sig(m, a), Sig(m, b), k); }
      }
      forall k | k in Sig(m, a) ensures Sig(m, a)[k] == Sig(m, b)[k] { assert SameAt(Sig(m, a), Sig(m, b), k); }
    }
  }

  lemma SigAt(m: Matching, l: Labels, k: string)
    ensures k in Sig(m, l) <==> k in l && m.on == (k in m.keys)
    ensures k in Sig(m, l) ==> Sig(m, l)[k] == l[k]
  {
  }

  // ----- the join as a relation -----

  /** Pair `(i, j)` of left and right row, met in the order of the many side. */
  predicate Earlier(m: Matching, p: (nat, nat), q: (nat, nat)) {
    if m.grouping.Right? then p.1 < q.1 || (p.1 == q.1 && p.0 < q.0)
    else p.0 < q.0 || (p.0 == q.0 && p.1 < q.1)
  }

  ghost predicate Paired<V>(m: Matching, lhs: seq<Row<V>>, rhs: seq<Row<V>>, p: (nat, nat)) {
    p.0 < |lhs| && p.1 < |rhs| && Agree(m, lhs[p.0].0, rhs[p.1].0)
  }

  /** `pairs` lists the agreeing pairs, each once, in the order of the many side. */
  ghost predicate ListsPairs<V>(m: Matching, lhs: seq<Row<V>>, rhs: seq<Row<V>>, pairs: seq<(nat, nat)>) {
    && (forall p :: p in pairs <==> Paired(m, lhs, rhs, p))
    && (forall x, y :: 0 <= x < y < |pairs| ==> Earlier(m, pairs[x], pairs[y]))
  }

  /** The row of one pair: the left value first, under the reduced or the many side's labels. */
  ghost predicate RowOf<V, W>(m: Matching, op: (V, V) -> W, l: Row<V>, r: Row<V>, out: Row<W>) {
    && out.1 == op(l.1, r.1)
    && match m.grouping {
         case OneToOne => Reduced(m, l.0, out.0)
         case Left => out.0 == l.0
         case Right => out.0 == r.0
       }
  }

  ghost predicate RowsOf<V, W>(m: Matching, op: (V, V) -> W, lhs: seq<Row<V>>, rhs: seq<Row<V>>,
                               pairs: seq<(nat, nat)>, out: seq<Row<W>>)
    requires ListsPairs(m, lhs, rhs, pairs)
  {
    |out| == |pairs| && forall x :: 0 <= x < |out| ==>
      (assert Paired(m, lhs, rhs, pairs[x]); RowOf(m, op, lhs[pairs[x].0], rhs[pairs[x].1], out[x]))
  }

  /** The join is one row per agreeing pair. */
  lemma JoinIsRelational<V, W>(m: Matching, op: (V, V) -> W, lhs: seq<Row<V>>, rhs: seq<Row<V>>)
    returns (pairs: seq<(nat, nat)>)
    ensures ListsPairs(m, lhs, rhs, pairs) && RowsOf(m, op, lhs, rhs, pairs, Join(m, op, lhs, rhs))
  {
    hide NestedLoop, Agree, Emit;
    var (many, one) := (Many(m, lhs, rhs), One(m, lhs, rhs));
    var met := LoopPairs(m, op, many, one);
    var right := m.grouping.Right?;
    pairs := seq(|met|, x requires 0 <= x < |met| => if right then (met[x].1, met[x].0) else met[x]);
    forall p: (nat, nat) ensures p in pairs <==> Paired(m, lhs, rhs, p) {
      var q := if right then (p.1, p.0) else p;
      PlaceIn(met, pairs, right, p);
      assert q in met <==> Meets(m, many, one, q);
      AgreeSymmetric(m, many, one, q);
    }
    forall x | 0 <= x < |met| ensures
      && Paired(m, lhs, rhs, pairs[x])
      && RowOf(m, op, lhs[pairs[x].0], rhs[pairs[x].1], Join(m, op, lhs, rhs)[x])
    {
      assert pairs[x] in pairs;
      EmitRow(m, op, many[met[x].0], one[met[x].1]);
    }
  }

  lemma PlaceIn(met: seq<(nat, nat)>, pairs: seq<(nat, nat)>, right: bool, p: (nat, nat))
    requires |pairs| == |met|
    requires forall x :: 0 <= x < |met| ==> pairs[x] == if right then (met[x].1, met[x].0) else met[x]
    ensures p in pairs <==> (if right then (p.1, p.0) else p) in met
  {
    var q := if right then (p.1, p.0) else p;
    if q in met {
      var x :| 0 <= x < |met| && met[x] == q;
      assert pairs[x] == p;
    }
  }

  lemma EmitRow<V, W>(m: Matching, op: (V, V) -> W, row: Row<V>, mate: Row<V>)
    ensures m.grouping.Right? ==> RowOf(m, op, mate, row, Emit(m, op, row, mate))
    ensures !m.grouping.Right? ==> RowOf(m, op, row, mate, Emit(m, op, row, mate))
  {
    hide Reduced;
    SigReduces(m, row.0);
  }

  /** Pair `(i, j)` of a many-side and a one-side row. */
  ghost predicate Meets<V>(m: Matching, many: seq<Row<V>>, one: seq<Row<V>>, q: (nat, nat)) {
    q.0 < |many| && q.1 < |one| && Agree(m, many[q.0].0, one[q.1].0)
  }

  lemma AgreeSymmetric<V>(m: Matching, many: seq<Row<V>>, one: seq<Row<V>>, q: (nat, nat))
    ensures Meets(m, many, one, q) <==> Meets(m, one, many, (q.1, q.0))
  {
  }

  predicate Before(p: (nat, nat), q: (nat, nat)) {
    p.0 < q.0 || (p.0 == q.0 && p.1 < q.1)
  }

  lemma {:induction false} LoopPairs<V, W>(m: Matching, op: (V, V) -> W, many: seq<Row<V>>, one: seq<Row<V>>)
    returns (met: seq<(nat, nat)>)
    ensures forall q :: q in met <==> Meets(m, many, one, q)
    ensures forall x, y :: 0 <= x < y < |met| ==> Before(met[x], met[y])
    ensures var out := NestedLoop(m, op, many, one);
      |out| == |met| && forall x :: 0 <= x < |out| ==>
        Meets(m, many, one, met[x]) && out[x] == Emit(m, op, many[met[x].0], one[met[x].1])
  {
    hide Emit, RowJoin, Agree;
    if many == [] {
      met := [];
    } else {
      var n := |many| - 1;
      var before := LoopPairs(m, op, many[..n], one);
      var mates := RowMates(m, op, many[n], one);
      var last := seq(|mates|, y requires 0 <= y < |mates| => (n, mates[y]));
      met := before + last;
      forall q: (nat, nat) ensures q in met <==> Meets(m, many, one, q) {
        LastRow(before, last, mates, n, q);
        assert q in before <==> Meets(m, many[..n], one, q);
        if q.0 < n { assert many[..n][q.0] == many[q.0]; }
      }
    }
  }

  lemma LastRow(before: seq<(nat, nat)>, last: seq<(nat, nat)>, mates: seq<nat>, n: nat, q: (nat, nat))
    requires |last| == |mates| && forall y :: 0 <= y < |mates| ==> last[y] == (n, mates[y])
    ensures q in before + last <==> q in before || (q.0 == n && q.1 in mates)
  {
    if q.0 == n && q.1 in mates {
      var y :| 0 <= y < |mates| && mates[y] == q.1;
      assert last[y] == q;
    }
  }

  lemma {:induction false} RowMates<V, W>(m: Matching, op: (V, V) -> W, row: Row<V>, one: seq<Row<V>>)
    returns (mates: seq<nat>)
    ensures forall j: nat :: j in mates <==> j < |one| && Agree(m, row.0, one[j].0)
    ensures forall x, y :: 0 <= x < y < |mates| ==> mates[x] < mates[y]
    ensures var out := RowJoin(m, op, row, one);
      |out| == |mates| && forall x :: 0 <= x < |out| ==>
        mates[x] < |one| && out[x] == Emit(m, op, row, one[mates[x]])
  {
    hide Emit, Sig, Agree;
    if one == [] {
      mates := [];
    } else {
      var n := |one| - 1;
      var before := RowMates(m, op, row, one[..n]);
      SigsAgree(m, row.0, one[n].0);
      mates := before + if Agree(m, row.0, one[n].0) then [n] else [];
      forall j: nat ensures j in mates <==> j < |one| && Agree(m, row.0, one[j].0) {
        assert j in before <==> j < n && Agree(m, row.0, one[..n][j].0);
      }
    }
  }

  // ----- when the join is defined -----

  /** No two rows of the one side agree. */
  ghost predicate OneSideApart<V>(m: Matching, one: seq<Row<V>>) {
    forall i, j :: 0 <= i < j < |one| ==> !Agree(m, one[i].0, one[j].0)
  }

  /** No two rows of the many side agree with one row of the one side. */
  ghost predicate NoSharedMate<V>(m: Matching, many: seq<Row<V>>, one: seq<Row<V>>) {
    forall i, j, k :: 0 <= i < j < |many| && 0 <= k < |one| ==>
      !(Agree(m, many[i].0, one[k].0) && Agree(m, many[j].0, one[k].0))
  }

  /** No assertion fires exactly when a side is empty, or the matching is many to one
      and, for a one-to-one matching, one to one. */
  lemma DefinedExactly<V>(m: Matching, lhs: seq<Row<V>>, rhs: seq<Row<V>>)
    ensures Defined(m, lhs, rhs) <==>
      || lhs == [] || rhs == []
      || match m.grouping {
           case Left => OneSideApart(m, rhs)
           case Right => OneSideApart(m, lhs)
           case OneToOne => OneSideApart(m, rhs) && NoSharedMate(m, lhs, rhs)
         }
  {
    hide DistinctSigs, OneSideApart, SingleMatches, NoSharedMate;
    Apart(m, lhs);
    Apart(m, rhs);
    Shared(m, lhs, rhs);
  }

  lemma Apart<V>(m: Matching, one: seq<Row<V>>)
    ensures DistinctSigs(m, one) <==> OneSideApart(m, one)
  {
    hide Sig, Agree;
    forall i, j | 0 <= i < j < |one|
      ensures Sig(m, one[i].0) == Sig(m, one[j].0) <==> Agree(m, one[i].0, one[j].0)
    {
      SigsAgree(m, one[i].0, one[j].0);
    }
  }

  lemma Shared<V>(m: Matching, many: seq<Row<V>>, one: seq<Row<V>>)
    ensures SingleMatches(m, many, one) <==> NoSharedMate(m, many, one)
  {
    hide Sig, Agree;
    forall i, k | 0 <= i < |many| && 0 <= k < |one|
      ensures Sig(m, many[i].0) == Sig(m, one[k].0) <==> Agree(m, many[i].0, one[k].0)
    {
      SigsAgree(m, many[i].0, one[k].0);
    }
    if SingleMatches(m, many, one) {
      forall i, j, k | 0 <= i < j < |many| && 0 <= k < |one|
        ensures !(Agree(m, many[i].0, one[k].0) && Agree(m, many[j].0, one[k].0))
      {
        assert Agree(m, many[i].0, one[k].0) ==> HasMate(m, many[i], one);
      }
    }
    if NoSharedMate(m, many, one) {
      forall i, j | 0 <= i < j < |many| && HasMate(m, many[i], one) ensures Sig(m, many[i].0) != Sig(m, many[j].0) {
        var k :| 0 <= k < |one| && Sig(m, one[k].0) == Sig(m, many[i].0);
        assert !(Agree(m, many[i].0, one[k].0) && Agree(m, many[j].0, one[k].0));
      }
    }
  }

  // ----- `on` and `ignoring` -----

  ghost predicate KeysWithin<V>(rows: seq<Row<V>>, all: set<string>) {
    forall i :: 0 <= i < |rows| ==> rows[i].0.Keys <= all
  }

  /** `on(K)` is `ignoring` every other key that occurs. */
  lemma OnIsIgnoringTheRest<V, W>(keys: set<string>, all: set<string>, g: Grouping, op: (V, V) -> W,
                                  lhs: seq<Row<V>>, rhs: seq<Row<V>>)
    requires KeysWithin(lhs, all) && KeysWithin(rhs, all)
    ensures var (on, ignoring) := (Matching(true, keys, g), Matching(false, all - keys, g));
      && Join(on, op, lhs, rhs) == Join(ignoring, op, lhs, rhs)
      && (Defined(on, lhs, rhs) <==> Defined(ignoring, lhs, rhs))
  {
    var (on, ignoring) := (Matching(true, keys, g), Matching(false, all - keys, g));
    hide Sig;
    forall i | 0 <= i < |lhs| ensures Sig(on, lhs[i].0) == Sig(ignoring, lhs[i].0) {
      SameSig(keys, all, g, lhs[i].0);
    }
    forall i | 0 <= i < |rhs| ensures Sig(on, rhs[i].0) == Sig(ignoring, rhs[i].0) {
      SameSig(keys, all, g, rhs[i].0);
    }
    SameLoop(on, ignoring, op, Many(on, lhs, rhs), One(on, lhs, rhs));
  }

  lemma SameSig(keys: set<string>, all: set<string>, g: Grouping, l: Labels)
    requires l.Keys <= all
    ensures Sig(Matching(true, keys, g), l) == Sig(Matching(false, all - keys, g), l)
  {
  }

  lemma {:induction false} SameLoop<V, W>(m: Matching, m': Matching, op: (V, V) -> W, many: seq<Row<V>>,
                                          one: seq<Row<V>>)
    requires m.grouping == m'.grouping
    requires forall i :: 0 <= i < |many| ==> Sig(m, many[i].0) == Sig(m', many[i].0)
    requires forall i :: 0 <= i < |one| ==> Sig(m, one[i].0) == Sig(m', one[i].0)
    ensures NestedLoop(m, op, many, one) == NestedLoop(m', op, many, one)
  {
    hide Sig, RowJoin;
    if many != [] {
      SameLoop(m, m', op, many[..|many| - 1], one);
      SameRow(m, m', op, many[|many| - 1], one);
    }
  }

  lemma {:induction false} SameRow<V, W>(m: Matching, m': Matching, op: (V, V) -> W, row: Row<V>, one: seq<Row<V>>)
    requires m.grouping == m'.grouping && Sig(m, row.0) == Sig(m', row.0)
    requires forall i :: 0 <= i < |one| ==> Sig(m, one[i].0) == Sig(m', one[i].0)
    ensures RowJoin(m, op, row, one) == RowJoin(m', op, row, one)
  {
    hide Sig;
    if one != [] { SameRow(m, m', op, row, one[..|one| - 1]); }
  }

  // ----- what is counted -----

  /** The positions of the kept records grouped under `l`. */
  function Kept(recs: seq<Record>, l: Labels): set<nat> {
    set i: nat | i < |recs| && Wanted(recs[i], l)
  }

  predicate Wanted(r: Record, l: Labels) { r.kept && r.group == l }

  /** A label set is counted exactly when a kept record is grouped under it, once per record. */
  lemma {:induction false} CountsAreCounts(recs: seq<Record>, l: Labels)
    ensures l in CountsOf(recs) <==> Kept(recs, l) != {}
    ensures l in CountsOf(recs) ==> CountsOf(recs)[l] == |Kept(recs, l)|
  {
    hide Kept;
    if recs == [] {
      NoneKept(l);
    } else {
      CountsAreCounts(recs[..|recs| - 1], l);
      KeptSnoc(recs, l);
    }
  }

  lemma NoneKept(l: Labels)
    ensures Kept([], l) == {}
  {
  }

  lemma KeptSnoc(recs: seq<Record>, l: Labels)
    requires recs != []
    ensures var (n, r) := (|recs| - 1, recs[|recs| - 1]);
      |Kept(recs, l)| == |Kept(recs[..n], l)| + if Wanted(r, l) then 1 else 0
  {
    hide Wanted;
    var n: nat := |recs| - 1;
    assert Kept(recs, l) == Kept(recs[..n], l) + if Wanted(recs[n], l) then {n} else {};
    assert n !in Kept(recs[..n], l);
  }

  /** The pairs of a point with that key and a kept record of its window grouped under `l`. */
  function Tallied(g: Grid, recs: seq<Record>, upTo: nat, key: int, l: Labels): set<(nat, nat)> {
    set k: nat, i: nat | k < upTo && KeyMs(g.Point(k)) == key && i in KeptIn(g, g.Point(k), recs, l) :: (k, i)
  }

  function KeptIn(g: Grid, t: int, recs: seq<Record>, l: Labels): set<nat> {
    set i: nat | i < |recs| && WantedAt(g, t, recs[i], l)
  }

  predicate WantedAt(g: Grid, t: int, r: Record, l: Labels) { g.Covers(t, r.ts) && Wanted(r, l) }

  /** The count of a label set under a key is the number of pairs of a step point with that
      key and a kept record its window covers; with none it is not in the map. */
  lemma WindowCountsExact(g: Grid, recs: seq<Record>, counts: map<int, Counts>, key: int, l: Labels)
    requires AreWindowCounts(g, recs, g.Size(), counts)
    ensures var pairs := Tallied(g, recs, g.Size(), key, l);
      && (key in counts && l in counts[key] <==> pairs != {})
      && (key in counts && l in counts[key] ==> counts[key][l] == |pairs|)
  {
    hide CountsOf, Gathered, Tallied, Kept;
    var under := Gathered(g, recs, g.Size(), key);
    assert CountsUnder(under, counts, key);
    CountsAreCounts(under, l);
    GatheredTally(g, recs, g.Size(), key, l);
  }

  lemma {:induction false} GatheredTally(g: Grid, recs: seq<Record>, upTo: nat, key: int, l: Labels)
    ensures |Kept(Gathered(g, recs, upTo, key), l)| == |Tallied(g, recs, upTo, key, l)|
  {
    hide Kept, Tallied, KeptIn, InWindow, KeyMs;
    if upTo == 0 {
      NoneKept(l);
      NoneTallied(g, recs, key, l);
    } else {
      var t := g.Point(upTo - 1);
      var before := Gathered(g, recs, upTo - 1, key);
      GatheredTally(g, recs, upTo - 1, key, l);
      TallySnoc(g, recs, upTo - 1, key, l);
      if KeyMs(t) == key {
        KeptJoin(before, InWindow(g, t, recs), l);
        WindowKept(g, t, recs, l);
      } else {
        assert before + [] == before;
      }
    }
  }

  lemma NoneTallied(g: Grid, recs: seq<Record>, key: int, l: Labels)
    ensures Tallied(g, recs, 0, key, l) == {}
  {
  }

  /** Positions add up over a concatenation. */
  lemma {:induction false} KeptJoin(a: seq<Record>, b: seq<Record>, l: Labels)
    ensures |Kept(a + b, l)| == |Kept(a, l)| + |Kept(b, l)|
  {
    hide Kept;
    if b == [] {
      assert a + b == a;
      NoneKept(l);
    } else {
      KeptJoin(a, b[..|b| - 1], l);
      assert (a + b)[..|a + b| - 1] == a + b[..|b| - 1];
      KeptSnoc(a + b, l);
      KeptSnoc(b, l);
    }
  }

  lemma {:induction false} WindowKept(g: Grid, t: int, recs: seq<Record>, l: Labels)
    ensures |Kept(InWindow(g, t, recs), l)| == |KeptIn(g, t, recs, l)|
  {
    hide Kept, KeptIn;
    KeptInSnoc(g, t, recs, l);
    if recs == [] {
      NoneKept(l);
    } else {
      var (w, r) := (InWindow(g, t, recs[..|recs| - 1]), recs[|recs| - 1]);
      WindowKept(g, t, recs[..|recs| - 1], l);
      assert (w + [r])[..|w|] == w && w + [] == w;
      KeptSnoc(w + [r], l);
    }
  }

  lemma KeptInSnoc(g: Grid, t: int, recs: seq<Record>, l: Labels)
    ensures recs == [] ==> KeptIn(g, t, recs, l) == {}
    ensures recs != [] ==>
      var (n, r) := (|recs| - 1, recs[|recs| - 1]);
      |KeptIn(g, t, recs, l)|
      == |KeptIn(g, t, recs[..n], l)| + if WantedAt(g, t, r, l) then 1 else 0
  {
    hide WantedAt;
    if recs != [] {
      var n: nat := |recs| - 1;
      assert KeptIn(g, t, recs, l) == KeptIn(g, t, recs[..n], l) + if WantedAt(g, t, recs[n], l) then {n} else {};
      assert n !in KeptIn(g, t, recs[..n], l);
    }
  }

  lemma TallySnoc(g: Grid, recs: seq<Record>, k: nat, key: int, l: Labels)
    ensures |Tallied(g, recs, k + 1, key, l)| == |Tallied(g, recs, k, key, l)|
         + if KeyMs(g.Point(k)) == key then |KeptIn(g, g.Point(k), recs, l)| else 0
  {
    hide KeptIn, KeyMs;
    var here := if KeyMs(g.Point(k)) == key then KeptIn(g, g.Point(k), recs, l) else {};
    var added := Tagged(k, here);
    assert Tallied(g, recs, k + 1, key, l) == Tallied(g, recs, k, key, l) + added;
    assert Tallied(g, recs, k, key, l) !! added;
    TaggedSize(k, here);
  }

  function Tagged(k: nat, s: set<nat>): set<(nat, nat)> {
    set i | i in s :: (k, i)
  }

  lemma {:induction false} TaggedSize(k: nat, s: set<nat>)
    ensures |Tagged(k, s)| == |s|
    decreases |s|
  {
    if s == {} {
      assert Tagged(k, s) == {};
    } else {
      assert (forall i :: i !in s) ==> s == {};
      var i: nat :| i in s;
      TaggedSize(k, s - {i});
      assert Tagged(k, s) == Tagged(k, s - {i}) + {(k, i)};
      assert (k, i) !in Tagged(k, s - {i});
    }
  }
}
