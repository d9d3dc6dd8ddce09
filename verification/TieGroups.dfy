/** The value-order comparison of `e2e/src/logs.rs` for sorted vectors:
    anchored tie groups under a tolerance that is not transitive, what an
    agreement of two stores then guarantees, and when it is exact. */
module TieGroups {
  import opened Common

  datatype Sample = Sample(labels: Labels, value: real)

  datatype TieGroup = TieGroup(start: nat, end: nat)

  function TenTo(k: nat): (r: real)
    ensures r > 0.0
  {
    if k == 0 then 1.0 else 10.0 * TenTo(k - 1)
  }

  const EPSILON: real := 0.000000001
  const TINY: real := 1.0 / TenTo(300)

  function Abs(x: real): real { if x < 0.0 then -x else x }

  function Max(x: real, y: real): real { if x < y then y else x }

  /** The magnitude a tolerance is relative to, never below 1e-300. */
  function Size(x: real): (r: real)
    ensures r > 0.0 && r >= Abs(x)
  {
    Max(Abs(x), TINY)
  }

  /** `approx_eq`. */
  predicate ApproxEq(a: real, b: real) {
    a == b || Abs(a - b) <= EPSILON * Max(Size(a), Size(b))
  }

  lemma ApproxSymmetric(a: real, b: real)
    ensures ApproxEq(a, b) <==> ApproxEq(b, a)
  {
    hide Size;
  }

  lemma ApproxAbove(x: real, step: real)
    requires x >= TINY && step >= 0.0
    ensures ApproxEq(x, x + step) <==> 999999999.0 * step <= x
  {
    assert TINY > 0.0;
    assert Max(Size(x), Size(x + step)) == x + step;
  }

  /** From 1e-300 up the tolerance is relative: one part in 999,999,999 of the smaller value. */
  lemma ToleranceIsRelative(x: real, d: real)
    requires x >= TINY && d >= 0.0
    ensures ApproxEq(x, x + d * x) <==> 999999999.0 * d <= 1.0
  {
    hide ApproxEq;
    assert x > 0.0 && d * x >= 0.0;
    ApproxAbove(x, d * x);
    TimesPositive(999999999.0 * d, 1.0, x);
    assert 999999999.0 * d * x == 999999999.0 * (d * x);
  }

  /** Below that it is absolute. */
  lemma ToleranceAtZero(d: real)
    requires d >= 0.0
    ensures ApproxEq(0.0, d) <==> d * TenTo(309) <= 1.0
  {
    hide TenTo;
    var big := TenTo(300);
    TenToSum(300, 9);
    TenToNine();
    assert TINY * big == 1.0;
    if d <= TINY {
      assert ApproxEq(0.0, d) <==> d * 1000000000.0 <= TINY;
      TimesPositive(d * 1000000000.0, TINY, big);
      assert d * 1000000000.0 * big == d * (big * 1000000000.0);
    } else {
      TimesPositive(TINY, d, big);
      assert d * (big * 1000000000.0) == d * big * 1000000000.0;
    }
  }

  lemma {:induction false} TenToSum(j: nat, k: nat)
    ensures TenTo(j + k) == TenTo(j) * TenTo(k)
  {
    if j > 0 { TenToSum(j - 1, k); }
  }

  lemma TenToNine()
    ensures TenTo(9) == 1000000000.0
  {
    assert TenTo(3) == 1000.0;
    TenToSum(3, 3);
    TenToSum(6, 3);
  }

  lemma TimesPositive(a: real, b: real, n: real)
    requires n > 0.0
    ensures a <= b <==> a * n <= b * n
  {
    assert (b - a) * n == b * n - a * n;
    if b < a { assert (a - b) * n > 0.0; } else { assert (b - a) * n >= 0.0; }
  }

  // ----- the groups -----

  function RunEnd(s: seq<Sample>, anchor: nat, end: nat): (e: nat)
    requires anchor < end <= |s|
    ensures end <= e <= |s|
    decreases |s| - end
  {
    if end < |s| && ApproxEq(s[anchor].value, s[end].value) then RunEnd(s, anchor, end + 1) else end
  }

  function Groups(s: seq<Sample>, from: nat): seq<TieGroup>
    decreases |s| - from
  {
    if from >= |s| then []
    else
      var end := RunEnd(s, from, from + 1);
      [TieGroup(from, end)] + Groups(s, end)
  }

  /** Contiguous and exhaustive from `from` to `n`. */
  predicate Partitions(groups: seq<TieGroup>, from: nat, n: nat) {
    if groups == [] then from == n
    else groups[0].start == from < groups[0].end <= n && Partitions(groups[1..], groups[0].end, n)
  }

  /** All of the group compares equal to its anchor, and the next element does not. */
  predicate AnchorMaximal(g: TieGroup, s: seq<Sample>) {
    && g.start < g.end <= |s|
    && (forall i :: g.start < i < g.end ==> ApproxEq(s[g.start].value, s[i].value))
    && (g.end < |s| ==> !ApproxEq(s[g.start].value, s[g.end].value))
  }

  predicate AllAnchored(groups: seq<TieGroup>, s: seq<Sample>) {
    forall k :: 0 <= k < |groups| ==> AnchorMaximal(groups[k], s)
  }

  lemma RunEndStep(s: seq<Sample>, anchor: nat, end: nat)
    requires anchor < end <= |s|
    ensures RunEnd(s, anchor, end)
         == if end < |s| && ApproxEq(s[anchor].value, s[end].value) then RunEnd(s, anchor, end + 1) else end
  {
    hide ApproxEq;
  }

  lemma GroupsStep(s: seq<Sample>, from: nat)
    requires from < |s|
    ensures var end := RunEnd(s, from, from + 1); Groups(s, from) == [TieGroup(from, end)] + Groups(s, end)
    ensures Groups(s, |s|) == []
  {
    hide RunEnd;
  }

  /** `tie_groups`. */
  method ComputeGroups(s: seq<Sample>) returns (out: seq<TieGroup>)
    ensures out == Groups(s, 0)
    ensures Partitions(out, 0, |s|) && AllAnchored(out, s)
  {
    hide ApproxEq, Groups, RunEnd, Partitions, AllAnchored;
    out := [];
    var start := 0;
    assert |s| == 0 ==> Groups(s, 0) == [] by { GroupsNone(s); }
    while start < |s|
      invariant start <= |s| && out + Groups(s, start) == Groups(s, 0)
    {
      var anchor := s[start].value;
      var end := start + 1;
      GroupsStep(s, start);
      RunEndStep(s, start, end);
      while end < |s| && ApproxEq(anchor, s[end].value)
        invariant start < end <= |s| && RunEnd(s, start, end) == RunEnd(s, start, start + 1)
      {
        RunEndStep(s, start, end);
        end := end + 1;
      }
      RunEndStep(s, start, end);
      assert out + ([TieGroup(start, end)] + Groups(s, end)) == (out + [TieGroup(start, end)]) + Groups(s, end);
      out := out + [TieGroup(start, end)];
      start := end;
    }
    GroupsNone(s);
    assert out + [] == out;
    GroupsPartition(s, 0);
  }

  lemma GroupsNone(s: seq<Sample>)
    ensures Groups(s, |s|) == []
  {
  }

  lemma {:induction false} RunEndAnchors(s: seq<Sample>, anchor: nat, end: nat)
    requires anchor < end <= |s| && forall i :: anchor < i < end ==> ApproxEq(s[anchor].value, s[i].value)
    ensures AnchorMaximal(TieGroup(anchor, RunEnd(s, anchor, end)), s)
    decreases |s| - end
  {
    hide ApproxEq;
    if end < |s| && ApproxEq(s[anchor].value, s[end].value) { RunEndAnchors(s, anchor, end + 1); }
  }

  /** The groups are a contiguous, exhaustive partition into anchor-maximal runs. */
  lemma {:induction false} GroupsPartition(s: seq<Sample>, from: nat)
    requires from <= |s|
    ensures Partitions(Groups(s, from), from, |s|) && AllAnchored(Groups(s, from), s)
    decreases |s| - from
  {
    hide ApproxEq;
    if from < |s| {
      RunEndAnchors(s, from, from + 1);
      GroupsPartition(s, RunEnd(s, from, from + 1));
    }
  }

  /** And they are the only one. */
  lemma {:induction false} PartitionUnique(s: seq<Sample>, from: nat, groups: seq<TieGroup>)
    requires from <= |s| && Partitions(groups, from, |s|) && AllAnchored(groups, s)
    ensures groups == Groups(s, from)
    decreases |groups|
  {
    hide ApproxEq;
    if groups == [] {
      assert from == |s|;
    } else {
      assert AnchorMaximal(groups[0], s);
      RunEndAnchors(s, from, from + 1);
      PartitionUnique(s, groups[0].end, groups[1..]);
    }
  }

  // ----- agreement of two stores -----

  function LabelsOf(s: seq<Sample>): (ls: seq<Labels>)
    ensures |ls| == |s|
  {
    seq(|s|, i requires 0 <= i < |s| => s[i].labels)
  }

  predicate SameSeries(g: TieGroup, p: seq<Sample>, o: seq<Sample>) {
    g.start <= g.end <= |p| && g.end <= |o|
    && multiset(LabelsOf(p[g.start..g.end])) == multiset(LabelsOf(o[g.start..g.end]))
  }

  predicate ValuesClose(p: seq<Sample>, o: seq<Sample>) {
    |p| == |o| && forall i :: 0 <= i < |p| ==> ApproxEq(p[i].value, o[i].value)
  }

  predicate Agree(p: seq<Sample>, o: seq<Sample>) {
    ValuesClose(p, o) && forall k :: 0 <= k < |Groups(p, 0)| ==> SameSeries(Groups(p, 0)[k], p, o)
  }

  datatype Disagreement = Length | ValueAt(i: nat) | Run(group: TieGroup)

  /** `value_ordered_sequences_agree`. */
  method CompareOrdered(p: seq<Sample>, o: seq<Sample>) returns (r: Result<(), Disagreement>)
    ensures r.Ok? <==> Agree(p, o)
    ensures r == Err(Length) <==> |p| != |o|
    ensures r.Err? && r.error.ValueAt? ==> r.error.i < |p| == |o| && !ApproxEq(p[r.error.i].value, o[r.error.i].value)
    ensures r.Err? && r.error.Run? ==>
      ValuesClose(p, o) && r.error.group in Groups(p, 0) && !SameSeries(r.error.group, p, o)
  {
    hide ApproxEq, Groups, LabelsOf, Partitions;
    if |p| != |o| { return Err(Length); }
    for i := 0 to |p|
      invariant forall j :: 0 <= j < i ==> ApproxEq(p[j].value, o[j].value)
    {
      if !ApproxEq(p[i].value, o[i].value) { return Err(ValueAt(i)); }
    }
    var groups := ComputeGroups(p);
    for k := 0 to |groups|
      invariant forall j :: 0 <= j < k ==> SameSeries(groups[j], p, o)
    {
      var g := groups[k];
      assert AnchorMaximal(g, p);
      if multiset(LabelsOf(p[g.start..g.end])) != multiset(LabelsOf(o[g.start..g.end])) { return Err(Run(g)); }
    }
    r := Ok(());
  }

  // ----- what agreement guarantees -----

  lemma LabelsSplit(s: seq<Sample>, a: nat, b: nat)
    requires a <= b <= |s|
    ensures multiset(LabelsOf(s[a..])) == multiset(LabelsOf(s[a..b])) + multiset(LabelsOf(s[b..]))
  {
    assert LabelsOf(s[a..]) == LabelsOf(s[a..b]) + LabelsOf(s[b..]);
  }

  lemma {:induction false} SameSeriesOverall(p: seq<Sample>, o: seq<Sample>, groups: seq<TieGroup>, from: nat)
    requires |p| == |o| && from <= |p| && Partitions(groups, from, |p|)
    requires forall k :: 0 <= k < |groups| ==> SameSeries(groups[k], p, o)
    ensures multiset(LabelsOf(p[from..])) == multiset(LabelsOf(o[from..]))
    decreases |groups|
  {
    if groups == [] {
      assert p[from..] == [] && o[from..] == [];
    } else {
      var end := groups[0].end;
      SameSeriesOverall(p, o, groups[1..], end);
      assert SameSeries(groups[0], p, o);
      LabelsSplit(p, from, end);
      LabelsSplit(o, from, end);
    }
  }

  /** Agreeing sequences hold the same multiset of series. */
  lemma AgreeSameSeries(p: seq<Sample>, o: seq<Sample>)
    requires Agree(p, o)
    ensures multiset(LabelsOf(p)) == multiset(LabelsOf(o))
  {
    GroupsPartition(p, 0);
    SameSeriesOverall(p, o, Groups(p, 0), 0);
    assert p[0..] == p && o[0..] == o;
  }

  /** The three tolerance steps that join a series' two values. */
  predicate Joined(x: real, anchor: real, y: real, z: real) {
    ApproxEq(anchor, x) && ApproxEq(anchor, y) && ApproxEq(y, z)
  }

  predicate Injective(mate: seq<nat>) {
    forall i, j :: 0 <= i < j < |mate| ==> mate[i] != mate[j]
  }

  /** `mate` pairs every position of `a` with its own position of `b` holding the same series. */
  predicate Pairs(mate: seq<nat>, a: seq<Labels>, b: seq<Labels>) {
    |mate| == |a| && Injective(mate) && forall i :: 0 <= i < |a| ==> mate[i] < |b| && b[mate[i]] == a[i]
  }

  lemma Without(b: seq<Labels>, j: nat)
    requires j < |b|
    ensures multiset(b[..j] + b[j + 1..]) == multiset(b) - multiset{b[j]}
  {
    assert b == b[..j] + [b[j]] + b[j + 1..];
  }

  lemma Snoc(a: seq<Labels>)
    requires a != []
    ensures multiset(a[..|a| - 1]) == multiset(a) - multiset{a[|a| - 1]}
  {
    assert a == a[..|a| - 1] + [a[|a| - 1]];
  }

  function Shift(j: nat, k: nat): nat { if k < j then k else k + 1 }

  /** A pairing of all but the last of `a` with all but position `j` of `b` extends to both. */
  lemma Extend(a: seq<Labels>, b: seq<Labels>, j: nat, rest: seq<nat>) returns (mate: seq<nat>)
    requires a != [] && j < |b| && b[j] == a[|a| - 1] && Pairs(rest, a[..|a| - 1], b[..j] + b[j + 1..])
    ensures Pairs(mate, a, b)
  {
    var less := b[..j] + b[j + 1..];
    mate := seq(|rest|, i requires 0 <= i < |rest| => Shift(j, rest[i])) + [j];
    forall i | 0 <= i < |a| ensures mate[i] < |b| && b[mate[i]] == a[i] {
      if i < |rest| { assert less[rest[i]] == b[Shift(j, rest[i])]; }
    }
  }

  /** Sequences with the same multiset can be paired off. */
  lemma {:induction false} Matching(a: seq<Labels>, b: seq<Labels>) returns (mate: seq<nat>)
    requires multiset(a) == multiset(b)
    ensures Pairs(mate, a, b)
    decreases |a|
  {
    hide Pairs;
    if a == [] {
      mate := [];
      assert Pairs(mate, a, b) by { PairsNone(b); }
    } else {
      var x := a[|a| - 1];
      assert x in multiset(b);
      var j :| 0 <= j < |b| && b[j] == x;
      Without(b, j);
      Snoc(a);
      var rest := Matching(a[..|a| - 1], b[..j] + b[j + 1..]);
      mate := Extend(a, b, j, rest);
    }
  }

  lemma PairsNone(b: seq<Labels>)
    ensures Pairs([], [], b)
  {
  }

  /** Positions `i` and `j` lie in one tie group. */
  predicate Together(groups: seq<TieGroup>, i: nat, j: nat) {
    exists k :: 0 <= k < |groups| && groups[k].start <= i < groups[k].end && groups[k].start <= j < groups[k].end
  }

  /** From position `from` on, `mate` pairs within the groups. */
  predicate PairsFrom(mate: seq<nat>, p: seq<Sample>, o: seq<Sample>, groups: seq<TieGroup>, from: nat) {
    && from + |mate| == |p| == |o| && Injective(mate)
    && forall i :: 0 <= i < |mate| ==> from <= mate[i] < |o| && PairedAt(p, o, groups, from + i, mate[i])
  }

  predicate PairedAt(p: seq<Sample>, o: seq<Sample>, groups: seq<TieGroup>, i: nat, j: nat) {
    i < |p| && j < |o| && o[j].labels == p[i].labels && Together(groups, i, j)
  }

  lemma GroupPairs(p: seq<Sample>, o: seq<Sample>, g: TieGroup) returns (mate: seq<nat>)
    requires SameSeries(g, p, o)
    ensures |mate| == g.end - g.start && Injective(mate)
    ensures forall i :: 0 <= i < |mate| ==> g.start <= mate[i] < g.end && o[mate[i]].labels == p[g.start + i].labels
  {
    var (a, b) := (LabelsOf(p[g.start..g.end]), LabelsOf(o[g.start..g.end]));
    var rest := Matching(a, b);
    assert |a| == |b| == g.end - g.start;
    mate := seq(|rest|, i requires 0 <= i < |rest| => g.start + rest[i]);
    forall i | 0 <= i < |mate| ensures o[mate[i]].labels == p[g.start + i].labels {
      assert b[rest[i]] == a[i];
    }
  }

  lemma {:induction false} PairGroups(p: seq<Sample>, o: seq<Sample>, groups: seq<TieGroup>, from: nat)
    returns (mate: seq<nat>)
    requires |p| == |o| && from <= |p| && Partitions(groups, from, |p|)
    requires forall k :: 0 <= k < |groups| ==> SameSeries(groups[k], p, o)
    ensures PairsFrom(mate, p, o, groups, from)
    decreases |groups|
  {
    hide SameSeries;
    if groups == [] {
      mate := [];
    } else {
      var g := groups[0];
      var first := GroupPairs(p, o, g);
      var rest := PairGroups(p, o, groups[1..], g.end);
      mate := first + rest;
      forall i | 0 <= i < |mate| ensures from <= mate[i] < |o| && PairedAt(p, o, groups, from + i, mate[i]) {
        if i < |first| {
          assert groups[0].start <= from + i < groups[0].end;
        } else {
          assert PairedAt(p, o, groups[1..], g.end + (i - |first|), rest[i - |first|]);
          TogetherLater(groups, from + i, mate[i]);
        }
      }
    }
  }

  lemma TogetherLater(groups: seq<TieGroup>, i: nat, j: nat)
    requires groups != [] && Together(groups[1..], i, j)
    ensures Together(groups, i, j)
  {
    var rest := groups[1..];
    var k :| 0 <= k < |rest| && rest[k].start <= i < rest[k].end && rest[k].start <= j < rest[k].end;
    assert groups[k + 1] == rest[k];
  }

  /** Series `i` of the one store is series `j` of the other: the labels agree, the values are
      joined through the anchor of a tie group and lie within four tolerances. */
  predicate Mates(p: seq<Sample>, o: seq<Sample>, i: nat, j: nat) {
    && i < |p| && j < |o| && j < |p| && o[j].labels == p[i].labels
    && (exists a :: 0 <= a < |p| && Joined(p[i].value, p[a].value, p[j].value, o[j].value))
    && Abs(p[i].value - o[j].value) <= 4.0 * EPSILON * Size(p[i].value)
  }

  /** Positions of one group are joined through its anchor. */
  lemma JoinedInGroup(p: seq<Sample>, o: seq<Sample>, g: TieGroup, i: nat, j: nat)
    requires ValuesClose(p, o) && AnchorMaximal(g, p) && g.start <= i < g.end && g.start <= j < g.end
    ensures Joined(p[i].value, p[g.start].value, p[j].value, o[j].value)
  {
    hide ApproxEq;
    ApproxReflexive(p[g.start].value);
  }

  lemma MatesTogether(p: seq<Sample>, o: seq<Sample>, i: nat, j: nat)
    requires Agree(p, o) && PairedAt(p, o, Groups(p, 0), i, j)
    ensures Mates(p, o, i, j)
  {
    hide Joined, AnchorMaximal, ValuesClose, Size, Abs, Groups, SameSeries, Partitions;
    var groups := Groups(p, 0);
    GroupsPartition(p, 0);
    var k :| 0 <= k < |groups| && groups[k].start <= i < groups[k].end && groups[k].start <= j < groups[k].end;
    MatesInGroup(p, o, groups[k], i, j);
  }

  lemma MatesInGroup(p: seq<Sample>, o: seq<Sample>, g: TieGroup, i: nat, j: nat)
    requires ValuesClose(p, o) && AnchorMaximal(g, p) && g.start <= i < g.end && g.start <= j < g.end
    requires i < |p| && j < |o| && o[j].labels == p[i].labels
    ensures Mates(p, o, i, j)
  {
    hide Joined, Size, Abs, ApproxEq;
    JoinedInGroup(p, o, g, i, j);
    ThreeSteps(p[i].value, p[g.start].value, p[j].value, o[j].value);
  }

  /** Agreement pairs the series of the two stores off, one to one and within the tie groups;
      paired values are joined by at most three tolerance steps. */
  lemma AgreeJoins(p: seq<Sample>, o: seq<Sample>) returns (mate: seq<nat>)
    requires Agree(p, o)
    ensures |mate| == |p| == |o| && Injective(mate)
    ensures forall i :: 0 <= i < |p| ==> Together(Groups(p, 0), i, mate[i]) && Mates(p, o, i, mate[i])
  {
    hide ApproxEq, Groups, SameSeries, Mates, Together;
    GroupsPartition(p, 0);
    mate := PairGroups(p, o, Groups(p, 0), 0);
    forall i | 0 <= i < |p| ensures Together(Groups(p, 0), i, mate[i]) && Mates(p, o, i, mate[i]) {
      assert PairedAt(p, o, Groups(p, 0), i, mate[i]);
      MatesTogether(p, o, i, mate[i]);
    }
  }

  lemma ApproxReflexive(x: real)
    ensures ApproxEq(x, x)
  {
  }

  lemma OneStep(x: real, y: real)
    requires ApproxEq(x, y)
    ensures Size(y) <= 1.1 * Size(x) && Abs(x - y) <= 1.1 * EPSILON * Size(x)
  {
  }

  /** Three tolerance steps stay within four tolerances. */
  lemma ThreeSteps(x: real, anchor: real, y: real, z: real)
    requires Joined(x, anchor, y, z)
    ensures Abs(x - z) <= 4.0 * EPSILON * Size(x)
  {
    hide ApproxEq, Size;
    ApproxSymmetric(anchor, x);
    OneStep(x, anchor);
    OneStep(anchor, y);
    OneStep(y, z);
  }

  // ----- when it is exact -----

  predicate Valued(s: seq<Sample>, v: real) {
    exists i :: 0 <= i < |s| && s[i].value == v
  }

  /** No two different values of either sequence are within tolerance. */
  ghost predicate Separated(p: seq<Sample>, o: seq<Sample>) {
    forall x: real, y: real :: (Valued(p, x) || Valued(o, x)) && (Valued(p, y) || Valued(o, y)) && ApproxEq(x, y) ==>
      x == y
  }

  predicate SameValues(p: seq<Sample>, o: seq<Sample>) {
    |p| == |o| && forall i :: 0 <= i < |p| ==> p[i].value == o[i].value
  }

  /** Monotone in one direction or the other. */
  predicate Monotone(s: seq<Sample>) {
    || (forall i, j :: 0 <= i <= j < |s| ==> s[i].value <= s[j].value)
    || (forall i, j :: 0 <= i <= j < |s| ==> s[i].value >= s[j].value)
  }

  /** `x` is the integer `k`, of magnitude below 10^9. */
  predicate IsCount(x: real, k: int) {
    -1_000_000_000 < k < 1_000_000_000 && x == k as real
  }

  /** Counts below 10^9 are separated. */
  lemma CountsAreSeparated(p: seq<Sample>, o: seq<Sample>)
    requires forall i :: 0 <= i < |p| ==> exists k :: IsCount(p[i].value, k)
    requires forall i :: 0 <= i < |o| ==> exists k :: IsCount(o[i].value, k)
    ensures Separated(p, o)
  {
    hide ApproxEq;
    forall x: real, y: real
      | (Valued(p, x) || Valued(o, x)) && (Valued(p, y) || Valued(o, y)) && ApproxEq(x, y) ensures x == y
    {
      var a: int :| IsCount(x, a);
      var b: int :| IsCount(y, b);
      CountsApart(x, y, a, b);
    }
  }

  lemma CountsApart(x: real, y: real, a: int, b: int)
    requires IsCount(x, a) && IsCount(y, b) && ApproxEq(x, y)
    ensures x == y
  {
    TinyIsTiny();
    assert a != b ==> Abs(x - y) >= 1.0;
  }

  lemma TinyIsTiny()
    ensures TINY <= 1.0
  {
    TenToGrows(300);
  }

  lemma {:induction false} TenToGrows(k: nat)
    ensures TenTo(k) >= 1.0
  {
    if k > 0 { TenToGrows(k - 1); }
  }

  /** Among samples that all hold `v`, a label set occurs as often as its pair with `v`. */
  lemma {:induction false} LabelCount(s: seq<Sample>, l: Labels, v: real)
    requires forall i :: 0 <= i < |s| ==> s[i].value == v
    ensures multiset(LabelsOf(s))[l] == multiset(s)[Sample(l, v)]
  {
    if s == [] {
      assert LabelsOf(s) == [];
    } else {
      var (front, last) := (s[..|s| - 1], s[|s| - 1]);
      LabelCount(front, l, v);
      assert s == front + [last] && LabelsOf(s) == LabelsOf(front) + [last.labels];
      assert last == Sample(last.labels, v);
    }
  }

  lemma NotThere(s: seq<Sample>, x: Sample)
    requires forall i :: 0 <= i < |s| ==> s[i].value != x.value
    ensures multiset(s)[x] == 0
  {
    assert x !in s;
  }

  /** A group of equal values that no other index has is that value's whole class. */
  lemma GroupIsClass(s: seq<Sample>, a: nat, b: nat, v: real, l: Labels)
    requires a <= b <= |s| && forall i :: 0 <= i < |s| ==> (s[i].value == v <==> a <= i < b)
    ensures multiset(LabelsOf(s[a..b]))[l] == multiset(s)[Sample(l, v)]
  {
    hide LabelsOf;
    LabelCount(s[a..b], l, v);
    NotThere(s[..a], Sample(l, v));
    NotThere(s[b..], Sample(l, v));
    CountSplit(s, a, b, Sample(l, v));
  }

  lemma CountSplit(s: seq<Sample>, a: nat, b: nat, x: Sample)
    requires a <= b <= |s|
    ensures multiset(s)[x] == multiset(s[..a])[x] + multiset(s[a..b])[x] + multiset(s[b..])[x]
  {
    assert s == s[..a] + s[a..];
    assert s[a..] == s[a..b] + s[b..];
  }

  /** On separated values with a monotone PulsusDB sequence the check is exact:
      it passes exactly when both stores give the same values in the same order
      and the same series with the same values. */
  lemma AgreeIsExact(p: seq<Sample>, o: seq<Sample>)
    requires Separated(p, o) && Monotone(p)
    ensures Agree(p, o) <==> SameValues(p, o) && multiset(p) == multiset(o)
  {
    hide ApproxEq;
    if ValuesClose(p, o) || SameValues(p, o) {
      CloseIsSame(p, o);
      if Agree(p, o) {
        AgreeSamePairs(p, o);
      }
      if multiset(p) == multiset(o) {
        SamePairsAgree(p, o);
      }
    }
  }

  lemma CloseIsSame(p: seq<Sample>, o: seq<Sample>)
    requires Separated(p, o) && |p| == |o|
    ensures ValuesClose(p, o) <==> SameValues(p, o)
  {
    forall i | 0 <= i < |p| ensures ApproxEq(p[i].value, o[i].value) <==> p[i].value == o[i].value {
      assert Valued(p, p[i].value) && Valued(o, o[i].value);
    }
  }

  lemma PairsOfConstant(s: seq<Sample>, t: seq<Sample>, v: real)
    requires forall i :: 0 <= i < |s| ==> s[i].value == v
    requires forall i :: 0 <= i < |t| ==> t[i].value == v
    requires multiset(LabelsOf(s)) == multiset(LabelsOf(t))
    ensures multiset(s) == multiset(t)
  {
    hide LabelsOf;
    forall x: Sample ensures multiset(s)[x] == multiset(t)[x] {
      if x.value == v {
        LabelCount(s, x.labels, v);
        LabelCount(t, x.labels, v);
        assert x == Sample(x.labels, v);
      } else {
        NotThere(s, x);
        NotThere(t, x);
      }
    }
  }

  lemma {:induction false} SamePairsOverall(p: seq<Sample>, o: seq<Sample>, groups: seq<TieGroup>, from: nat)
    requires |p| == |o| && from <= |p| && Partitions(groups, from, |p|)
    requires forall k :: 0 <= k < |groups| ==> SamePairs(groups[k], p, o)
    ensures multiset(p[from..]) == multiset(o[from..])
    decreases |groups|
  {
    if groups == [] {
      assert p[from..] == [] && o[from..] == [];
    } else {
      var end := groups[0].end;
      SamePairsOverall(p, o, groups[1..], end);
      assert SamePairs(groups[0], p, o);
      assert p[from..] == p[from..end] + p[end..] && o[from..] == o[from..end] + o[end..];
    }
  }

  predicate SamePairs(g: TieGroup, p: seq<Sample>, o: seq<Sample>) {
    g.start <= g.end <= |p| && g.end <= |o| && multiset(p[g.start..g.end]) == multiset(o[g.start..g.end])
  }

  lemma AgreeSamePairs(p: seq<Sample>, o: seq<Sample>)
    requires Separated(p, o) && Agree(p, o) && SameValues(p, o)
    ensures multiset(p) == multiset(o)
  {
    hide ApproxEq, Groups;
    var groups := Groups(p, 0);
    GroupsPartition(p, 0);
    forall k | 0 <= k < |groups| ensures SamePairs(groups[k], p, o) {
      var g := groups[k];
      assert AnchorMaximal(g, p) && SameSeries(g, p, o);
      GroupIsConstant(p, o, g);
      PairsOfConstant(p[g.start..g.end], o[g.start..g.end], p[g.start].value);
    }
    SamePairsOverall(p, o, groups, 0);
    assert p[0..] == p && o[0..] == o;
  }

  lemma GroupIsConstant(p: seq<Sample>, o: seq<Sample>, g: TieGroup)
    requires Separated(p, o) && AnchorMaximal(g, p)
    ensures forall i :: g.start <= i < g.end ==> p[i].value == p[g.start].value
    ensures g.end < |p| ==> p[g.end].value != p[g.start].value
  {
    hide ApproxEq;
    var v := p[g.start].value;
    assert Valued(p, v);
    ApproxReflexive(v);
    forall i | g.start <= i < g.end ensures p[i].value == v { assert Valued(p, p[i].value); }
  }

  lemma {:induction false} Adjacent(groups: seq<TieGroup>, from: nat, n: nat, k: nat)
    requires Partitions(groups, from, n) && k < |groups|
    ensures if k == 0 then groups[k].start == from else groups[k].start == groups[k - 1].end
    decreases |groups|
  {
    if k > 0 { Adjacent(groups[1..], groups[0].end, n, k - 1); }
  }

  /** In a monotone sequence a group holds every index with its anchor's value. */
  lemma GroupHoldsItsValue(p: seq<Sample>, o: seq<Sample>, k: nat)
    requires Separated(p, o) && Monotone(p) && k < |Groups(p, 0)| && AllAnchored(Groups(p, 0), p)
    requires Partitions(Groups(p, 0), 0, |p|)
    ensures var g := Groups(p, 0)[k];
      forall i :: 0 <= i < |p| ==> (p[i].value == p[g.start].value <==> g.start <= i < g.end)
  {
    hide ApproxEq, Groups;
    var groups := Groups(p, 0);
    var g := groups[k];
    assert AnchorMaximal(g, p);
    GroupIsConstant(p, o, g);
    Adjacent(groups, 0, |p|, k);
    if k > 0 {
      assert AnchorMaximal(groups[k - 1], p);
      GroupIsConstant(p, o, groups[k - 1]);
    }
  }

  lemma SamePairsAgree(p: seq<Sample>, o: seq<Sample>)
    requires Separated(p, o) && Monotone(p) && SameValues(p, o) && multiset(p) == multiset(o)
    ensures Agree(p, o)
  {
    hide ApproxEq, Groups, Monotone, LabelsOf, Partitions, Separated;
    CloseIsSame(p, o);
    var groups := Groups(p, 0);
    GroupsPartition(p, 0);
    forall k | 0 <= k < |groups| ensures SameSeries(groups[k], p, o) {
      var g := groups[k];
      var v := p[g.start].value;
      assert AnchorMaximal(g, p);
      GroupHoldsItsValue(p, o, k);
      var (mine, theirs) := (LabelsOf(p[g.start..g.end]), LabelsOf(o[g.start..g.end]));
      forall l: Labels ensures multiset(mine)[l] == multiset(theirs)[l] {
        GroupIsClass(p, g.start, g.end, v, l);
        GroupIsClass(o, g.start, g.end, v, l);
      }
    }
  }
}
