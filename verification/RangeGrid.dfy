/** The sliding evaluation grid of `e2e/src/logs_corpus.rs`: start-anchored
    step points, half-open windows, and millisecond point keys. */
module RangeGrid {
  import opened Arithmetic

  function SaturatingSub(a: int, b: int): int {
    if a - b < I64_MIN then I64_MIN else if a - b > I64_MAX then I64_MAX else a - b
  }

  datatype Grid = Grid(startNs: int, endNs: int, stepNs: int, rangeNs: int) {

    /** The number of step points. */
    function Size(): nat {
      if stepNs <= 0 || endNs < startNs then 0 else (endNs - startNs) / stepNs + 1
    }

    function Point(k: nat): int { startNs + k * stepNs }

    /** `covers`: the window at `t` is open on the left and closed on the right. */
    predicate Covers(t: int, ts: int) {
      ts <= t && ts > SaturatingSub(t, rangeNs)
    }
  }

  /** A window holds its own point and nothing later, and reaches back to just after `t - range`. */
  lemma WindowEdges(g: Grid, t: int)
    requires g.rangeNs > 0 && I64_MIN <= t - g.rangeNs && t <= I64_MAX
    ensures g.Covers(t, t) && !g.Covers(t, t + 1)
    ensures g.Covers(t, t - g.rangeNs + 1) && !g.Covers(t, t - g.rangeNs)
  {
  }

  function Points(g: Grid): seq<int> {
    seq(g.Size(), k requires k >= 0 => g.Point(k))
  }

  /** `point_key_ms`: the millisecond a point falls into. */
  function KeyMs(ts: int): (key: int)
    ensures key * 1_000_000 <= ts < (key + 1) * 1_000_000
  {
    ts / 1_000_000
  }

  /** The step points are exactly the anchored multiples inside the request. */
  lemma PointsAreAnchored(g: Grid, k: nat)
    requires g.stepNs > 0
    ensures k < g.Size() <==> g.Point(k) <= g.endNs
  {
    if g.endNs >= g.startNs {
      var n := g.endNs - g.startNs;
      AtMostQuotient(k, n, g.stepNs);
    } else {
      assert k * g.stepNs >= 0;
    }
  }

  lemma AtMostQuotient(k: int, n: int, d: int)
    requires d > 0
    ensures k <= n / d <==> k * d <= n
  {
    var (q, r) := (n / d, n % d);
    assert n == q * d + r;
    if k <= q { MulLe(k, q, d); } else { MulLe(q + 1, k, d); assert (q + 1) * d == q * d + d; }
  }

  // ----- counting both ways -----

  /** Records inside the window at `t`. */
  function CountAt(g: Grid, t: int, recs: seq<int>): nat {
    if recs == [] then 0 else CountAt(g, t, recs[..|recs| - 1]) + (if g.Covers(t, recs[|recs| - 1]) then 1 else 0)
  }

  /** Points whose window holds `ts`. */
  function CoverCount(g: Grid, points: seq<int>, ts: int): nat {
    if points == [] then 0
    else CoverCount(g, points[..|points| - 1], ts) + (if g.Covers(points[|points| - 1], ts) then 1 else 0)
  }

  function SumOverPoints(g: Grid, points: seq<int>, recs: seq<int>): nat {
    if points == [] then 0
    else SumOverPoints(g, points[..|points| - 1], recs) + CountAt(g, points[|points| - 1], recs)
  }

  function SumOverRecords(g: Grid, points: seq<int>, recs: seq<int>): nat {
    if recs == [] then 0
    else SumOverRecords(g, points, recs[..|recs| - 1]) + CoverCount(g, points, recs[|recs| - 1])
  }

  /** Window counts summed over the points are covering-point counts summed over the records. */
  lemma {:induction false} CountedBothWays(g: Grid, points: seq<int>, recs: seq<int>)
    ensures SumOverPoints(g, points, recs) == SumOverRecords(g, points, recs)
    decreases |points|
  {
    if points == [] {
      NoPoints(g, recs);
    } else {
      CountedBothWays(g, points[..|points| - 1], recs);
      OneMorePoint(g, points, recs);
    }
  }

  lemma {:induction false} NoPoints(g: Grid, recs: seq<int>)
    ensures SumOverRecords(g, [], recs) == 0
  {
    if recs != [] { NoPoints(g, recs[..|recs| - 1]); }
  }

  lemma {:induction false} OneMorePoint(g: Grid, points: seq<int>, recs: seq<int>)
    requires points != []
    ensures SumOverRecords(g, points, recs)
      == SumOverRecords(g, points[..|points| - 1], recs) + CountAt(g, points[|points| - 1], recs)
    decreases |recs|
  {
    if recs != [] { OneMorePoint(g, points, recs[..|recs| - 1]); }
  }

  // ----- how often a record is counted -----

  const SLACK := 3_600_000_000_000

  /** `query_window` around records in [first, last]. */
  function WindowGrid(first: int, last: int, stepNs: int, rangeNs: int): Grid {
    Grid(first - SLACK, last + SLACK, stepNs, rangeNs)
  }

  lemma AtLeastCeil(k: int, n: int, d: int)
    requires d > 0
    ensures k >= CeilDiv(n, d) <==> k * d >= n
  {
    AtMostQuotient(k + 1, n + d - 1, d);
    AtMostQuotient(k, n + d - 1, d);
    var q := CeilDiv(n, d);
    assert (k + 1) * d == k * d + d;
    if k >= q {
      AtMostQuotient(q + 1, n + d - 1, d);
      MulLe(q, k, d);
      assert (q + 1) * d == q * d + d;
    } else {
      assert k + 1 <= q;
    }
  }

  /** The points that count a record are `m` consecutive ones. */
  lemma CoveringIndices(g: Grid, m: nat, k: nat, ts: int)
    requires g.stepNs > 0 && g.rangeNs == m * g.stepNs && I64_MIN < ts && g.Point(k) <= I64_MAX
    ensures var lo := CeilDiv(ts - g.startNs, g.stepNs);
            g.Covers(g.Point(k), ts) <==> lo <= k < lo + m
  {
    var d := ts - g.startNs;
    AtLeastCeil(k, d, g.stepNs);
    AtLeastCeil(k - m, d, g.stepNs);
    assert (k - m) * g.stepNs == k * g.stepNs - m * g.stepNs;
    assert m * g.stepNs >= 0 by { MulLe(0, m, g.stepNs); }
  }

  /** The part of [lo, lo + m) below n. */
  function Overlap(lo: int, m: nat, n: nat): int {
    if n <= lo then 0 else if n <= lo + m then n - lo else m
  }

  lemma {:induction false} CoverCountUpTo(g: Grid, m: nat, ts: int, n: nat)
    requires g.stepNs > 0 && g.rangeNs == m * g.stepNs && I64_MIN < ts && g.startNs < ts && g.endNs <= I64_MAX
    requires n <= g.Size()
    ensures CoverCount(g, Points(g)[..n], ts) == Overlap(CeilDiv(ts - g.startNs, g.stepNs), m, n)
  {
    var lo := CeilDiv(ts - g.startNs, g.stepNs);
    AtLeastCeil(0, ts - g.startNs, g.stepNs);
    if n > 0 {
      CoverCountUpTo(g, m, ts, n - 1);
      PointsAreAnchored(g, n - 1);
      CoveringIndices(g, m, n - 1, ts);
      assert Points(g)[..n][..n - 1] == Points(g)[..n - 1] && Points(g)[..n][n - 1] == g.Point(n - 1);
    }
  }

  /** When the range is a whole number of steps and at most the slack, every
      record of the corpus is counted at exactly that number of points. */
  lemma CountedExactly(first: int, last: int, stepNs: int, m: nat, ts: int)
    requires stepNs > 0 && m * stepNs <= SLACK && first <= ts <= last
    requires I64_MIN <= first - SLACK && last + SLACK <= I64_MAX
    ensures var g := WindowGrid(first, last, stepNs, m * stepNs);
            CoverCount(g, Points(g), ts) == m
  {
    var g := WindowGrid(first, last, stepNs, m * stepNs);
    var (n, lo) := (g.Size(), CeilDiv(ts - g.startNs, g.stepNs));
    CoverCountUpTo(g, m, ts, n);
    assert Points(g)[..n] == Points(g);
    AtLeastCeil(lo - 1, ts - g.startNs, stepNs);
    assert (lo + m - 1) * stepNs == (lo - 1) * stepNs + m * stepNs;
    AtMostQuotient(lo + m - 1, g.endNs - g.startNs, stepNs);
    AtLeastCeil(0, ts - g.startNs, stepNs);
  }

  /** And the whole corpus is counted m times over. */
  lemma {:induction false} TotalCounted(first: int, last: int, stepNs: int, m: nat, recs: seq<int>)
    requires stepNs > 0 && m * stepNs <= SLACK
    requires I64_MIN <= first - SLACK && last + SLACK <= I64_MAX
    requires forall i :: 0 <= i < |recs| ==> first <= recs[i] <= last
    ensures var g := WindowGrid(first, last, stepNs, m * stepNs);
            SumOverPoints(g, Points(g), recs) == m * |recs|
  {
    hide CoverCount, CountAt, SumOverPoints, Points;
    var g := WindowGrid(first, last, stepNs, m * stepNs);
    CountedBothWays(g, Points(g), recs);
    if recs != [] {
      TotalCounted(first, last, stepNs, m, recs[..|recs| - 1]);
      CountedBothWays(g, Points(g), recs[..|recs| - 1]);
      CountedExactly(first, last, stepNs, m, recs[|recs| - 1]);
      assert m * |recs| == m * (|recs| - 1) + m;
    }
  }

  // ----- point keys -----

  ghost predicate KeysDistinct(g: Grid) {
    forall i: nat, j: nat {:trigger g.Point(i), g.Point(j)} :: i < j < g.Size() ==>
      KeyMs(g.Point(i)) != KeyMs(g.Point(j))
  }

  lemma KeysApart(g: Grid, i: nat, j: nat)
    requires g.stepNs >= 1_000_000 && i < j
    ensures KeyMs(g.Point(i)) < KeyMs(g.Point(j))
  {
    MulLe(i + 1, j, g.stepNs);
    assert (i + 1) * g.stepNs == i * g.stepNs + g.stepNs;
    assert g.Point(j) >= g.Point(i) + 1_000_000;
  }

  /** Millisecond keys lose no point on any grid of a step width exactly when
      the step is at least a millisecond. */
  lemma KeysDistinctExactly(stepNs: int)
    requires stepNs > 0
    ensures (forall s, e, r :: KeysDistinct(Grid(s, e, stepNs, r))) <==> stepNs >= 1_000_000
  {
    if stepNs >= 1_000_000 {
      forall s, e, r ensures KeysDistinct(Grid(s, e, stepNs, r)) {
        var g := Grid(s, e, stepNs, r);
        forall i: nat, j: nat {:trigger g.Point(i), g.Point(j)} | i < j < g.Size()
          ensures KeyMs(g.Point(i)) != KeyMs(g.Point(j))
        {
          KeysApart(g, i, j);
        }
      }
    } else {
      var g := Grid(0, stepNs, stepNs, 0);
      assert g.Point(0) == 0 && g.Point(1) == stepNs;
      PointsAreAnchored(g, 1);
      assert KeyMs(g.Point(0)) == KeyMs(g.Point(1));
    }
  }

  /** Records per second of range. */
  function Rate(g: Grid, n: nat): real
    requires g.rangeNs > 0
  {
    (n as real) / (g.rangeNs as real / 1000000000.0)
  }

  /** The rates of all points, added up. */
  function SumOfRates(g: Grid, points: seq<int>, recs: seq<int>): real
    requires g.rangeNs > 0
  {
    if points == [] then 0.0
    else SumOfRates(g, points[..|points| - 1], recs) + Rate(g, CountAt(g, points[|points| - 1], recs))
  }

  lemma {:induction false} RatesAreCounts(g: Grid, points: seq<int>, recs: seq<int>)
    requires g.rangeNs > 0
    ensures SumOfRates(g, points, recs) * g.rangeNs as real == SumOverPoints(g, points, recs) as real * 1000000000.0
  {
    hide CountAt, Rate;
    if points != [] {
      var n := CountAt(g, points[|points| - 1], recs);
      RatesAreCounts(g, points[..|points| - 1], recs);
      RateTimesRange(g, n);
      var (before, now, range) := (SumOfRates(g, points[..|points| - 1], recs), Rate(g, n), g.rangeNs as real);
      TimesSum(before, now, range);
    }
  }

  lemma TimesSum(a: real, b: real, c: real)
    ensures (a + b) * c == a * c + b * c
  {
  }

  lemma RateTimesRange(g: Grid, n: nat)
    requires g.rangeNs > 0
    ensures Rate(g, n) * g.rangeNs as real == n as real * 1000000000.0
  {
    var seconds := g.rangeNs as real / 1000000000.0;
    assert n as real / seconds * seconds == n as real;
  }

  /** Over the whole grid the rates, times the range in nanoseconds, add up to the corpus
      counted m times over, in units of a billion: the rates are per second. */
  lemma TotalRate(first: int, last: int, stepNs: int, m: nat, recs: seq<int>)
    requires stepNs > 0 && 0 < m * stepNs <= SLACK
    requires I64_MIN <= first - SLACK && last + SLACK <= I64_MAX
    requires forall i :: 0 <= i < |recs| ==> first <= recs[i] <= last
    ensures var g := WindowGrid(first, last, stepNs, m * stepNs);
      SumOfRates(g, Points(g), recs) * (m * stepNs) as real == (m * |recs|) as real * 1000000000.0
  {
    hide SumOfRates, SumOverPoints, Points;
    var g := WindowGrid(first, last, stepNs, m * stepNs);
    TotalCounted(first, last, stepNs, m, recs);
    RatesAreCounts(g, Points(g), recs);
  }

  /** Step point `k` has a non-empty window and the key `key`. */
  predicate Hits(g: Grid, recs: seq<int>, k: nat, key: int) {
    CountAt(g, g.Point(k), recs) > 0 && KeyMs(g.Point(k)) == key
  }

  /** No later point writes under the key of point `k`. */
  predicate Latest(g: Grid, recs: seq<int>, k: nat, upTo: nat) {
    forall j :: k < j < upTo ==> !Hits(g, recs, j, KeyMs(g.Point(k)))
  }

  predicate RateAt(g: Grid, recs: seq<int>, t: int, points: map<int, real>) {
    g.rangeNs > 0 && KeyMs(t) in points && points[KeyMs(t)] == Rate(g, CountAt(g, t, recs))
  }

  /** `points` has a key exactly where some window is non-empty, and under it the rate of the
      last such window. */
  ghost predicate IsRateMap(g: Grid, recs: seq<int>, upTo: nat, points: map<int, real>) {
    && (forall key :: key in points <==> exists k: nat :: k < upTo && Hits(g, recs, k, key))
    && (forall k: nat {:trigger g.Point(k)} :: k < upTo && CountAt(g, g.Point(k), recs) > 0 ==>
          Latest(g, recs, k, upTo) ==> RateAt(g, recs, g.Point(k), points))
  }

  /** The window loop of `expected_metric_matrix` for the sliding rate, over the
      svc-json timestamps. */
  method RateSliding(g: Grid, recs: seq<int>) returns (points: map<int, real>)
    requires g.endNs <= I64_MAX
    ensures IsRateMap(g, recs, g.Size(), points)
  {
    hide CountAt, Rate, KeyMs;
    points := map[];
    for k := 0 to g.Size()
      invariant IsRateMap(g, recs, k, points)
    {
      var t := g.Point(k);
      var n := CountAt(g, t, recs);
      RateStep(g, recs, k, points);
      if n > 0 { points := points[KeyMs(t) := Rate(g, n)]; }
    }
  }

  lemma RateStep(g: Grid, recs: seq<int>, k: nat, points: map<int, real>)
    requires g.endNs <= I64_MAX && k < g.Size() && IsRateMap(g, recs, k, points)
    ensures var (t, n) := (g.Point(k), CountAt(g, g.Point(k), recs));
      && (n > 0 ==> g.rangeNs > 0)
      && IsRateMap(g, recs, k + 1, if n > 0 then points[KeyMs(t) := Rate(g, n)] else points)
  {
    hide CountAt, Rate, KeyMs;
    var (t, n) := (g.Point(k), CountAt(g, g.Point(k), recs));
    if g.stepNs > 0 { PointsAreAnchored(g, k); }
    if n > 0 { NonEmptyHasRange(g, t, recs); }
    var next := if n > 0 then points[KeyMs(t) := Rate(g, n)] else points;
    assert n > 0 ==> Hits(g, recs, k, KeyMs(t));
    forall key ensures key in next <==> exists j: nat :: j < k + 1 && Hits(g, recs, j, key) {
      assert key in points ==> exists j: nat :: j < k && Hits(g, recs, j, key);
      if exists j: nat :: j < k + 1 && Hits(g, recs, j, key) {
        var j: nat :| j < k + 1 && Hits(g, recs, j, key);
        if j < k { assert key in points; }
      }
    }
    forall j: nat {:trigger g.Point(j)} | j < k + 1 && CountAt(g, g.Point(j), recs) > 0 && Latest(g, recs, j, k + 1)
      ensures RateAt(g, recs, g.Point(j), next)
    {
      if j < k {
        assert Latest(g, recs, j, k);
        assert !Hits(g, recs, k, KeyMs(g.Point(j)));
      }
    }
  }

  /** With a step of at least a millisecond no point is overwritten: every non-empty window has
      its rate, and the empty windows are exactly the missing keys. */
  lemma GapsAreMissing(g: Grid, recs: seq<int>, points: map<int, real>, k: nat)
    requires g.stepNs >= 1_000_000 && k < g.Size() && IsRateMap(g, recs, g.Size(), points)
    ensures CountAt(g, g.Point(k), recs) == 0 <==> KeyMs(g.Point(k)) !in points
    ensures CountAt(g, g.Point(k), recs) > 0 ==> RateAt(g, recs, g.Point(k), points)
  {
    hide CountAt, Rate, KeyMs;
    forall j | k < j < g.Size() ensures !Hits(g, recs, j, KeyMs(g.Point(k))) { KeysApart(g, k, j); }
    assert Latest(g, recs, k, g.Size());
    if CountAt(g, g.Point(k), recs) > 0 {
      assert Hits(g, recs, k, KeyMs(g.Point(k)));
    } else if KeyMs(g.Point(k)) in points {
      var j: nat :| j < g.Size() && Hits(g, recs, j, KeyMs(g.Point(k)));
      if j < k { KeysApart(g, j, k); }
    }
  }

  lemma {:induction false} NonEmptyHasRange(g: Grid, t: int, recs: seq<int>)
    requires t <= I64_MAX && CountAt(g, t, recs) > 0
    ensures g.rangeNs > 0
  {
    if recs != [] && !g.Covers(t, recs[|recs| - 1]) { NonEmptyHasRange(g, t, recs[..|recs| - 1]); }
  }
}
