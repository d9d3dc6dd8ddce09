/** `rate_counter_ref` of `e2e/src/logs_corpus.rs`: the reset-corrected,
    extrapolated counter rate, over the reals. */
module RateCounter {
  import opened Common

  datatype Pt = Pt(t: int, f: real)

  /** `None` stands for the NaN or infinity of a division by a zero span. */
  type Rate = Option<real>

  const WINDOW_NS := 60_000_000_000

  // ----- the sort -----

  /** By timestamp, then by value. */
  predicate Leq(a: Pt, b: Pt) {
    a.t < b.t || (a.t == b.t && a.f <= b.f)
  }

  predicate Sorted(s: seq<Pt>) {
    s == [] || ((forall y :: y in s[1..] ==> Leq(s[0], y)) && Sorted(s[1..]))
  }

  function Insert(x: Pt, s: seq<Pt>): seq<Pt> {
    if s == [] || Leq(x, s[0]) then [x] + s else [s[0]] + Insert(x, s[1..])
  }

  function Sort(s: seq<Pt>): seq<Pt> {
    if s == [] then [] else Insert(s[0], Sort(s[1..]))
  }

  lemma Uncons(s: seq<Pt>)
    requires s != []
    ensures multiset(s) == multiset{s[0]} + multiset(s[1..])
    ensures forall y :: y in s <==> y == s[0] || y in s[1..]
  {
    assert s == [s[0]] + s[1..];
  }

  lemma {:induction false} InsertKeeps(x: Pt, s: seq<Pt>)
    ensures multiset(Insert(x, s)) == multiset{x} + multiset(s)
    ensures forall y :: y in Insert(x, s) <==> y == x || y in s
  {
    var r := Insert(x, s);
    Uncons(r);
    if s != [] && !Leq(x, s[0]) {
      assert r[0] == s[0] && r[1..] == Insert(x, s[1..]);
      Uncons(s);
      InsertKeeps(x, s[1..]);
    } else {
      assert r[0] == x && r[1..] == s;
    }
  }

  lemma {:induction false} InsertSorts(x: Pt, s: seq<Pt>)
    requires Sorted(s)
    ensures Sorted(Insert(x, s))
  {
    var r := Insert(x, s);
    if s != [] { Uncons(s); }
    if s != [] && !Leq(x, s[0]) {
      assert r[0] == s[0] && r[1..] == Insert(x, s[1..]);
      InsertKeeps(x, s[1..]);
      InsertSorts(x, s[1..]);
    } else {
      assert r[0] == x && r[1..] == s;
    }
  }

  /** The sort sorts and permutes. */
  lemma {:induction false} SortSorts(s: seq<Pt>)
    ensures Sorted(Sort(s)) && multiset(Sort(s)) == multiset(s)
  {
    if s != [] {
      SortSorts(s[1..]);
      InsertSorts(s[0], Sort(s[1..]));
      InsertKeeps(s[0], Sort(s[1..]));
      Uncons(s);
    }
  }

  /** In time order, and in ascending value order within one timestamp. */
  lemma SortOrders(s: seq<Pt>, i: nat, j: nat)
    requires i < j < |Sort(s)|
    ensures var r := Sort(s); r[i].t < r[j].t || (r[i].t == r[j].t && r[i].f <= r[j].f)
  {
    SortSorts(s);
    SortedAt(Sort(s), i, j);
  }

  lemma {:induction false} SortedAt(s: seq<Pt>, i: nat, j: nat)
    requires Sorted(s) && i < j < |s|
    ensures Leq(s[i], s[j])
  {
    if i == 0 {
      assert s[j] == s[1..][j - 1];
    } else {
      SortedAt(s[1..], i - 1, j - 1);
    }
  }

  lemma SameLength(a: seq<Pt>, b: seq<Pt>)
    requires multiset(a) == multiset(b)
    ensures |a| == |b|
  {
    assert |a| == |multiset(a)|;
    assert |b| == |multiset(b)|;
  }

  lemma HeadIsLeast(a: seq<Pt>, b: seq<Pt>)
    requires a != [] && b != [] && Sorted(b) && multiset(a) == multiset(b)
    ensures Leq(b[0], a[0])
  {
    assert a[0] in multiset(a);
    assert a[0] in b;
    Uncons(b);
  }

  /** A sorted sequence is determined by its multiset. */
  lemma {:induction false} SortedUnique(a: seq<Pt>, b: seq<Pt>)
    requires Sorted(a) && Sorted(b) && multiset(a) == multiset(b)
    ensures a == b
  {
    SameLength(a, b);
    if a != [] {
      HeadIsLeast(a, b);
      HeadIsLeast(b, a);
      TailsAgree(a, b);
      SortedUnique(a[1..], b[1..]);
      assert a == [a[0]] + a[1..] && b == [b[0]] + b[1..];
    }
  }

  lemma TailsAgree(a: seq<Pt>, b: seq<Pt>)
    requires a != [] && b != [] && a[0] == b[0] && multiset(a) == multiset(b)
    ensures multiset(a[1..]) == multiset(b[1..])
  {
    Uncons(a);
    Uncons(b);
    assert multiset(a[1..]) == multiset(a) - multiset{a[0]};
    assert multiset(b[1..]) == multiset(b) - multiset{b[0]};
  }

  // ----- the reset-corrected increase -----

  /** What one step contributes: the rise, or the new value after a reset. */
  function Step(before: real, now: real): real {
    if now < before then now else now - before
  }

  /** The increase over a sample sequence, step by step. */
  function Increase(pts: seq<Pt>): real {
    if |pts| <= 1 then 0.0
    else Increase(pts[..|pts| - 1]) + Step(pts[|pts| - 2].f, pts[|pts| - 1].f)
  }

  /** The fold of the code: last minus first, plus the value before every drop. */
  method ResetFold(pts: seq<Pt>) returns (result: real)
    requires |pts| >= 1
    ensures result == Increase(pts)
  {
    result := pts[|pts| - 1].f - pts[0].f;
    var lastValue := 0.0;
    for i := 0 to |pts|
      invariant i == 0 ==> lastValue == 0.0 && result == pts[|pts| - 1].f - pts[0].f
      invariant i > 0 ==> lastValue == pts[i - 1].f
      invariant i > 0 ==> result == pts[|pts| - 1].f - pts[i - 1].f + Increase(pts[..i])
    {
      var f := pts[i].f;
      if f < lastValue { result := result + lastValue; }
      lastValue := f;
      assert pts[..i + 1][..i] == pts[..i];
    }
    assert pts[..|pts|] == pts;
  }

  lemma {:induction false} IncreaseNonNegative(pts: seq<Pt>)
    requires forall i :: 0 <= i < |pts| ==> pts[i].f >= 0.0
    ensures Increase(pts) >= 0.0
  {
    if |pts| > 1 { IncreaseNonNegative(pts[..|pts| - 1]); }
  }

  // ----- the extrapolation -----

  function Seconds(ns: int): real { ns as real / 1000000000.0 }

  function Span(pts: seq<Pt>): real
    requires |pts| >= 2
  {
    Seconds(pts[|pts| - 1].t - pts[0].t)
  }

  function Average(pts: seq<Pt>): real
    requires |pts| >= 2
  {
    Span(pts) / ((|pts| - 1) as real)
  }

  /** A gap is used whole when it is shorter than 1.1 average spacings, else half a spacing. */
  function Extend(gap: real, average: real): real {
    if gap < average * 1.1 then gap else average / 2.0
  }

  /** How far before the first sample the counter, projected back, was zero. */
  function ToZero(pts: seq<Pt>): real
    requires |pts| >= 2 && Increase(pts) > 0.0
  {
    Span(pts) * (pts[0].f / Increase(pts))
  }

  function StartGap(pts: seq<Pt>, evalNs: int): real
    requires |pts| >= 2
  {
    var gap := Seconds(pts[0].t - (evalNs - WINDOW_NS));
    if Increase(pts) > 0.0 && pts[0].f >= 0.0 && ToZero(pts) < gap then ToZero(pts) else gap
  }

  function StartExtension(pts: seq<Pt>, evalNs: int): real
    requires |pts| >= 2
  {
    Extend(StartGap(pts, evalNs), Average(pts))
  }

  function EndExtension(pts: seq<Pt>, evalNs: int): real
    requires |pts| >= 2
  {
    Extend(Seconds(evalNs - pts[|pts| - 1].t), Average(pts))
  }

  /** The factor the sampled increase is scaled by. */
  function Factor(pts: seq<Pt>, evalNs: int): real
    requires |pts| >= 2 && Span(pts) > 0.0
  {
    (Span(pts) + StartExtension(pts, evalNs) + EndExtension(pts, evalNs)) / Span(pts)
  }

  /** The scaled increase, per second of the 60-second window. */
  function PerSecond(increase: real, factor: real): real { increase * factor / 60.0 }

  function RateOfSorted(pts: seq<Pt>, evalNs: int): Rate {
    if |pts| < 2 then Some(0.0)
    else if Span(pts) > 0.0 then Some(PerSecond(Increase(pts), Factor(pts, evalNs)))
    else None
  }

  /** The rate of a sample multiset. */
  function RateOf(samples: seq<Pt>, evalNs: int): Rate {
    RateOfSorted(Sort(samples), evalNs)
  }

  /** `rate_counter_ref`. */
  method RateCounterRef(samples: seq<Pt>, evalNs: int) returns (r: Rate)
    ensures r == RateOf(samples, evalNs)
  {
    hide Sorted, Sort, Span, StartExtension, EndExtension, PerSecond;
    var pts := Sort(samples);
    SortSorts(samples);
    SameLength(pts, samples);
    if |samples| < 2 { return Some(0.0); }
    var result := ResetFold(pts);
    var sampledInterval, extrapolateTo := ExtrapolateTo(pts, result, evalNs);
    SpanNotNegative(pts);
    if sampledInterval == 0.0 { return None; }
    assert extrapolateTo / sampledInterval == Factor(pts, evalNs);
    r := Some(PerSecond(result, extrapolateTo / sampledInterval));
  }

  /** The middle part of `rate_counter_ref`: the span and the span to extrapolate to. */
  method ExtrapolateTo(pts: seq<Pt>, result: real, evalNs: int) returns (sampledInterval: real, extrapolateTo: real)
    requires |pts| >= 2 && result == Increase(pts)
    ensures sampledInterval == Span(pts)
    ensures extrapolateTo == Span(pts) + StartExtension(pts, evalNs) + EndExtension(pts, evalNs)
  {
    hide Increase;
    var (firstT, lastT, firstF) := (pts[0].t, pts[|pts| - 1].t, pts[0].f);
    var rangeStart := evalNs - WINDOW_NS;
    var durationToStart := Seconds(firstT - rangeStart);
    var durationToEnd := Seconds(evalNs - lastT);
    sampledInterval := Seconds(lastT - firstT);
    var averageDuration := sampledInterval / ((|pts| - 1) as real);
    if result > 0.0 && firstF >= 0.0 {
      var durationToZero := sampledInterval * (firstF / result);
      if durationToZero < durationToStart { durationToStart := durationToZero; }
    }
    assert durationToStart == StartGap(pts, evalNs);
    var threshold := averageDuration * 1.1;
    extrapolateTo := sampledInterval;
    extrapolateTo := extrapolateTo + if durationToStart < threshold then durationToStart else averageDuration / 2.0;
    extrapolateTo := extrapolateTo + if durationToEnd < threshold then durationToEnd else averageDuration / 2.0;
  }

  lemma SpanNotNegative(pts: seq<Pt>)
    requires |pts| >= 2 && Sorted(pts)
    ensures Span(pts) >= 0.0
  {
    assert pts[|pts| - 1] == pts[1..][|pts| - 2];
    assert Leq(pts[0], pts[|pts| - 1]);
  }

  /** Only the multiset of samples matters: push order and listing order do not. */
  lemma RateIgnoresOrder(a: seq<Pt>, b: seq<Pt>, evalNs: int)
    requires multiset(a) == multiset(b)
    ensures RateOf(a, evalNs) == RateOf(b, evalNs)
  {
    hide Sort, Sorted, RateOfSorted;
    SortSorts(a);
    SortSorts(b);
    SortedUnique(Sort(a), Sort(b));
  }

  // ----- bounds of the extrapolation -----

  predicate InWindow(pts: seq<Pt>, evalNs: int) {
    forall i :: 0 <= i < |pts| ==> evalNs - WINDOW_NS < pts[i].t <= evalNs && pts[i].f >= 0.0
  }

  lemma QuotientBounds(s: real, a: real, n: int)
    requires s > 0.0 && n >= 1 && a == s / (n as real)
    ensures a > 0.0 && a / s == 1.0 / (n as real)
  {
    assert a * (n as real) == s;
  }

  lemma ExtendBounds(gap: real, average: real)
    requires gap >= 0.0 && average > 0.0
    ensures 0.0 <= Extend(gap, average) <= 1.1 * average
  {
  }

  lemma DivMonotone(x: real, y: real, s: real)
    requires s > 0.0 && x <= y
    ensures x / s <= y / s
  {
  }

  /** The start extension never reaches past the projected zero of the counter. */
  lemma StartStaysAboveZero(pts: seq<Pt>, evalNs: int)
    requires |pts| >= 2 && Span(pts) > 0.0 && InWindow(pts, evalNs) && Increase(pts) > 0.0
    ensures StartExtension(pts, evalNs) <= ToZero(pts)
  {
    hide Increase, Span, ToZero;
    assert pts[0].f >= 0.0;
    AveragePositive(pts);
  }

  lemma AveragePositive(pts: seq<Pt>)
    requires |pts| >= 2 && Span(pts) > 0.0
    ensures Average(pts) > 0.0 && Average(pts) / Span(pts) == 1.0 / ((|pts| - 1) as real)
  {
    hide Span;
    QuotientBounds(Span(pts), Average(pts), |pts| - 1);
  }

  lemma StartGapNotNegative(pts: seq<Pt>, evalNs: int)
    requires |pts| >= 2 && Span(pts) > 0.0 && InWindow(pts, evalNs)
    ensures StartGap(pts, evalNs) >= 0.0
  {
    hide Increase, Span;
    assert pts[0].f >= 0.0;
    if Increase(pts) > 0.0 { ProductNotNegative(Span(pts), pts[0].f / Increase(pts)); }
  }

  lemma ProductNotNegative(a: real, b: real)
    requires a >= 0.0 && b >= 0.0
    ensures a * b >= 0.0
  {
  }

  lemma QuotientIs(x: real, s: real, q: real)
    requires s > 0.0 && q * s == x
    ensures x / s == q
  {
    var r := x / s;
    assert r * s == x;
    assert (r - q) * s == 0.0;
  }

  lemma SpreadQuotient(s: real, a: real)
    requires s > 0.0
    ensures (s + 2.2 * a) / s == 1.0 + 2.2 * (a / s)
  {
    var q := a / s;
    assert q * s == a;
    assert (1.0 + 2.2 * q) * s == s + 2.2 * a;
    QuotientIs(s + 2.2 * a, s, 1.0 + 2.2 * q);
  }

  /** For samples inside the window the increase is scaled up, by at most 2.2 average spacings. */
  lemma FactorBounds(pts: seq<Pt>, evalNs: int)
    requires |pts| >= 2 && Span(pts) > 0.0 && InWindow(pts, evalNs)
    ensures 1.0 <= Factor(pts, evalNs) <= 1.0 + 2.2 / ((|pts| - 1) as real)
  {
    hide Increase, Span, StartGap, Average;
    var (s, a) := (Span(pts), Average(pts));
    AveragePositive(pts);
    StartGapNotNegative(pts, evalNs);
    assert pts[|pts| - 1].t <= evalNs;
    ExtendBounds(StartGap(pts, evalNs), a);
    ExtendBounds(Seconds(evalNs - pts[|pts| - 1].t), a);
    var total := s + StartExtension(pts, evalNs) + EndExtension(pts, evalNs);
    DivMonotone(s, total, s);
    DivMonotone(total, s + 2.2 * a, s);
    SpreadQuotient(s, a);
  }

  /** So the rate of non-negative in-window samples, unless they all share one
      timestamp, lies between the sampled rate and that bound. */
  lemma RateBounds(samples: seq<Pt>, evalNs: int)
    requires |samples| >= 2 && InWindow(samples, evalNs)
    ensures RateOf(samples, evalNs).None? <==> forall x, y :: x in samples && y in samples ==> x.t == y.t
    ensures var (pts, r) := (Sort(samples), RateOf(samples, evalNs)); r.Some? ==>
      0.0 <= Increase(pts) / 60.0 <= r.value <= Increase(pts) * (1.0 + 2.2 / ((|samples| - 1) as real)) / 60.0
  {
    hide Increase, Factor, Sort, Span, Sorted;
    var pts := Sort(samples);
    SortSorts(samples);
    SameLength(pts, samples);
    SortedInWindow(samples, pts, evalNs);
    IncreaseNonNegative(pts);
    SpanNotNegative(pts);
    SpanIsZero(samples, pts);
    if Span(pts) > 0.0 {
      FactorBounds(pts, evalNs);
      ScaledBounds(Increase(pts), Factor(pts, evalNs), 1.0 + 2.2 / ((|pts| - 1) as real));
    }
  }

  lemma ScaledBounds(x: real, f: real, hi: real)
    requires x >= 0.0 && 1.0 <= f <= hi
    ensures x / 60.0 <= x * f / 60.0 <= x * hi / 60.0
  {
    ProductNotNegative(x, f - 1.0);
    ProductNotNegative(x, hi - f);
    assert x * (f - 1.0) == x * f - x && x * (hi - f) == x * hi - x * f;
  }

  lemma SortedInWindow(samples: seq<Pt>, pts: seq<Pt>, evalNs: int)
    requires InWindow(samples, evalNs) && multiset(pts) == multiset(samples)
    ensures InWindow(pts, evalNs)
  {
    forall i | 0 <= i < |pts| ensures evalNs - WINDOW_NS < pts[i].t <= evalNs && pts[i].f >= 0.0 {
      assert pts[i] in multiset(pts);
      assert pts[i] in samples;
    }
  }

  lemma {:induction false} SortedTimes(pts: seq<Pt>, i: nat, j: nat)
    requires Sorted(pts) && i <= j < |pts|
    ensures pts[i].t <= pts[j].t
  {
    if i == 0 {
      assert j > 0 ==> pts[j] == pts[1..][j - 1];
      assert j > 0 ==> Leq(pts[0], pts[j]);
    } else {
      SortedTimes(pts[1..], i - 1, j - 1);
    }
  }

  lemma SpanIsZero(samples: seq<Pt>, pts: seq<Pt>)
    requires |pts| >= 2 && Sorted(pts) && multiset(pts) == multiset(samples)
    ensures Span(pts) == 0.0 <==> forall x, y :: x in samples && y in samples ==> x.t == y.t
  {
    hide Sorted;
    var n := |pts|;
    forall x ensures x in samples <==> x in pts {
      assert x in multiset(samples) <==> x in multiset(pts);
    }
    forall i | 0 <= i < n ensures pts[0].t <= pts[i].t <= pts[n - 1].t {
      SortedTimes(pts, 0, i);
      SortedTimes(pts, i, n - 1);
    }
    assert pts[0] in samples && pts[n - 1] in samples;
  }

  // ----- the exact value -----

  // The conditions are on nanoseconds and values, with the division by the number of
  // spacings multiplied out.

  /** A gap of `gapNs` is shorter than 1.1 of the `spacings` equal parts of `spanNs`. */
  predicate Near(gapNs: int, spanNs: int, spacings: int) {
    10 * spacings * gapNs < 11 * spanNs
  }

  /** Projected back along the sampled rate, the counter is zero inside the window. */
  predicate ZeroInside(pts: seq<Pt>, evalNs: int)
    requires |pts| >= 2
  {
    && Increase(pts) > 0.0 && pts[0].f >= 0.0
    && pts[0].f * (pts[|pts| - 1].t - pts[0].t) as real
       < Increase(pts) * (pts[0].t - (evalNs - WINDOW_NS)) as real
  }

  /** That zero is less than 1.1 spacings before the first sample. */
  predicate ZeroNear(pts: seq<Pt>)
    requires |pts| >= 2
  {
    10.0 * (|pts| - 1) as real * pts[0].f < 11.0 * Increase(pts)
  }

  /** What the sampled increase amounts to over a part of its span. */
  function Share(x: real, part: real, span: real): real
    requires span > 0.0
  {
    x * (part / span)
  }

  /** What it amounts to over half of one of its spacings. */
  function HalfSpacing(x: real, spacings: int): real
    requires spacings > 0
  {
    x / (2 * spacings) as real
  }

  /** What the extrapolation adds before the first sample: the counter's own first value when it
      is reached from zero, the sampled rate over the whole gap, or half a spacing of it. */
  function AddedBefore(pts: seq<Pt>, evalNs: int): real
    requires |pts| >= 2 && pts[|pts| - 1].t > pts[0].t
  {
    var (spacings, spanNs) := (|pts| - 1, pts[|pts| - 1].t - pts[0].t);
    if ZeroInside(pts, evalNs) then (if ZeroNear(pts) then pts[0].f else HalfSpacing(Increase(pts), spacings))
    else Added(Increase(pts), pts[0].t - (evalNs - WINDOW_NS), spanNs, spacings)
  }

  function AddedAfter(pts: seq<Pt>, evalNs: int): real
    requires |pts| >= 2 && pts[|pts| - 1].t > pts[0].t
  {
    Added(Increase(pts), evalNs - pts[|pts| - 1].t, pts[|pts| - 1].t - pts[0].t, |pts| - 1)
  }

  function Added(x: real, gapNs: int, spanNs: int, spacings: int): real
    requires spacings > 0 && spanNs > 0
  {
    if Near(gapNs, spanNs, spacings) then Share(x, gapNs as real, spanNs as real) else HalfSpacing(x, spacings)
  }

  /** The rate is a sixtieth of the sampled increase and what is added at the two edges. */
  lemma RateExact(samples: seq<Pt>, evalNs: int)
    ensures |samples| < 2 ==> RateOf(samples, evalNs) == Some(0.0)
    ensures var pts := Sort(samples); |pts| >= 2 && pts[|pts| - 1].t > pts[0].t ==>
      RateOf(samples, evalNs)
      == Some((Increase(pts) + AddedBefore(pts, evalNs) + AddedAfter(pts, evalNs)) / 60.0)
  {
    hide Sort, Sorted, Increase, StartExtension, EndExtension, AddedBefore, AddedAfter, Share;
    var pts := Sort(samples);
    SortSorts(samples);
    SameLength(pts, samples);
    if |pts| >= 2 && pts[|pts| - 1].t > pts[0].t {
      BeforeExact(pts, evalNs);
      AfterExact(pts, evalNs);
      ScaleParts(Increase(pts), Span(pts), StartExtension(pts, evalNs), EndExtension(pts, evalNs));
    }
  }

  lemma ScaleParts(x: real, t: real, s: real, e: real)
    requires t > 0.0
    ensures PerSecond(x, (t + s + e) / t) == (x + Share(x, s, t) + Share(x, e, t)) / 60.0
  {
    var (p, q) := (s / t, e / t);
    assert p * t == s && q * t == e;
    QuotientIs(t + s + e, t, 1.0 + p + q);
    assert x * (1.0 + p + q) == x + x * p + x * q;
  }

  lemma TimesPositive(a: real, b: real, n: real)
    requires n > 0.0
    ensures a < b <==> a * n < b * n
  {
    assert (b - a) * n == b * n - a * n;
    if b > a { assert (b - a) * n > 0.0; } else { ProductNotNegative(a - b, n); assert (a - b) * n == a * n - b * n; }
  }

  lemma NearExactly(gapNs: int, spanNs: int, spacings: int)
    requires spacings >= 1
    ensures Seconds(gapNs) < Seconds(spanNs) / spacings as real * 1.1 <==> Near(gapNs, spanNs, spacings)
  {
    var (gap, n) := (gapNs as real, spacings as real);
    var average := Seconds(spanNs) / n;
    assert average * n == Seconds(spanNs);
    TimesPositive(Seconds(gapNs), average * 1.1, n);
    assert average * 1.1 * n == average * n * 1.1;
    assert Seconds(gapNs) * n == gap * n / 1000000000.0;
    assert gap * n == (spacings * gapNs) as real;
    assert 10 * spacings * gapNs == 10 * (spacings * gapNs);
  }

  lemma HalfIsShare(x: real, t: real, n: int)
    requires t > 0.0 && n >= 1
    ensures Share(x, t / n as real / 2.0, t) == HalfSpacing(x, n)
  {
    var (m, a) := (n as real, t / n as real);
    var q := 1.0 / (2.0 * m);
    assert (2 * n) as real == 2.0 * m;
    assert q * (2.0 * m) == 1.0 && a * m == t;
    assert q * t == a * (q * m);
    QuotientIs(a / 2.0, t, q);
    assert x * q * (2.0 * m) == x * (q * (2.0 * m));
    QuotientIs(x, 2.0 * m, x * q);
  }

  lemma WholeIsShare(x: real, gapNs: int, spanNs: int)
    requires spanNs > 0
    ensures Share(x, Seconds(gapNs), Seconds(spanNs)) == Share(x, gapNs as real, spanNs as real)
  {
    var q := gapNs as real / spanNs as real;
    assert q * spanNs as real == gapNs as real;
    QuotientIs(Seconds(gapNs), Seconds(spanNs), q);
  }

  /** One edge without the projected zero. */
  lemma EdgeExact(x: real, gapNs: int, spanNs: int, n: int)
    requires n >= 1 && spanNs > 0
    ensures Share(x, Extend(Seconds(gapNs), Seconds(spanNs) / n as real), Seconds(spanNs)) == Added(x, gapNs, spanNs, n)
  {
    hide Near, Share, HalfSpacing;
    NearExactly(gapNs, spanNs, n);
    WholeIsShare(x, gapNs, spanNs);
    HalfIsShare(x, Seconds(spanNs), n);
  }

  lemma AfterExact(pts: seq<Pt>, evalNs: int)
    requires |pts| >= 2 && pts[|pts| - 1].t > pts[0].t
    ensures Share(Increase(pts), EndExtension(pts, evalNs), Span(pts)) == AddedAfter(pts, evalNs)
  {
    hide Increase, Share, Added, Extend;
    EdgeExact(Increase(pts), evalNs - pts[|pts| - 1].t, pts[|pts| - 1].t - pts[0].t, |pts| - 1);
  }

  lemma BeforeExact(pts: seq<Pt>, evalNs: int)
    requires |pts| >= 2 && pts[|pts| - 1].t > pts[0].t
    ensures Share(Increase(pts), StartExtension(pts, evalNs), Span(pts)) == AddedBefore(pts, evalNs)
  {
    hide Increase, Share, Added, Extend, HalfSpacing, Average, Span, ToZero, ZeroNear, ZeroInside;
    var (x, n, t) := (Increase(pts), |pts| - 1, Span(pts));
    var (gapNs, spanNs) := (pts[0].t - (evalNs - WINDOW_NS), pts[|pts| - 1].t - pts[0].t);
    SpanIs(pts);
    EdgeExact(x, gapNs, spanNs, n);
    ZeroSide(pts, evalNs);
    if x > 0.0 && pts[0].f >= 0.0 { ZeroExact(pts); }
  }

  lemma SpanIs(pts: seq<Pt>)
    requires |pts| >= 2
    ensures Span(pts) == Seconds(pts[|pts| - 1].t - pts[0].t)
    ensures Average(pts) == Seconds(pts[|pts| - 1].t - pts[0].t) / (|pts| - 1) as real
  {
  }

  /** The clamp acts exactly when the projected zero is inside the window. */
  lemma ZeroSide(pts: seq<Pt>, evalNs: int)
    requires |pts| >= 2
    ensures ZeroInside(pts, evalNs) <==>
      && Increase(pts) > 0.0 && pts[0].f >= 0.0 && ToZero(pts) < Seconds(pts[0].t - (evalNs - WINDOW_NS))
  {
    hide Increase;
    var (x, f, t) := (Increase(pts), pts[0].f, Span(pts));
    if x > 0.0 {
      var (q, gap) := (f / x, Seconds(pts[0].t - (evalNs - WINDOW_NS)));
      assert q * x == f;
      TimesPositive(t * q, gap, x);
      assert t * q * x == t * f && gap * x == x * gap;
    }
  }

  /** The edge at the projected zero. */
  lemma ZeroExact(pts: seq<Pt>)
    requires |pts| >= 2 && pts[|pts| - 1].t > pts[0].t && Increase(pts) > 0.0
    ensures Span(pts) > 0.0
    ensures Share(Increase(pts), Extend(ToZero(pts), Average(pts)), Span(pts))
         == if ZeroNear(pts) then pts[0].f else HalfSpacing(Increase(pts), |pts| - 1)
  {
    hide Increase, HalfSpacing, Share, Span, Extend;
    var (x, f, t, n) := (Increase(pts), pts[0].f, Span(pts), |pts| - 1);
    SpanIs(pts);
    assert ToZero(pts) == t * (f / x) && Average(pts) == t / n as real;
    assert ZeroNear(pts) <==> 10.0 * n as real * f < 11.0 * x;
    ZeroEdge(x, f, t, n);
  }

  lemma ZeroEdge(x: real, f: real, t: real, n: int)
    requires n >= 1 && t > 0.0 && x > 0.0
    ensures Share(x, Extend(t * (f / x), t / n as real), t)
         == if 10.0 * n as real * f < 11.0 * x then f else HalfSpacing(x, n)
  {
    hide HalfSpacing, Share;
    ZeroNearExactly(x, f, t, n);
    HalfIsShare(x, t, n);
    ZeroShare(x, f, t);
  }

  lemma ZeroShare(x: real, f: real, t: real)
    requires t > 0.0 && x > 0.0
    ensures Share(x, t * (f / x), t) == f
  {
    QuotientIs(t * (f / x), t, f / x);
    assert x * (f / x) == f;
  }

  lemma ZeroNearExactly(x: real, f: real, t: real, n: int)
    requires n >= 1 && t > 0.0 && x > 0.0
    ensures t * (f / x) < t / n as real * 1.1 <==> 10.0 * n as real * f < 11.0 * x
  {
    var (q, a, m) := (f / x, t / n as real, n as real);
    assert q * x == f && a * m == t;
    TimesPositive(t * q, a * 1.1, m);
    assert a * 1.1 * m == 1.1 * t && t * q * m == q * m * t;
    TimesPositive(q * m, 1.1, t);
    TimesPositive(q * m, 1.1, x);
    assert q * m * x == m * f;
  }

  // ----- what that comes to -----

  /** The start is more than a tenth over a spacing away: the window's own, or the projected zero. */
  predicate FarStart(pts: seq<Pt>, evalNs: int)
    requires |pts| >= 2
  {
    if ZeroInside(pts, evalNs) then !ZeroNear(pts)
    else !Near(pts[0].t - (evalNs - WINDOW_NS), pts[|pts| - 1].t - pts[0].t, |pts| - 1)
  }

  predicate NearStart(pts: seq<Pt>, evalNs: int)
    requires |pts| >= 2
  {
    && !ZeroInside(pts, evalNs)
    && Near(pts[0].t - (evalNs - WINDOW_NS), pts[|pts| - 1].t - pts[0].t, |pts| - 1)
  }

  predicate NearEnd(pts: seq<Pt>, evalNs: int)
    requires |pts| >= 2
  {
    Near(evalNs - pts[|pts| - 1].t, pts[|pts| - 1].t - pts[0].t, |pts| - 1)
  }

  /** Both edges far: half a spacing is added on each side, one spacing more than were sampled. */
  lemma RateBetweenFarEdges(samples: seq<Pt>, evalNs: int)
    requires var pts := Sort(samples);
      |pts| >= 2 && pts[|pts| - 1].t > pts[0].t && FarStart(pts, evalNs) && !NearEnd(pts, evalNs)
    ensures var (x, n) := (Increase(Sort(samples)), |Sort(samples)|);
      RateOf(samples, evalNs) == Some(PerSecond(x, n as real / (n - 1) as real))
  {
    hide Sort, Increase, RateOf, Near, Share, HalfSpacing, ZeroInside, ZeroNear, PerSecond;
    RateExact(samples, evalNs);
    var (x, n) := (Increase(Sort(samples)), |Sort(samples)|);
    TwoHalves(x, n);
  }

  lemma TwoHalves(x: real, n: int)
    requires n >= 2
    ensures (x + HalfSpacing(x, n - 1) + HalfSpacing(x, n - 1)) / 60.0 == PerSecond(x, n as real / (n - 1) as real)
  {
    var (h, k, q) := (HalfSpacing(x, n - 1), (n - 1) as real, n as real / (n - 1) as real);
    assert (2 * (n - 1)) as real == 2.0 * k && n as real == k + 1.0;
    assert h * (2.0 * k) == x && q * k == k + 1.0;
    assert (x + h + h) * k == x * k + h * (2.0 * k) == x * (q * k);
    QuotientIs(x * (q * k), k, x * q);
    QuotientIs(x * (q * k), k, x + h + h);
  }

  /** Both edges near: the extrapolation covers the window, so the rate is the sampled one. */
  lemma RateBetweenNearEdges(samples: seq<Pt>, evalNs: int)
    requires var pts := Sort(samples);
      |pts| >= 2 && pts[|pts| - 1].t > pts[0].t && NearStart(pts, evalNs) && NearEnd(pts, evalNs)
    ensures var pts := Sort(samples);
      RateOf(samples, evalNs) == Some(Increase(pts) / ((pts[|pts| - 1].t - pts[0].t) as real / 1000000000.0))
  {
    hide Sort, Increase, RateOf, Near, Share, HalfSpacing, ZeroInside, ZeroNear;
    RateExact(samples, evalNs);
    var pts := Sort(samples);
    WholeWindow(Increase(pts), pts[0].t - (evalNs - WINDOW_NS), pts[|pts| - 1].t - pts[0].t,
                evalNs - pts[|pts| - 1].t);
  }

  lemma WholeWindow(x: real, before: int, span: int, after: int)
    requires span > 0 && before + span + after == WINDOW_NS
    ensures (x + Share(x, before as real, span as real) + Share(x, after as real, span as real)) / 60.0
         == x / (span as real / 1000000000.0)
  {
    var (b, s, a) := (before as real, span as real, after as real);
    var (p, q) := (b / s, a / s);
    assert p * s == b && q * s == a;
    assert (x + x * p + x * q) * s == x * (s + p * s + q * s);
    QuotientIs(x, s / 1000000000.0, (x + x * p + x * q) / 60.0);
  }

  /** One edge near and one far: the sampled rate over the near gap and half a spacing. */
  lemma RateAtMixedEdges(samples: seq<Pt>, evalNs: int)
    requires var pts := Sort(samples);
      && |pts| >= 2 && pts[|pts| - 1].t > pts[0].t
      && ((NearStart(pts, evalNs) && !NearEnd(pts, evalNs)) || (FarStart(pts, evalNs) && NearEnd(pts, evalNs)))
    ensures var pts := Sort(samples);
      var (x, span, m) := (Increase(pts), (pts[|pts| - 1].t - pts[0].t) as real, |pts| - 1);
      var gap := (if NearEnd(pts, evalNs) then evalNs - pts[m].t else pts[0].t - (evalNs - WINDOW_NS)) as real;
      RateOf(samples, evalNs) == Some((x + Share(x, gap, span) + HalfSpacing(x, m)) / 60.0)
  {
    hide Sort, Increase, RateOf, Near, Share, HalfSpacing, ZeroInside, ZeroNear;
    RateExact(samples, evalNs);
  }

  /** The counter started inside the window: it is taken to have risen from zero, and nothing is
      added before that. */
  lemma RateFromZero(samples: seq<Pt>, evalNs: int)
    requires var pts := Sort(samples);
      |pts| >= 2 && pts[|pts| - 1].t > pts[0].t && ZeroInside(pts, evalNs) && ZeroNear(pts)
    ensures var pts := Sort(samples);
      var (x, span, m) := (Increase(pts), (pts[|pts| - 1].t - pts[0].t) as real, |pts| - 1);
      var after := if NearEnd(pts, evalNs) then Share(x, (evalNs - pts[m].t) as real, span) else HalfSpacing(x, m);
      RateOf(samples, evalNs) == Some((pts[0].f + x + after) / 60.0)
  {
    hide Sort, Increase, RateOf, Near, Share, HalfSpacing, ZeroInside, ZeroNear;
    RateExact(samples, evalNs);
  }
}
