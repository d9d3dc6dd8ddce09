/** The values of the metric corpus in `e2e/src/corpus.rs`. The mixed words are an
    arbitrary function of the tagged indices, bounded by the code's own `%`. Values are integers
    well inside the range a double holds exactly, except the histogram sums. */
module MetricValues {
  import opened Arithmetic
  import opened Common
  import opened MetricCorpus

  const GAUGE_SERVICE_STRIDE := 200_000_000
  const COUNTER_SERVICE_STRIDE := 1000

  // ----- gauges and counters -----

  /** The part of `gauge_value` that is not noise. */
  function GaugeBase(g: Gauge): nat {
    (g.service + 1) * GAUGE_SERVICE_STRIDE + g.instance * 1000 + g.slot * 100
  }

  function GaugeValue(mix: Mix, g: Gauge, t: nat): nat {
    GaugeBase(g) + mix([GAUGE_TAG, g.service, g.instance, g.slot, t]) % 100
  }

  predicate GaugeIsStale(g: Gauge, t: nat) { g.staleFrom.Some? && t >= g.staleFrom.value }

  function CounterIncrement(mix: Mix, c: Counter, t: nat): nat {
    (c.service + 1) * COUNTER_SERVICE_STRIDE + mix([COUNTER_TAG, c.service, c.instance, t]) % 50
  }

  /** The increments from `lo` up to but not including `hi`. */
  function SumIncrements(mix: Mix, c: Counter, lo: nat, hi: nat): nat {
    if hi <= lo then 0 else SumIncrements(mix, c, lo, hi - 1) + CounterIncrement(mix, c, hi - 1)
  }

  /** `counter_value`: the increments since the last reset. */
  function CounterValue(mix: Mix, c: Counter, t: nat): nat {
    if c.resetAt.Some? && t == c.resetAt.value then 0
    else SumIncrements(mix, c, if c.resetAt.Some? && t > c.resetAt.value then c.resetAt.value + 1 else 0, t + 1)
  }

  // ----- histograms -----

  function BucketIncrement(mix: Mix, h: Histogram, t: nat, k: nat): nat {
    1 + mix([HISTOGRAM_TAG, h.service, h.instance, t, k]) % 10
  }

  /** One bucket range, accumulated since the start. */
  function BucketCount(mix: Mix, h: Histogram, t: nat, k: nat): nat {
    BucketIncrement(mix, h, t, k) + if t == 0 then 0 else BucketCount(mix, h, t - 1, k)
  }

  /** `histogram_bucket_counts`. */
  function BucketCounts(mix: Mix, h: Histogram, t: nat, n: nat): seq<nat> {
    seq(n, k requires 0 <= k => BucketCount(mix, h, t, k))
  }

  function SumOf(counts: seq<nat>): nat {
    if counts == [] then 0 else SumOf(counts[..|counts| - 1]) + counts[|counts| - 1]
  }

  /** `le_cumulative`: the running sums. */
  method LeCumulative(perRange: seq<nat>) returns (out: seq<nat>)
    ensures |out| == |perRange| && forall i :: 0 <= i < |out| ==> out[i] == SumOf(perRange[..i + 1])
  {
    var running := 0;
    out := [];
    for i := 0 to |perRange|
      invariant |out| == i && running == SumOf(perRange[..i])
      invariant forall j :: 0 <= j < i ==> out[j] == SumOf(perRange[..j + 1])
    {
      assert perRange[..i + 1][..i] == perRange[..i];
      running := running + perRange[i];
      out := out + [running];
    }
  }

  /** Sample value of bucket `k` at `t`: everything at or below its bound. */
  function LeCount(mix: Mix, h: Histogram, t: nat, k: nat): nat { SumOf(BucketCounts(mix, h, t, k + 1)) }

  lemma CountsPrefix(mix: Mix, h: Histogram, t: nat, k: nat, n: nat)
    requires k <= n
    ensures BucketCounts(mix, h, t, n)[..k] == BucketCounts(mix, h, t, k)
  {
  }

  lemma LeStep(mix: Mix, h: Histogram, t: nat, k: nat)
    requires k > 0
    ensures LeCount(mix, h, t, k) == LeCount(mix, h, t, k - 1) + BucketCount(mix, h, t, k)
  {
    CountsPrefix(mix, h, t, k, k + 1);
  }

  /** The `le_cumulative` of the bucket counts is the bucket series; its last entry, the
      `+Inf` bucket, is the observation count. */
  method BucketsAt(mix: Mix, h: Histogram, t: nat, bounds: nat) returns (cumulative: seq<nat>)
    ensures |cumulative| == bounds + 1
    ensures forall k :: 0 <= k <= bounds ==> cumulative[k] == LeCount(mix, h, t, k)
    ensures cumulative[bounds] == SumOf(BucketCounts(mix, h, t, bounds + 1))
  {
    var perRange := BucketCounts(mix, h, t, bounds + 1);
    cumulative := LeCumulative(perRange);
    forall k | 0 <= k <= bounds ensures cumulative[k] == LeCount(mix, h, t, k) {
      CountsPrefix(mix, h, t, k + 1, bounds + 1);
    }
  }

  /** Buckets increase in `le`, every range holding at least one observation. */
  lemma {:induction false} BucketsIncreaseInLe(mix: Mix, h: Histogram, t: nat, k: nat, l: nat)
    requires k < l
    ensures LeCount(mix, h, t, k) < LeCount(mix, h, t, l)
    decreases l
  {
    LeStep(mix, h, t, l);
    if k < l - 1 { BucketsIncreaseInLe(mix, h, t, k, l - 1); }
  }

  lemma {:induction false} RangeIncreasesInTime(mix: Mix, h: Histogram, t: nat, u: nat, k: nat)
    requires t < u
    ensures BucketCount(mix, h, t, k) < BucketCount(mix, h, u, k)
    decreases u
  {
    if t < u - 1 { RangeIncreasesInTime(mix, h, t, u - 1, k); }
  }

  /** Every bucket strictly increases in time. */
  lemma {:induction false} BucketsIncreaseInTime(mix: Mix, h: Histogram, t: nat, u: nat, k: nat)
    requires t < u
    ensures LeCount(mix, h, t, k) < LeCount(mix, h, u, k)
    decreases k
  {
    RangeIncreasesInTime(mix, h, t, u, k);
    if k == 0 {
      LeFirst(mix, h, t);
      LeFirst(mix, h, u);
    } else {
      LeStep(mix, h, t, k);
      LeStep(mix, h, u, k);
      BucketsIncreaseInTime(mix, h, t, u, k - 1);
    }
  }

  lemma {:induction false} RangeBound(mix: Mix, h: Histogram, t: nat, k: nat)
    ensures BucketCount(mix, h, t, k) <= 10 * (t + 1)
  {
    if t > 0 { RangeBound(mix, h, t - 1, k); }
  }

  lemma LeFirst(mix: Mix, h: Histogram, t: nat)
    ensures LeCount(mix, h, t, 0) == BucketCount(mix, h, t, 0)
  {
    var counts := BucketCounts(mix, h, t, 1);
    assert counts == [BucketCount(mix, h, t, 0)] && counts[..0] == [];
    assert SumOf(counts) == SumOf(counts[..0]) + counts[0];
    assert BucketCounts(mix, h, t, 0 + 1) == counts;
  }

  /** No bucket exceeds ten observations per range and timestamp. */
  lemma {:induction false} BucketsBounded(mix: Mix, h: Histogram, t: nat, k: nat)
    ensures LeCount(mix, h, t, k) <= (k + 1) * (10 * (t + 1))
  {
    hide LeCount;
    RangeBound(mix, h, t, k);
    if k == 0 {
      LeFirst(mix, h, t);
    } else {
      LeStep(mix, h, t, k);
      BucketsBounded(mix, h, t, k - 1);
      Spread(k, 1, 10 * (t + 1));
    }
  }

  /** Bucket counts of a corpus below the size bound are exact in a double. */
  lemma BucketsExact(mix: Mix, h: Histogram, t: nat, k: nat, bounds: nat, samples: nat)
    requires k <= bounds && t < samples && (bounds + 1) * (10 * samples) < 0x20_0000_0000_0000
    ensures LeCount(mix, h, t, k) < 0x20_0000_0000_0000
  {
    BucketsBounded(mix, h, t, k);
    MulLe(k + 1, bounds + 1, 10 * (t + 1));
    MulLe(10 * (t + 1), 10 * samples, bounds + 1);
  }

  /** The bound-interval midpoint of range `i`. */
  function Midpoint(bounds: seq<real>, i: nat): real {
    if i == 0 then (if bounds == [] then 0.0 else bounds[0]) / 2.0
    else if i < |bounds| then (bounds[i - 1] + bounds[i]) / 2.0
    else (if bounds == [] then 1.0 else bounds[|bounds| - 1]) * 2.0
  }

  function WeightedSum(bounds: seq<real>, counts: seq<nat>): real {
    if counts == [] then 0.0
    else
      WeightedSum(bounds, counts[..|counts| - 1]) + counts[|counts| - 1] as real * Midpoint(bounds, |counts| - 1)
  }

  /** `histogram_sum`. */
  method HistogramSum(bounds: seq<real>, counts: seq<nat>) returns (total: real)
    ensures total == WeightedSum(bounds, counts)
  {
    total := 0.0;
    for i := 0 to |counts|
      invariant total == WeightedSum(bounds, counts[..i])
    {
      assert counts[..i + 1][..i] == counts[..i];
      total := total + counts[i] as real * Midpoint(bounds, i);
    }
    assert counts[..|counts|] == counts;
  }
}
