/** base/histogram.{h,cc} over exact reals: counts of samples between limits, and percentiles
    interpolated between them. */
module Histogram {
  // ---------------------------------------------------------------------------- samples

  function Below(samples: seq<real>, x: real): nat {
    if samples == [] then 0
    else Below(samples[..|samples| - 1], x) + if samples[|samples| - 1] < x then 1 else 0
  }

  function UpTo(samples: seq<real>, x: real): nat {
    if samples == [] then 0
    else UpTo(samples[..|samples| - 1], x) + if samples[|samples| - 1] <= x then 1 else 0
  }

  function Sum(s: seq<real>): real {
    if s == [] then 0.0 else Sum(s[..|s| - 1]) + s[|s| - 1]
  }

  function SumOfSquares(s: seq<real>): real {
    if s == [] then 0.0 else SumOfSquares(s[..|s| - 1]) + s[|s| - 1] * s[|s| - 1]
  }

  lemma {:induction false} BelowGrows(samples: seq<real>, x: real, y: real)
    requires x <= y
    ensures Below(samples, x) <= Below(samples, y)
    ensures Below(samples, x) <= UpTo(samples, x) <= |samples|
    ensures x < y ==> UpTo(samples, x) <= Below(samples, y)
  {
    if samples != [] {
      BelowGrows(samples[..|samples| - 1], x, y);
    }
  }

  /** How many samples are below the first i limits' last: those in the first i buckets. */
  function InFirst(samples: seq<real>, limits: seq<real>, i: nat): nat
    requires i <= |limits|
  {
    if i == 0 then 0 else Below(samples, limits[i - 1])
  }

  ghost predicate Increasing(limits: seq<real>) {
    forall i, j :: 0 <= i < j < |limits| ==> limits[i] < limits[j]
  }

  /** The figures a histogram keeps; `lowest` is the least double, -DBL_MAX. */
  datatype Figures = Figures(lowest: real, limits: seq<real>, buckets: seq<real>, min: real, max: real, num: real)

  /** The figures of these samples: bucket i counts those from limit i - 1 on and below limit i. */
  ghost predicate Figure(h: Figures, samples: seq<real>) {
    && h.limits != [] && Increasing(h.limits) && |h.buckets| == |h.limits|
    && h.num == |samples| as real
    && (forall i :: 0 <= i < |samples| ==> h.lowest <= samples[i] < h.limits[|h.limits| - 1])
    && (forall i :: 0 <= i < |h.buckets| ==>
          h.buckets[i] == (InFirst(samples, h.limits, i + 1) - InFirst(samples, h.limits, i)) as real)
    && (forall i :: 0 <= i < |samples| ==> h.min <= samples[i] <= h.max)
    && (samples != [] ==> h.min in samples && h.max in samples)
    && (samples == [] ==> h.min == h.limits[|h.limits| - 1] && h.max == h.lowest)
  }

  lemma {:induction false} InFirstOfMore(samples: seq<real>, limits: seq<real>, v: real, i: nat)
    requires i <= |limits|
    ensures InFirst(samples + [v], limits, i) ==
            InFirst(samples, limits, i) + if i > 0 && v < limits[i - 1] then 1 else 0
  {
    assert (samples + [v])[..|samples|] == samples;
  }

  class Histogram {
    const lowest: real
    const limits: seq<real>
    var buckets: seq<real>
    var min: real
    var max: real
    var num: real
    var sum: real
    var sumSquares: real

    ghost var samples: seq<real>

    function Kept(): Figures
      reads this
    {
      Figures(lowest, limits, buckets, min, max, num)
    }

    ghost predicate Valid()
      reads this
    {
      Figure(Kept(), samples) && sum == Sum(samples) && sumSquares == SumOfSquares(samples)
    }

    constructor (lowest: real, limits: seq<real>)
      requires limits != [] && Increasing(limits)
      ensures Valid() && samples == [] && this.limits == limits && this.lowest == lowest
    {
      this.lowest := lowest;
      this.limits := limits;
      buckets := [];
      new;
      Clear();
    }

    method Clear()
      requires limits != [] && Increasing(limits)
      modifies this
      ensures Valid() && samples == []
    {
      min := limits[|limits| - 1];
      max := lowest;
      num, sum, sumSquares := 0.0, 0.0, 0.0;
      ClearBuckets();
      samples := [];
    }

    method ClearBuckets()
      modifies this`buckets
      ensures |buckets| == |limits| && forall k :: 0 <= k < |limits| ==> buckets[k] == 0.0
    {
      buckets := [];
      for i := 0 to |limits|
        invariant |buckets| == i && forall k :: 0 <= k < i ==> buckets[k] == 0.0
      {
        buckets := buckets + [0.0];
      }
    }

    /** std::upper_bound: the first limit above the value. */
    method UpperBound(value: real) returns (b: nat)
      requires limits != [] && value < limits[|limits| - 1]
      ensures b < |limits| && value < limits[b] && forall i :: 0 <= i < b ==> limits[i] <= value
    {
      b := 0;
      while limits[b] <= value
        invariant b < |limits| && forall i :: 0 <= i < b ==> limits[i] <= value
        decreases |limits| - b
      {
        b := b + 1;
      }
    }

    method Add(value: real)
      requires Valid() && lowest <= value < limits[|limits| - 1]
      modifies this
      ensures Valid() && samples == old(samples) + [value]
    {
      AddCount(value);
      AddSums(value);
      samples := samples + [value];
    }

    method AddCount(value: real)
      requires Figure(Kept(), samples) && lowest <= value < limits[|limits| - 1]
      modifies this`buckets, this`min, this`max, this`num
      ensures Figure(Kept(), samples + [value])
    {
      ghost var before := Kept();
      var b := UpperBound(value);
      buckets := buckets[b := buckets[b] + 1.0];
      if min > value { min := value; }
      if max < value { max := value; }
      num := num + 1.0;
      OneMoreSample(before, samples, value, b, Kept());
    }

    method AddSums(value: real)
      requires sum == Sum(samples) && sumSquares == SumOfSquares(samples)
      modifies this`sum, this`sumSquares
      ensures sum == Sum(samples + [value]) && sumSquares == SumOfSquares(samples + [value])
    {
      SumsOfMore(samples, value);
      sum := sum + value;
      sumSquares := sumSquares + value * value;
    }

    /** Also the bucket that p falls in. */
    method Percentile(p: real) returns (r: real, ghost i: nat)
      requires Valid()
      ensures num == 0.0 ==> r == 0.0
      ensures num > 0.0 && p <= 100.0 ==>
                FallsIn(Kept(), samples, Threshold(num, p), i) && r == Interpolated(Kept(), samples, Threshold(num, p), i)
      ensures num > 0.0 && p > 100.0 ==> r == max
    {
      i := 0;
      if num == 0.0 {
        return 0.0, i;
      }
      ThresholdGrows(num, 100.0, p);
      ThresholdGrows(num, p, 100.0);
      r, i := FindAndInterpolate(Threshold(num, p));
    }

    /** The loop of Percentile. */
    method FindAndInterpolate(threshold: real) returns (r: real, ghost i: nat)
      requires Valid() && num > 0.0
      ensures threshold <= num ==> FallsIn(Kept(), samples, threshold, i) && r == Interpolated(Kept(), samples, threshold, i)
      ensures num < threshold ==> r == max
    {
      var cumsumPrev := 0.0;
      var k := 0;
      while k < |buckets|
        invariant k <= |buckets| && cumsumPrev == InFirst(samples, limits, k) as real
        invariant cumsumPrev < threshold || cumsumPrev == 0.0
      {
        var cumsum := cumsumPrev + buckets[k];
        BucketCounts(Kept(), samples, k);
        if cumsum >= threshold {
          if cumsum == cumsumPrev {
            k := k + 1;
            continue;
          }
          r := InterpolateIn(k, threshold, cumsumPrev, cumsum);
          return r, k;
        }
        cumsumPrev := cumsum;
        k := k + 1;
      }
      AllCounted(Kept(), samples);
      return max, 0;
    }

    method InterpolateIn(k: nat, threshold: real, cumsumPrev: real, cumsum: real) returns (r: real)
      requires Valid() && k < |limits|
      requires cumsumPrev == InFirst(samples, limits, k) as real < cumsum == InFirst(samples, limits, k + 1) as real
      ensures r == Interpolated(Kept(), samples, threshold, k)
    {
      var lhs := if k == 0 || cumsumPrev == 0.0 then min else limits[k - 1];
      lhs := Larger(lhs, min);
      var rhs := Smaller(limits[k], max);
      r := Remap(threshold, cumsumPrev, cumsum, lhs, rhs);
    }

    /** Average. */
    method Average() returns (average: real)
      requires Valid()
      ensures num == 0.0 ==> average == 0.0
      ensures num > 0.0 ==> average * num == Sum(samples)
    {
      if num == 0.0 {
        return 0.0;
      }
      average := Quotient(sum, num);
    }

    /** The variance whose root StandardDeviation takes: it has one. */
    method Variance() returns (variance: real)
      requires Valid()
      ensures num == 0.0 ==> variance == 0.0
      ensures num > 0.0 ==> variance * Product(num, num) == Spread(SumOfSquares(samples), num, Sum(samples))
      ensures variance >= 0.0
    {
      if num == 0.0 {
        return 0.0;
      }
      variance := VarianceOf(sumSquares, num, sum, samples);
    }
  }

  function Spread(sumSquares: real, num: real, sum: real): real {
    sumSquares * num - sum * sum
  }

  method VarianceOf(sumSquares: real, num: real, sum: real, ghost samples: seq<real>) returns (v: real)
    requires num == |samples| as real > 0.0 && sumSquares == SumOfSquares(samples) && sum == Sum(samples)
    ensures v >= 0.0 && v * Product(num, num) == Spread(SumOfSquares(samples), num, Sum(samples))
  {
    VarianceIsPositive(samples);
    v := Quotient(Spread(sumSquares, num, sum), Product(num, num));
  }

  function Product(x: real, y: real): (p: real)
    ensures x > 0.0 && y > 0.0 ==> p > 0.0
  {
    x * y
  }

  function Quotient(x: real, y: real): (q: real)
    requires y > 0.0
    ensures (x >= 0.0 ==> q >= 0.0) && q * y == x
  {
    x / y
  }

  function Larger(a: real, b: real): real { if a < b then b else a }

  function Smaller(a: real, b: real): real { if b < a then b else a }

  function Threshold(num: real, p: real): real { num * (p / 100.0) }

  /** Linearly from [x0, x1] onto [y0, y1]. */
  function Remap(x: real, x0: real, x1: real, y0: real, y1: real): real
    requires x0 != x1
  {
    y0 + (x - x0) / (x1 - x0) * (y1 - y0)
  }

  /** The threshold is reached in bucket i, the first that is not empty if it is not positive. */
  ghost predicate FallsIn(h: Figures, samples: seq<real>, threshold: real, i: nat) {
    && i < |h.limits|
    && InFirst(samples, h.limits, i) < InFirst(samples, h.limits, i + 1)
    && threshold <= InFirst(samples, h.limits, i + 1) as real
    && (InFirst(samples, h.limits, i) as real < threshold || InFirst(samples, h.limits, i) == 0)
  }

  /** The bounds of bucket i, no wider than the samples. */
  function Left(h: Figures, samples: seq<real>, i: nat): real
    requires i < |h.limits|
  {
    Larger(if i == 0 || InFirst(samples, h.limits, i) == 0 then h.min else h.limits[i - 1], h.min)
  }

  function Right(h: Figures, i: nat): real
    requires i < |h.limits|
  {
    Smaller(h.limits[i], h.max)
  }

  function Interpolated(h: Figures, samples: seq<real>, threshold: real, i: nat): real
    requires i < |h.limits| && InFirst(samples, h.limits, i) < InFirst(samples, h.limits, i + 1)
  {
    Remap(threshold, InFirst(samples, h.limits, i) as real, InFirst(samples, h.limits, i + 1) as real,
          Left(h, samples, i), Right(h, i))
  }

  lemma BucketCounts(h: Figures, samples: seq<real>, i: nat)
    requires Figure(h, samples) && i < |h.limits|
    ensures InFirst(samples, h.limits, i) <= InFirst(samples, h.limits, i + 1) <= |samples|
  {
    BelowGrows(samples, h.limits[i], h.limits[i]);
    if i > 0 {
      BelowGrows(samples, h.limits[i - 1], h.limits[i]);
    }
  }

  lemma {:induction false} AllBelow(samples: seq<real>, x: real)
    requires forall i :: 0 <= i < |samples| ==> samples[i] < x
    ensures Below(samples, x) == |samples|
  {
    if samples != [] {
      AllBelow(samples[..|samples| - 1], x);
    }
  }

  lemma AllCounted(h: Figures, samples: seq<real>)
    requires Figure(h, samples)
    ensures InFirst(samples, h.limits, |h.limits|) == |samples|
  {
    AllBelow(samples, h.limits[|h.limits| - 1]);
  }

  lemma ThresholdGrows(num: real, p: real, q: real)
    requires num >= 0.0
    ensures p <= q ==> Threshold(num, p) <= Threshold(num, q)
    ensures Threshold(num, 0.0) == 0.0 && Threshold(num, 100.0) == num
    ensures 0.0 < num && p < q ==> Threshold(num, p) < Threshold(num, q)
  {
  }

  lemma SumsOfMore(samples: seq<real>, v: real)
    ensures Sum(samples + [v]) == Sum(samples) + v
    ensures SumOfSquares(samples + [v]) == SumOfSquares(samples) + v * v
  {
    assert (samples + [v])[..|samples|] == samples;
  }

  lemma OneMoreSample(h: Figures, samples: seq<real>, v: real, b: nat, h': Figures)
    requires Figure(h, samples) && h.lowest <= v < h.limits[|h.limits| - 1]
    requires b < |h.limits| && v < h.limits[b] && forall i :: 0 <= i < b ==> h.limits[i] <= v
    requires h' == Figures(h.lowest, h.limits, h.buckets[b := h.buckets[b] + 1.0], if v < h.min then v else h.min,
                           if h.max < v then v else h.max, h.num + 1.0)
    ensures Figure(h', samples + [v])
  {
    var all := samples + [v];
    forall i | 0 <= i < |h.buckets|
      ensures h'.buckets[i] == (InFirst(all, h.limits, i + 1) - InFirst(all, h.limits, i)) as real
    {
      OneMoreInBucket(h, samples, v, b, i);
    }
    forall i | 0 <= i < |all| ensures h.lowest <= all[i] < h.limits[|h.limits| - 1] && h'.min <= all[i] <= h'.max {
      assert i < |samples| ==> all[i] == samples[i];
    }
    assert all[|samples|] == v;
    assert samples != [] ==> h.min in all && h.max in all;
  }

  lemma OneMoreInBucket(h: Figures, samples: seq<real>, v: real, b: nat, i: nat)
    requires Figure(h, samples) && i < |h.limits| && b < |h.limits|
    requires v < h.limits[b] && forall j :: 0 <= j < b ==> h.limits[j] <= v
    ensures InFirst(samples + [v], h.limits, i + 1) - InFirst(samples + [v], h.limits, i) ==
            InFirst(samples, h.limits, i + 1) - InFirst(samples, h.limits, i) + if i == b then 1 else 0
  {
    InFirstOfMore(samples, h.limits, v, i);
    InFirstOfMore(samples, h.limits, v, i + 1);
    assert i < b || h.limits[b] <= h.limits[i];
    assert i <= b || h.limits[b] <= h.limits[i - 1];
  }

  // ------------------------------------------------------------- what percentiles promise

  /** A sample that one limit counts and another does not. */
  lemma {:induction false} SampleBetween(samples: seq<real>, x: real, y: real) returns (v: real)
    requires Below(samples, x) < Below(samples, y)
    ensures v in samples && x <= v < y
  {
    var last := samples[|samples| - 1];
    if x <= last < y {
      v := last;
    } else {
      v := SampleBetween(samples[..|samples| - 1], x, y);
    }
  }

  lemma {:induction false} SampleBelow(samples: seq<real>, y: real) returns (v: real)
    requires 0 < Below(samples, y)
    ensures v in samples && v < y
  {
    var last := samples[|samples| - 1];
    if last < y {
      v := last;
    } else {
      v := SampleBelow(samples[..|samples| - 1], y);
    }
  }

  /** A bucket that is not empty has a sample within its bounds. */
  lemma BoundsInOrder(h: Figures, samples: seq<real>, i: nat)
    requires Figure(h, samples) && i < |h.limits| && InFirst(samples, h.limits, i) < InFirst(samples, h.limits, i + 1)
    ensures h.min <= Left(h, samples, i) <= Right(h, i) <= h.max
  {
    var v;
    if i == 0 || InFirst(samples, h.limits, i) == 0 {
      v := SampleBelow(samples, h.limits[i]);
    } else {
      v := SampleBetween(samples, h.limits[i - 1], h.limits[i]);
    }
    assert h.min <= v <= h.max;
  }

  lemma RemapBetween(x: real, x0: real, x1: real, y0: real, y1: real)
    requires x0 <= x <= x1 && x0 < x1 && y0 <= y1
    ensures y0 <= Remap(x, x0, x1, y0, y1) <= y1
  {
    var w := (x - x0) / (x1 - x0);
    Share(x - x0, x1 - x0);
    ProductGrows(0.0, w, y1 - y0);
    ProductGrows(w, 1.0, y1 - y0);
  }

  lemma Share(a: real, b: real)
    requires 0.0 <= a <= b && 0.0 < b
    ensures 0.0 <= a / b <= 1.0
  {
  }

  lemma RemapGrows(x: real, x': real, x0: real, x1: real, y0: real, y1: real)
    requires x <= x' && x0 < x1 && y0 <= y1
    ensures Remap(x, x0, x1, y0, y1) <= Remap(x', x0, x1, y0, y1)
  {
    var w, w' := (x - x0) / (x1 - x0), (x' - x0) / (x1 - x0);
    QuotientGrows(x - x0, x' - x0, x1 - x0);
    ProductGrows(w, w', y1 - y0);
  }

  lemma QuotientGrows(a: real, a': real, b: real)
    requires a <= a' && 0.0 < b
    ensures a / b <= a' / b
  {
  }

  lemma ProductGrows(w: real, w': real, d: real)
    requires w <= w' && 0.0 <= d
    ensures w * d <= w' * d
  {
  }

  lemma RemapEnds(x0: real, x1: real, y0: real, y1: real)
    requires x0 < x1
    ensures Remap(x0, x0, x1, y0, y1) == y0 && Remap(x1, x0, x1, y0, y1) == y1
  {
    assert (x1 - x0) / (x1 - x0) == 1.0;
  }

  /** A percentile lies in the bucket's bounds, and so between the least and the largest sample. */
  lemma PercentileInBounds(h: Figures, samples: seq<real>, t: real, i: nat)
    requires Figure(h, samples) && 0.0 <= t && FallsIn(h, samples, t, i)
    ensures Left(h, samples, i) <= Interpolated(h, samples, t, i) <= Right(h, i)
    ensures h.min <= Interpolated(h, samples, t, i) <= h.max
  {
    BoundsInOrder(h, samples, i);
    RemapBetween(t, InFirst(samples, h.limits, i) as real, InFirst(samples, h.limits, i + 1) as real,
                 Left(h, samples, i), Right(h, i));
  }

  /** A larger threshold falls in no earlier bucket and gives no smaller percentile. */
  lemma PercentileGrows(h: Figures, samples: seq<real>, t: real, i: nat, t': real, i': nat)
    requires Figure(h, samples) && 0.0 <= t <= t' && FallsIn(h, samples, t, i) && FallsIn(h, samples, t', i')
    ensures i <= i' && Interpolated(h, samples, t, i) <= Interpolated(h, samples, t', i')
  {
    CountsGrow(h, samples, i' + 1, i);
    CountsGrow(h, samples, i + 1, i');
    if i == i' {
      BoundsInOrder(h, samples, i);
      RemapGrows(t, t', InFirst(samples, h.limits, i) as real, InFirst(samples, h.limits, i + 1) as real,
                 Left(h, samples, i), Right(h, i));
    } else {
      PercentileInBounds(h, samples, t, i);
      PercentileInBounds(h, samples, t', i');
      assert Right(h, i) <= h.limits[i] <= h.limits[i' - 1] <= Left(h, samples, i');
    }
  }

  lemma CountsGrow(h: Figures, samples: seq<real>, i: nat, j: nat)
    requires Figure(h, samples) && j <= |h.limits|
    ensures i <= j ==> InFirst(samples, h.limits, i) <= InFirst(samples, h.limits, j)
  {
    if 0 < i < j {
      BelowGrows(samples, h.limits[i - 1], h.limits[j - 1]);
    }
  }

  /** The 0th percentile is the least sample and the 100th the largest. */
  lemma PercentileEnds(h: Figures, samples: seq<real>, t: real, i: nat)
    requires Figure(h, samples) && FallsIn(h, samples, t, i)
    ensures t == 0.0 ==> Interpolated(h, samples, t, i) == h.min
    ensures t == h.num ==> Interpolated(h, samples, t, i) == h.max
  {
    var lo, hi := InFirst(samples, h.limits, i) as real, InFirst(samples, h.limits, i + 1) as real;
    RemapEnds(lo, hi, Left(h, samples, i), Right(h, i));
    if t == h.num {
      BucketCounts(h, samples, i);
      assert h.max in samples;
      MaxBelow(samples, h.limits[i], h.max);
    }
  }

  /** Where all samples are counted, so is each. */
  lemma {:induction false} MaxBelow(samples: seq<real>, x: real, v: real)
    requires Below(samples, x) == |samples| && v in samples
    ensures v < x
  {
    var front := samples[..|samples| - 1];
    BelowGrows(front, x, x);
    if v in front {
      MaxBelow(front, x, v);
    }
  }

  /** v is the k-th smallest sample. */
  predicate IsRanked(samples: seq<real>, k: nat, v: real) {
    v in samples && Below(samples, v) < k <= UpTo(samples, v)
  }

  /** The percentile is between the limits of the bucket that holds the sample of that rank: the
      k-th smallest, k being the threshold rounded up. */
  lemma PercentileIsNearItsSample(h: Figures, samples: seq<real>, t: real, i: nat, k: nat, v: real)
    requires Figure(h, samples) && FallsIn(h, samples, t, i)
    requires 0.0 < t <= k as real < t + 1.0 && IsRanked(samples, k, v)
    ensures (i > 0 ==> h.limits[i - 1] <= v) && v < h.limits[i]
    ensures (i > 0 ==> h.limits[i - 1] <= Interpolated(h, samples, t, i)) && Interpolated(h, samples, t, i) <= h.limits[i]
  {
    RankInBucket(h, samples, t, i, k);
    if h.limits[i] <= v {
      BelowGrows(samples, h.limits[i], v);
    }
    if i > 0 && v < h.limits[i - 1] {
      BelowGrows(samples, v, h.limits[i - 1]);
    }
    PercentileInBounds(h, samples, t, i);
    if i > 0 && InFirst(samples, h.limits, i) == 0 {
      NoneBelow(samples, h.limits[i - 1], h.min);
    }
  }

  lemma {:induction false} NoneBelow(samples: seq<real>, x: real, v: real)
    requires Below(samples, x) == 0 && v in samples
    ensures x <= v
  {
    var front := samples[..|samples| - 1];
    if v in front {
      NoneBelow(front, x, v);
    }
  }

  lemma RankInBucket(h: Figures, samples: seq<real>, t: real, i: nat, k: nat)
    requires FallsIn(h, samples, t, i) && 0.0 < t <= k as real < t + 1.0
    ensures InFirst(samples, h.limits, i) < k <= InFirst(samples, h.limits, i + 1)
  {
  }

  // ------------------------------------------------------- percentiles within a bucket

  /** The limits of bucket i, narrowed to the least and the largest sample. */
  function LowerBound(h: Figures, samples: seq<real>, i: nat): real
    requires i < |h.limits|
  {
    if i == 0 || Below(samples, h.limits[i - 1]) == 0 || h.limits[i - 1] < h.min then h.min else h.limits[i - 1]
  }

  function UpperBound(h: Figures, i: nat): real
    requires i < |h.limits|
  {
    if h.max < h.limits[i] then h.max else h.limits[i]
  }

  /** How many samples are in bucket i. */
  function InBucket(samples: seq<real>, limits: seq<real>, i: nat): int
    requires i < |limits|
  {
    Below(samples, limits[i]) - if i == 0 then 0 else Below(samples, limits[i - 1])
  }

  lemma RemapIsLine(x: real, x0: real, x1: real, y0: real, y1: real)
    requires x0 < x1
    ensures (Remap(x, x0, x1, y0, y1) - y0) * (x1 - x0) == (x - x0) * (y1 - y0)
  {
    var w := (x - x0) / (x1 - x0);
    assert w * (x1 - x0) == x - x0;
    Reordered(w, x1 - x0, y1 - y0);
  }

  lemma Reordered(w: real, d: real, e: real)
    ensures (w * e) * d == (w * d) * e
  {
  }

  lemma LinesApart(r: real, r': real, y: real, t: real, t': real, x: real, n: real, d: real)
    requires (r - y) * n == (t - x) * d && (r' - y) * n == (t' - x) * d
    ensures (r' - r) * n == (t' - t) * d
  {
    assert (r' - r) * n == (r' - y) * n - (r - y) * n;
    assert (t' - t) * d == (t' - x) * d - (t - x) * d;
  }

  lemma HundredTimes(num: real, p: real)
    ensures Threshold(num, p) * 100.0 == num * p
  {
    assert p / 100.0 * 100.0 == p;
    Reordered(num, 100.0, p / 100.0);
  }

  /** The difference of values is to the width as that of thresholds is to the number of samples. */
  predicate InProportion(value: real, width: real, threshold: real, number: real) {
    value * number == threshold * width
  }

  /** A bucket: its bounds, the samples before it and in it. */
  ghost predicate IsBucket(h: Figures, samples: seq<real>, i: nat, lower: real, upper: real, before: real, number: real) {
    && i < |h.limits| && lower == LowerBound(h, samples, i) && upper == UpperBound(h, i)
    && before == InFirst(samples, h.limits, i) as real && number == InBucket(samples, h.limits, i) as real
  }

  lemma LineOfBucket(h: Figures, samples: seq<real>, t: real, i: nat, r: real,
                     lower: real, upper: real, before: real, number: real)
    requires Figure(h, samples) && FallsIn(h, samples, t, i) && r == Interpolated(h, samples, t, i)
    requires IsBucket(h, samples, i, lower, upper, before, number)
    ensures InProportion(r - lower, upper - lower, t - before, number)
  {
    RemapIsLine(t, before, before + number, lower, upper);
  }

  lemma BothInProportion(r: real, s: real, lower: real, width: real, t: real, u: real, before: real, number: real)
    requires InProportion(r - lower, width, t - before, number) && InProportion(s - lower, width, u - before, number)
    ensures InProportion(s - r, width, u - t, number)
  {
    LinesApart(r, s, lower, t, u, before, number, width);
  }

  lemma LastOfBucket(h: Figures, samples: seq<real>, t: real, i: nat)
    requires Figure(h, samples) && FallsIn(h, samples, t, i) && t == Below(samples, h.limits[i]) as real
    ensures Interpolated(h, samples, t, i) == UpperBound(h, i)
  {
    RemapEnds(InFirst(samples, h.limits, i) as real, InFirst(samples, h.limits, i + 1) as real,
              LowerBound(h, samples, i), UpperBound(h, i));
  }

  /** Two values where the thresholds t and u fall in buckets i and j. */
  lemma TwoInBucket(h: Figures, samples: seq<real>, t: real, u: real, i: nat, r: real, s: real,
                    lower: real, upper: real, before: real, number: real)
    requires Figure(h, samples) && FallsIn(h, samples, t, i) && FallsIn(h, samples, u, i)
    requires r == Interpolated(h, samples, t, i) && s == Interpolated(h, samples, u, i)
    requires IsBucket(h, samples, i, lower, upper, before, number)
    ensures InProportion(s - r, upper - lower, u - t, number)
  {
    LineOfBucket(h, samples, t, i, r, lower, upper, before, number);
    LineOfBucket(h, samples, u, i, s, lower, upper, before, number);
    BothInProportion(r, s, lower, upper - lower, t, u, before, number);
  }

  /** Within a bucket percentiles are linear, and the last one there is its upper bound: p and q fall
      in buckets i and j with the thresholds t and u. */
  method PercentilesAreLinear(h: Histogram, p: real, q: real)
      returns (r: real, s: real, ghost i: nat, ghost j: nat, ghost t: real, ghost u: real)
    requires h.Valid() && h.num > 0.0 && p <= 100.0 && q <= 100.0
    ensures t * 100.0 == h.num * p && u * 100.0 == h.num * q
    ensures FallsIn(h.Kept(), h.samples, t, i) && FallsIn(h.Kept(), h.samples, u, j)
    ensures i == j ==> forall lower, upper, before, number ::
              IsBucket(h.Kept(), h.samples, i, lower, upper, before, number) ==>
                InProportion(s - r, upper - lower, u - t, number)
    ensures t == Below(h.samples, h.limits[i]) as real ==> r == UpperBound(h.Kept(), i)
  {
    r, i, t := PercentileAt(h, p);
    s, j, u := PercentileAt(h, q);
    BucketsAreLinear(h.Kept(), h.samples, t, u, i, j, r, s);
  }

  method PercentileAt(h: Histogram, p: real) returns (r: real, ghost i: nat, ghost t: real)
    requires h.Valid() && h.num > 0.0 && p <= 100.0
    ensures t * 100.0 == h.num * p && FallsIn(h.Kept(), h.samples, t, i) && r == Interpolated(h.Kept(), h.samples, t, i)
  {
    t := Threshold(h.num, p);
    HundredTimes(h.num, p);
    r, i := h.Percentile(p);
  }

  lemma BucketsAreLinear(h: Figures, samples: seq<real>, t: real, u: real, i: nat, j: nat, r: real, s: real)
    requires Figure(h, samples) && FallsIn(h, samples, t, i) && FallsIn(h, samples, u, j)
    requires r == Interpolated(h, samples, t, i) && s == Interpolated(h, samples, u, j)
    ensures i == j ==> forall lower, upper, before, number ::
              IsBucket(h, samples, i, lower, upper, before, number) ==> InProportion(s - r, upper - lower, u - t, number)
    ensures t == Below(samples, h.limits[i]) as real ==> r == UpperBound(h, i)
  {
    if i == j {
      forall lower, upper, before, number | IsBucket(h, samples, i, lower, upper, before, number)
        ensures InProportion(s - r, upper - lower, u - t, number)
      {
        TwoInBucket(h, samples, t, u, i, r, s, lower, upper, before, number);
      }
    }
    if t == Below(samples, h.limits[i]) as real {
      LastOfBucket(h, samples, t, i);
    }
  }

  // ------------------------------------------------------------------------ the variance

  lemma {:induction false} SquaresAround(samples: seq<real>, v: real)
    ensures SumOfSquares(samples) - 2.0 * v * Sum(samples) + (|samples| as real) * (v * v) >= 0.0
  {
    if samples != [] {
      var front, x := samples[..|samples| - 1], samples[|samples| - 1];
      SquaresAround(front, v);
      var n, s := |front| as real, Sum(front);
      assert (x - v) * (x - v) >= 0.0;
      assert (x - v) * (x - v) == x * x - 2.0 * v * x + v * v;
      assert 2.0 * v * (s + x) == 2.0 * v * s + 2.0 * v * x;
      assert (n + 1.0) * (v * v) == n * (v * v) + v * v;
    }
  }

  lemma {:induction false} VarianceIsPositive(samples: seq<real>)
    ensures Spread(SumOfSquares(samples), |samples| as real, Sum(samples)) >= 0.0
  {
    if samples != [] {
      var front, x := samples[..|samples| - 1], samples[|samples| - 1];
      VarianceIsPositive(front);
      SquaresAround(front, x);
      var n, s, q := |front| as real, Sum(front), SumOfSquares(front);
      assert (q + x * x) * (n + 1.0) - (s + x) * (s + x) == (q * n - s * s) + (q - 2.0 * x * s + n * (x * x));
    }
  }
}
