/** base/random/distribution_sampler.{h,cc}: Walker's alias table, over exact reals. */
module DistributionSampler {

  // ------------------------------------------------------------------- the sums

  function Sum(w: seq<real>): real {
    if w == [] then 0.0 else Sum(w[..|w| - 1]) + w[|w| - 1]
  }

  /** What the first n columns hand on to item i. */
  function Given(alt: seq<int>, pr: seq<real>, i: int, n: nat): real
    requires n <= |alt| && n <= |pr|
  {
    if n == 0 then 0.0
    else Given(alt, pr, i, n - 1) + (if alt[n - 1] == i then 1.0 - pr[n - 1] else 0.0)
  }

  /** By how much the columns not paired yet exceed 1 together. */
  function Excess(alt: seq<int>, pr: seq<real>, n: nat): real
    requires n <= |alt| && n <= |pr|
  {
    if n == 0 then 0.0
    else Excess(alt, pr, n - 1) + (if alt[n - 1] == -1 then pr[n - 1] - 1.0 else 0.0)
  }

  lemma {:induction false} PairingGives(alt: seq<int>, pr: seq<real>, l: nat, h: nat, i: nat, n: nat)
    requires n <= |alt| == |pr| && l < |alt| && h < |alt| && l != h && alt[l] == alt[h] == -1
    ensures
      Given(alt[l := h], pr[h := pr[h] - (1.0 - pr[l])], i, n) ==
      Given(alt, pr, i, n) + (if i == h && l < n then 1.0 - pr[l] else 0.0)
  {
    if n != 0 {
      PairingGives(alt, pr, l, h, i, n - 1);
    }
  }

  lemma {:induction false} PairingKeepsExcess(alt: seq<int>, pr: seq<real>, l: nat, h: nat, n: nat)
    requires n <= |alt| == |pr| && l < |alt| && h < |alt| && l != h && alt[l] == alt[h] == -1
    ensures
      Excess(alt[l := h], pr[h := pr[h] - (1.0 - pr[l])], n) ==
      Excess(alt, pr, n) + (if l < n then 1.0 - pr[l] else 0.0) - (if h < n then 1.0 - pr[l] else 0.0)
  {
    if n != 0 {
      PairingKeepsExcess(alt, pr, l, h, n - 1);
    }
  }

  /** With no excess, unpaired columns that are all at least 1, or all at most 1, are 1. */
  lemma {:induction false} ExcessSigns(alt: seq<int>, pr: seq<real>, n: nat, k: nat)
    requires n <= |alt| == |pr| && k < n && alt[k] == -1
    ensures
      (forall j :: 0 <= j < n && alt[j] == -1 ==> pr[j] >= 1.0) ==> Excess(alt, pr, n) >= pr[k] - 1.0 >= 0.0
    ensures
      (forall j :: 0 <= j < n && alt[j] == -1 ==> pr[j] < 1.0) ==> Excess(alt, pr, n) <= pr[k] - 1.0 < 0.0
  {
    if k < n - 1 {
      ExcessSigns(alt, pr, n - 1, k);
    } else {
      ExcessSign(alt, pr, n - 1);
    }
  }

  lemma {:induction false} ExcessSign(alt: seq<int>, pr: seq<real>, n: nat)
    requires n <= |alt| == |pr|
    ensures (forall j :: 0 <= j < n && alt[j] == -1 ==> pr[j] >= 1.0) ==> Excess(alt, pr, n) >= 0.0
    ensures (forall j :: 0 <= j < n && alt[j] == -1 ==> pr[j] < 1.0) ==> Excess(alt, pr, n) <= 0.0
  {
    if n != 0 {
      ExcessSign(alt, pr, n - 1);
    }
  }

  /** Item i's share of n columns of mass 1. */
  function Scaled(w: seq<real>, i: nat): real
    requires i < |w| && Sum(w) > 0.0
  {
    Scale(w[i], |w|, Sum(w))
  }

  function Scale(x: real, n: nat, sum: real): real
    requires sum > 0.0
  {
    x * n as real / sum
  }

  /** The scaled weights sum to the number of columns. */
  lemma {:induction false} ScaledExcess(w: seq<real>, alt: seq<int>, pr: seq<real>, n: nat)
    requires n <= |w| == |alt| == |pr| && Sum(w) > 0.0
    requires forall i :: 0 <= i < |w| ==> alt[i] == -1 && pr[i] == Scaled(w, i)
    ensures Excess(alt, pr, n) == Scale(Sum(w[..n]), |w|, Sum(w)) - n as real
  {
    if n != 0 {
      ScaledExcess(w, alt, pr, n - 1);
      assert w[..n][..n - 1] == w[..n - 1];
      ScaleAdds(Sum(w[..n - 1]), w[n - 1], |w|, Sum(w));
    } else {
      assert w[..0] == [];
    }
  }

  lemma ScaleAdds(a: real, b: real, n: nat, sum: real)
    requires sum > 0.0
    ensures Scale(a + b, n, sum) == Scale(a, n, sum) + Scale(b, n, sum)
  {
  }

  lemma ScaleLaws(a: real, n: nat, sum: real)
    requires sum > 0.0
    ensures Scale(sum, n, sum) == n as real
    ensures a >= 0.0 ==> Scale(a, n, sum) >= 0.0
    ensures Scale(a, n, sum) == a / sum * n as real
  {
  }

  // ------------------------------------------------------------------ the pairing

  // Item is true; it only says which items a mass is looked at for.
  predicate Item(i: int) { true }

  /** Every item's mass is what is left of its own column and what it was given; the
      unpaired columns carry mass 1 on average. */
  ghost predicate Masses(w: seq<real>, alt: seq<int>, pr: seq<real>)
    requires |w| == |alt| == |pr| && Sum(w) > 0.0
  {
    && (forall i {:trigger Item(i)} :: Item(i) && 0 <= i < |w| ==> pr[i] + Given(alt, pr, i, |w|) == Scaled(w, i))
    && (forall n: nat {:trigger Item(n)} :: Item(n) && n == |w| ==> Excess(alt, pr, n) == 0.0)
  }

  /** The two stacks hold the unpaired columns, split by 1. */
  ghost predicate Stacks(alt: seq<int>, pr: seq<real>, high: seq<int>, low: seq<int>)
    requires |alt| == |pr|
  {
    && Stack(alt, high) && Stack(alt, low) && Covers(alt, high, low)
    && (forall i :: 0 <= i < |alt| ==> -1 <= alt[i] < |alt|)
    && (forall i :: 0 <= i < |alt| && alt[i] != -1 ==> 0.0 <= pr[i] < 1.0)
    && (forall k :: 0 <= k < |high| ==> pr[high[k]] >= 1.0)
    && (forall k :: 0 <= k < |low| ==> 0.0 <= pr[low[k]] < 1.0)
  }

  /** The pairing loop's invariant. */
  ghost predicate Pairing(w: seq<real>, alt: seq<int>, pr: seq<real>, high: seq<int>, low: seq<int>) {
    |w| == |alt| == |pr| && Sum(w) > 0.0 && Masses(w, alt, pr) && Stacks(alt, pr, high, low)
  }

  /** Distinct unpaired columns. */
  ghost predicate Stack(alt: seq<int>, s: seq<int>) {
    && (forall k :: 0 <= k < |s| ==> 0 <= s[k] < |alt| && alt[s[k]] == -1)
    && (forall j, k :: 0 <= j < k < |s| ==> s[j] != s[k])
  }

  ghost predicate Covers(alt: seq<int>, high: seq<int>, low: seq<int>) {
    && (forall i :: 0 <= i < |alt| && alt[i] == -1 ==> i in high || i in low)
    && (forall i :: i in high ==> i !in low)
  }

  lemma RoundKeepsMasses(w: seq<real>, alt: seq<int>, pr: seq<real>, l: nat, h: nat)
    requires |w| == |alt| == |pr| && Sum(w) > 0.0 && Masses(w, alt, pr)
    requires l < |w| && h < |w| && l != h && alt[l] == alt[h] == -1
    ensures Masses(w, alt[l := h], pr[h := pr[h] - (1.0 - pr[l])])
  {
    forall i {:trigger Item(i)} | Item(i) && 0 <= i < |w|
      ensures
        pr[h := pr[h] - (1.0 - pr[l])][i] + Given(alt[l := h], pr[h := pr[h] - (1.0 - pr[l])], i, |w|) == Scaled(w, i)
    {
      PairingGives(alt, pr, l, h, i, |w|);
    }
    assert Item(|w|);
    PairingKeepsExcess(alt, pr, l, h, |w|);
  }

  lemma RoundKeepsStacks(alt: seq<int>, pr: seq<real>, high: seq<int>, low: seq<int>, l: nat, h: nat)
    requires |alt| == |pr| && Stacks(alt, pr, high + [h], low + [l])
    ensures l < |pr| && h < |pr| && l != h && alt[l] == alt[h] == -1
    ensures
      var remaining := pr[h] - (1.0 - pr[l]);
      if remaining < 1.0
      then Stacks(alt[l := h], pr[h := remaining], high, low + [h])
      else Stacks(alt[l := h], pr[h := remaining], high + [h], low)
  {
    assert (high + [h])[|high|] == h && (low + [l])[|low|] == l;
    assert h in high + [h] && l in low + [l];
    var remaining := pr[h] - (1.0 - pr[l]);
    var alt', pr' := alt[l := h], pr[h := remaining];
    TopOfStack(alt, high, h);
    TopOfStack(alt, low, l);
    assert forall k :: 0 <= k < |low| ==> low[k] in low;
    assert forall k :: 0 <= k < |high| ==> high[k] in high;
    forall k | 0 <= k < |high|
      ensures high[k] != h && high[k] != l && pr[high[k]] >= 1.0
    {
      assert (high + [h])[k] == high[k];
    }
    forall k | 0 <= k < |low|
      ensures low[k] != h && low[k] != l && 0.0 <= pr[low[k]] < 1.0
    {
      assert (low + [l])[k] == low[k] && low[k] in low + [l];
    }
  }

  lemma PushStack(alt: seq<int>, s: seq<int>, x: int)
    requires Stack(alt, s) && 0 <= x < |alt| && alt[x] == -1 && x !in s
    ensures Stack(alt, s + [x])
  {
  }

  lemma TopOfStack(alt: seq<int>, s: seq<int>, x: int)
    requires Stack(alt, s + [x])
    ensures Stack(alt, s) && 0 <= x < |alt| && alt[x] == -1 && x !in s
  {
    assert (s + [x])[|s|] == x;
    forall k | 0 <= k < |s|
      ensures 0 <= s[k] < |alt| && alt[s[k]] == -1 && s[k] != x
    {
      assert (s + [x])[k] == s[k];
    }
    forall j, k | 0 <= j < k < |s|
      ensures s[j] != s[k]
    {
      assert (s + [x])[j] == s[j] && (s + [x])[k] == s[k];
    }
  }

  function Last(s: seq<int>): int
    requires s != []
  {
    s[|s| - 1]
  }

  /** What one round makes of pr and the stacks: the last low column is topped up from the
      last high column, which goes back on the stack it now belongs to. */
  function Round(pr: seq<real>, high: seq<int>, low: seq<int>): (seq<real>, seq<int>, seq<int>)
    requires high != [] && low != [] && 0 <= Last(high) < |pr| && 0 <= Last(low) < |pr|
  {
    var (l, h) := (Last(low), Last(high));
    var remaining := pr[h] - (1.0 - pr[l]);
    var (high', low') := (high[..|high| - 1], low[..|low| - 1]);
    if remaining < 1.0 then (pr[h := remaining], high', low' + [h]) else (pr[h := remaining], high' + [h], low')
  }

  lemma PairingLast(w: seq<real>, alt: seq<int>, pr: seq<real>, high: seq<int>, low: seq<int>)
    requires Pairing(w, alt, pr, high, low)
    ensures high != [] ==> 0 <= Last(high) < |pr| && pr[Last(high)] >= 1.0
    ensures low != [] ==> 0 <= Last(low) < |pr|
  {
  }

  lemma NextStacks(alt: seq<int>, pr: seq<real>, high: seq<int>, low: seq<int>)
    requires |alt| == |pr| && Stacks(alt, pr, high, low) && high != [] && low != []
    requires 0 <= Last(high) < |pr| && 0 <= Last(low) < |pr|
    ensures Last(low) != Last(high) && alt[Last(low)] == alt[Last(high)] == -1
    ensures var r := Round(pr, high, low); Stacks(alt[Last(low) := Last(high)], r.0, r.1, r.2)
  {
    assert high == high[..|high| - 1] + [Last(high)] && low == low[..|low| - 1] + [Last(low)];
    RoundKeepsStacks(alt, pr, high[..|high| - 1], low[..|low| - 1], Last(low), Last(high));
  }

  lemma PairingRound(w: seq<real>, alt: seq<int>, pr: seq<real>, high: seq<int>, low: seq<int>)
    requires Pairing(w, alt, pr, high, low) && high != [] && low != []
    requires 0 <= Last(high) < |pr| && 0 <= Last(low) < |pr|
    ensures var r := Round(pr, high, low); Pairing(w, alt[Last(low) := Last(high)], r.0, r.1, r.2)
  {
    NextStacks(alt, pr, high, low);
    RoundKeepsMasses(w, alt, pr, Last(low), Last(high));
  }

  /** When one stack runs out, low is empty and the high columns are exactly 1. */
  lemma PairingEnds(w: seq<real>, alt: seq<int>, pr: seq<real>, high: seq<int>, low: seq<int>)
    requires Pairing(w, alt, pr, high, low) && (high == [] || low == [])
    ensures low == [] && forall k :: 0 <= k < |high| ==> pr[high[k]] == 1.0
  {
    assert Item(|w|);
    if low != [] {
      assert forall j :: 0 <= j < |alt| && alt[j] == -1 ==> j in low;
      ExcessSigns(alt, pr, |w|, low[0]);
    }
    forall k | 0 <= k < |high|
      ensures pr[high[k]] == 1.0
    {
      assert forall j :: 0 <= j < |alt| && alt[j] == -1 ==> j in high;
      ExcessSigns(alt, pr, |w|, high[k]);
    }
  }

  // -------------------------------------------------------------------- the table

  /** Item i's mass in the table: its own column and what other columns alias to it. */
  function Share(d: seq<(real, int)>, i: int, n: nat): real
    requires n <= |d|
  {
    if n == 0 then 0.0
    else
      Share(d, i, n - 1) + (if n - 1 == i then d[n - 1].0 else 0.0) + (if d[n - 1].1 == i then 1.0 - d[n - 1].0 else 0.0)
  }

  /** The finished table: the unpaired columns are aliased to themselves with mass 1. */
  ghost predicate Finished(alt: seq<int>, pr: seq<real>, d: seq<(real, int)>) {
    && |alt| == |pr| == |d|
    && forall j :: 0 <= j < |d| ==> d[j] == if alt[j] == -1 then (1.0, j) else (pr[j], alt[j])
  }

  lemma {:induction false} FinishedShare(alt: seq<int>, pr: seq<real>, d: seq<(real, int)>, i: nat, n: nat)
    requires Finished(alt, pr, d) && n <= |d| && (forall j :: 0 <= j < |d| && alt[j] == -1 ==> pr[j] == 1.0)
    ensures Share(d, i, n) == Given(alt, pr, i, n) + (if i < n then pr[i] else 0.0)
  {
    if n != 0 {
      FinishedShare(alt, pr, d, i, n - 1);
    }
  }

  /** The share of every item is its weight, scaled; every alias is a column. */
  ghost predicate Realises(d: seq<(real, int)>, w: seq<real>) {
    && |d| == |w| && Sum(w) > 0.0
    && (forall i :: 0 <= i < |d| ==> 0.0 <= d[i].0 <= 1.0 && 0 <= d[i].1 < |d|)
    && (forall i :: 0 <= i < |d| ==> Share(d, i, |d|) == Scaled(w, i))
  }

  lemma FinishedRealises(w: seq<real>, alt: seq<int>, pr: seq<real>, high: seq<int>, d: seq<(real, int)>)
    requires Pairing(w, alt, pr, high, []) && Finished(alt, pr, d)
    ensures Realises(d, w)
  {
    PairingEnds(w, alt, pr, high, []);
    forall j | 0 <= j < |d| && alt[j] == -1
      ensures pr[j] == 1.0
    {
      assert j in high;
    }
    forall i | 0 <= i < |d|
      ensures Share(d, i, |d|) == Scaled(w, i)
    {
      FinishedShare(alt, pr, d, i, |d|);
      assert Item(i);
    }
  }

  /** The draws r in [0, 1) for which column idx yields item i: a half-open interval. */
  function Yield(column: (real, int), idx: int, i: int): (real, real) {
    if idx == i && column.1 == i then (0.0, 1.0)
    else if idx == i then (0.0, column.0)
    else if column.1 == i then (column.0, 1.0)
    else (0.0, 0.0)
  }

  function Part(x: real, n: nat): real
    requires n > 0
  {
    x / n as real
  }

  lemma PartLaws(a: real, b: real, n: nat, sum: real)
    requires n > 0 && sum > 0.0
    ensures Part(a + b, n) == Part(a, n) + Part(b, n) && Part(0.0, n) == 0.0
    ensures Part(Scale(a, n, sum), n) == a / sum
  {
    ScaleLaws(a, n, sum);
  }

  /** The probability of item i when idx is uniform over the columns and r over [0, 1). */
  function Probability(d: seq<(real, int)>, i: int, n: nat): real
    requires n <= |d|
  {
    if n == 0 then 0.0
    else
      var (lo, hi) := Yield(d[n - 1], n - 1, i);
      Probability(d, i, n - 1) + Part(hi - lo, |d|)
  }

  lemma {:induction false} ProbabilityIsShare(d: seq<(real, int)>, i: int, n: nat)
    requires n <= |d| && 0 < |d|
    ensures Probability(d, i, n) == Part(Share(d, i, n), |d|)
  {
    if n == 0 {
      PartLaws(0.0, 0.0, |d|, 1.0);
    } else {
      ProbabilityIsShare(d, i, n - 1);
      var (lo, hi) := Yield(d[n - 1], n - 1, i);
      PartLaws(Share(d, i, n - 1), hi - lo, |d|, 1.0);
      assert Share(d, i, n) == Share(d, i, n - 1) + (hi - lo);
    }
  }

  /** Sampling is fair: item i is drawn with probability w[i] / Sum(w). */
  lemma SamplingIsExact(d: seq<(real, int)>, w: seq<real>, i: nat)
    requires Realises(d, w) && i < |w|
    ensures Probability(d, i, |d|) == w[i] / Sum(w)
  {
    ProbabilityIsShare(d, i, |d|);
    PartLaws(w[i], 0.0, |d|, Sum(w));
  }

  class DistributionSampler {
    const num: nat
    const data: array<(real, int)>

    ghost predicate Valid(w: seq<real>)
      reads data
    {
      num == data.Length && Realises(data[..], w)
    }

    /** The weights are non-negative with a positive sum. */
    constructor (weights: seq<real>)
      requires weights != [] && Sum(weights) > 0.0 && forall i :: 0 <= i < |weights| ==> weights[i] >= 0.0
      ensures fresh(data) && Valid(weights)
    {
      var n := |weights|;
      num := n;
      data := new (real, int)[n];
      new;
      var pr := new real[n];
      var high, low := Classify(weights, pr);
      ghost var alt;
      high, low, alt := PairUp(weights, pr, high, low);
      Transfer(pr, alt, high, low);
      FinishedRealises(weights, alt, pr[..], high, data[..]);
    }

    /** Sums the weights and clears the aliases. */
    method SumWeights(weights: seq<real>) returns (sum: real)
      requires num == data.Length == |weights|
      modifies data
      ensures sum == Sum(weights)
      ensures forall i :: 0 <= i < num ==> data[i].1 == -1
    {
      sum := 0.0;
      for i := 0 to num
        invariant sum == Sum(weights[..i])
        invariant forall j :: 0 <= j < i ==> data[j].1 == -1
      {
        sum := sum + weights[i];
        SetAlt(i, -1);
        assert weights[..i + 1][..i] == weights[..i];
      }
      assert weights[..num] == weights;
    }

    /** Splits the scaled weights by 1. */
    method Classify(weights: seq<real>, pr: array<real>) returns (high: seq<int>, low: seq<int>)
      requires Sum(weights) > 0.0 && forall i :: 0 <= i < |weights| ==> weights[i] >= 0.0
      requires num == data.Length == pr.Length == |weights|
      modifies data, pr
      ensures forall i :: 0 <= i < num ==> data[i].1 == -1
      ensures Pairing(weights, seq(num, _ => -1), pr[..], high, low)
    {
      var sum := SumWeights(weights);
      ghost var alt := seq(num, _ => -1);
      high, low := [], [];
      for i := 0 to num
        invariant forall j {:trigger Item(j)} :: Item(j) && 0 <= j < i ==> pr[j] == Scaled(weights, j)
        invariant Split(alt, pr[..], high, low, i)
        invariant forall j :: 0 <= j < num ==> data[j].1 == -1
      {
        var p := Scale(weights[i], num, sum);
        ScaleLaws(weights[i], num, sum);
        SplitGrows(alt, pr[..], high, low, i, p);
        ghost var before := pr[..];
        pr[i] := p;
        assert pr[..] == before[i := p];
        if p < 1.0 {
          low := low + [i];
        } else {
          high := high + [i];
        }
      }
      StartPairing(weights, alt, pr[..], high, low);
    }

    /** Pairs high with low until one of them is empty; then low is. */
    method PairUp(ghost w: seq<real>, pr: array<real>, high0: seq<int>, low0: seq<int>)
      returns (high: seq<int>, low: seq<int>, ghost alt: seq<int>)
      requires num == data.Length == pr.Length == |w|
      requires forall i :: 0 <= i < num ==> data[i].1 == -1
      requires Pairing(w, seq(num, _ => -1), pr[..], high0, low0)
      modifies data, pr
      ensures Pairing(w, alt, pr[..], high, []) && low == []
      ensures forall i :: 0 <= i < num ==> data[i].1 == alt[i]
    {
      high, low, alt := high0, low0, seq(num, _ => -1);
      while high != [] && low != []
        invariant Pairing(w, alt, pr[..], high, low)
        invariant forall i :: 0 <= i < num ==> data[i].1 == alt[i]
        decreases |high| + |low|
      {
        PairingLast(w, alt, pr[..], high, low);
        PairingRound(w, alt, pr[..], high, low);
        alt := alt[Last(low) := Last(high)];
        high, low := PairOne(pr, high, low);
      }
      PairingEnds(w, alt, pr[..], high, low);
    }

    method PairOne(pr: array<real>, high0: seq<int>, low0: seq<int>) returns (high: seq<int>, low: seq<int>)
      requires num == data.Length == pr.Length
      requires high0 != [] && low0 != [] && 0 <= Last(high0) < num && 0 <= Last(low0) < num
      requires pr[Last(high0)] >= 1.0
      modifies data, pr
      ensures (pr[..], high, low) == Round(old(pr[..]), high0, low0)
      ensures forall i :: 0 <= i < num ==> data[i].1 == if i == Last(low0) then Last(high0) else old(data[i].1)
    {
      var l := low0[|low0| - 1];
      low := low0[..|low0| - 1];
      var h := high0[|high0| - 1];
      high := high0[..|high0| - 1];
      SetAlt(l, h);
      assert pr[h] >= 1.0;
      var remaining := pr[h] - (1.0 - pr[l]);
      pr[h] := remaining;
      if remaining < 1.0 {
        low := low + [h];
      } else {
        high := high + [h];
      }
    }

    method SetAlt(i: int, a: int)
      requires 0 <= i < data.Length
      modifies data
      ensures data[..] == old(data[..])[i := (old(data[i].0), a)]
    {
      data[i] := (data[i].0, a);
    }

    method SetProb(i: int, p: real)
      requires 0 <= i < data.Length
      modifies data
      ensures data[..] == old(data[..])[i := (p, old(data[i].1))]
    {
      data[i] := (p, data[i].1);
    }

    /** Copies pr into the table; what is left on the stacks gets mass 1 and itself as alias. */
    method Transfer(pr: array<real>, ghost alt: seq<int>, high: seq<int>, low: seq<int>)
      requires num == data.Length == pr.Length == |alt|
      requires Stack(alt, high) && Stack(alt, low) && Covers(alt, high, low)
      requires forall i :: 0 <= i < num ==> data[i].1 == alt[i]
      modifies data
      ensures Finished(alt, pr[..], data[..])
    {
      for i := 0 to num
        invariant forall j :: 0 <= j < num ==> data[j].1 == alt[j]
        invariant forall j :: 0 <= j < i ==> data[j].0 == pr[j]
      {
        SetProb(i, pr[i]);
      }
      KeepWhole(high);
      KeepWhole(low);
    }

    method KeepWhole(s: seq<int>)
      requires forall k :: 0 <= k < |s| ==> 0 <= s[k] < data.Length
      modifies data
      ensures forall j :: 0 <= j < data.Length ==> data[j] == if j in s then (1.0, j) else old(data[j])
    {
      for i := 0 to |s|
        invariant forall j :: 0 <= j < data.Length ==> data[j] == if j in s[..i] then (1.0, j) else old(data[j])
      {
        var idx := s[i];
        SetProb(idx, 1.0);
        // The column itself, so that rounding errors never return another item.
        SetAlt(idx, idx);
        assert s[..i + 1] == s[..i] + [idx];
      }
      assert s[..|s|] == s;
    }

    /** Sample, on the two draws it makes: r in [0, 1) and idx uniform over the columns. */
    method Sample(r: real, idx: nat, ghost w: seq<real>) returns (item: int)
      requires Valid(w) && 0.0 <= r < 1.0 && idx < num
      ensures 0 <= item < num
      ensures forall i :: var (lo, hi) := Yield(data[idx], idx, i); item == i <==> lo <= r < hi
    {
      if r < data[idx].0 {
        return idx;
      }
      return data[idx].1;
    }
  }

  lemma {:induction false} NothingGiven(alt: seq<int>, pr: seq<real>, i: nat, n: nat)
    requires n <= |alt| && n <= |pr| && forall j :: 0 <= j < n ==> alt[j] == -1
    ensures Given(alt, pr, i, n) == 0.0
  {
    if n != 0 {
      NothingGiven(alt, pr, i, n - 1);
    }
  }

  /** The first n columns are on the stacks. */
  ghost predicate Split(alt: seq<int>, pr: seq<real>, high: seq<int>, low: seq<int>, n: nat)
    requires n <= |alt| == |pr|
  {
    && Stack(alt, high) && Stack(alt, low)
    && (forall i :: 0 <= i < n ==> i in high || i in low)
    && (forall i :: i in high ==> 0 <= i < n && pr[i] >= 1.0)
    && (forall i :: i in low ==> 0 <= i < n && 0.0 <= pr[i] < 1.0)
  }

  lemma SplitGrows(alt: seq<int>, pr: seq<real>, high: seq<int>, low: seq<int>, n: nat, p: real)
    requires n < |alt| == |pr| && Split(alt, pr, high, low, n) && alt[n] == -1 && p >= 0.0
    ensures
      if p < 1.0 then Split(alt, pr[n := p], high, low + [n], n + 1)
      else Split(alt, pr[n := p], high + [n], low, n + 1)
  {
    PushStack(alt, if p < 1.0 then low else high, n);
  }

  lemma StartPairing(w: seq<real>, alt: seq<int>, pr: seq<real>, high: seq<int>, low: seq<int>)
    requires |w| == |alt| == |pr| && Sum(w) > 0.0
    requires forall i {:trigger Item(i)} :: Item(i) && 0 <= i < |w| ==> pr[i] == Scaled(w, i)
    requires forall i :: 0 <= i < |w| ==> alt[i] == -1
    requires Split(alt, pr, high, low, |w|)
    ensures Pairing(w, alt, pr, high, low)
  {
    forall i {:trigger Item(i)} | Item(i) && 0 <= i < |w|
      ensures pr[i] + Given(alt, pr, i, |w|) == Scaled(w, i)
    {
      NothingGiven(alt, pr, i, |w|);
    }
    forall i | 0 <= i < |w|
      ensures alt[i] == -1 && pr[i] == Scaled(w, i)
    {
      assert Item(i);
    }
    ScaledExcess(w, alt, pr, |w|);
    assert w[..|w|] == w;
    ScaleLaws(0.0, |w|, Sum(w));
  }
}
