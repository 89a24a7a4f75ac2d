/** base/random/weighted_picker.{h,cc}: a binary tree of sums over the weights. */
module WeightedPicker {
  import opened Options
  import opened Arithmetic
  import opened BinaryDigits
  import opened ExactUniform

  const INT32_MAX := 0x7fff_ffff

  // The largest size for which LevelSize stays within int.
  const MAX_SIZE := 0x4000_0000

  function Sum(s: seq<int>): int {
    if s == [] then 0 else Sum(s[..|s| - 1]) + s[|s| - 1]
  }

  function Max(a: nat, b: nat): nat { if a < b then b else a }

  // --------------------------------------------------------------------- the tree

  /** Every node is the sum of its two children. */
  ghost predicate IsSumOf(parents: seq<int>, children: seq<int>) {
    |children| == 2 * |parents| && forall i :: 0 <= i < |parents| ==> parents[i] == children[2 * i] + children[2 * i + 1]
  }

  ghost predicate SumAt(levels: seq<seq<int>>, l: nat)
    requires l < |levels| - 1
  {
    IsSumOf(levels[l], levels[l + 1])
  }

  ghost predicate IsTree(levels: seq<seq<int>>) {
    && levels != [] && |levels[0]| == 1
    && forall l :: 0 <= l < |levels| - 1 ==> SumAt(levels, l)
  }

  /** What stands to the left of a node is what stands to the left of its children. */
  lemma {:induction false} PrefixSums(parents: seq<int>, children: seq<int>, i: nat)
    requires IsSumOf(parents, children) && i <= |parents|
    ensures Sum(parents[..i]) == Sum(children[..2 * i])
  {
    if i != 0 {
      PrefixSums(parents, children, i - 1);
      assert parents[..i][..i - 1] == parents[..i - 1];
      var c := children[..2 * i];
      assert c[..2 * i - 1][..2 * i - 2] == children[..2 * i - 2];
      assert c[..2 * i - 1][2 * i - 2] == children[2 * i - 2];
    }
  }

  /** The levels with their sizes: level l has 2^l nodes. */
  ghost predicate IsShaped(levels: seq<seq<int>>) {
    levels != [] && forall l :: 0 <= l < |levels| ==> |levels[l]| == Pow2(l)
  }

  function Bump(s: seq<int>, i: nat, delta: int): seq<int>
    requires i < |s|
  {
    s[i := s[i] + delta]
  }

  /** delta added at node i of level l and at its ancestors. */
  ghost function AddUp(levels: seq<seq<int>>, l: int, i: nat, delta: int): seq<seq<int>>
    requires -1 <= l < |levels| && IsShaped(levels) && (0 <= l ==> i < Pow2(l))
    decreases l + 1
  {
    if l < 0 then levels else AddUp(levels[l := Bump(levels[l], i, delta)], l - 1, i / 2, delta)
  }

  lemma BumpChild(parents: seq<int>, children: seq<int>, c: nat, delta: int)
    requires IsSumOf(parents, children) && c < |children|
    ensures IsSumOf(Bump(parents, c / 2, delta), Bump(children, c, delta))
  {
  }

  /** Levels k and k + 1 agree, once node i of level l has got delta. */
  ghost predicate Agree(levels: seq<seq<int>>, k: nat, l: int, i: nat, delta: int)
    requires k + 1 < |levels| && IsShaped(levels) && (0 <= l < |levels| ==> i < Pow2(l))
  {
    IsSumOf(Later(levels[k], k == l, i, delta), levels[k + 1])
  }

  /** A level, once it got delta if it is to get it. */
  function Later(level: seq<int>, gets: bool, i: nat, delta: int): seq<int>
    requires gets ==> i < |level|
  {
    if gets then Bump(level, i, delta) else level
  }

  /** A tree but for node i of level l, which lacks delta. */
  ghost predicate IsTreeLacking(levels: seq<seq<int>>, l: int, i: nat, delta: int)
    requires -1 <= l < |levels| && IsShaped(levels) && (0 <= l ==> i < Pow2(l))
  {
    forall k :: 0 <= k < |levels| - 1 ==> Agree(levels, k, l, i, delta)
  }

  lemma AddOne(levels: seq<seq<int>>, l: nat, i: nat, delta: int, next: seq<seq<int>>)
    requires l < |levels| && IsShaped(levels) && i < Pow2(l) && IsTreeLacking(levels, l, i, delta)
    requires next == levels[l := Bump(levels[l], i, delta)]
    ensures IsShaped(next) && (0 <= l - 1 ==> i / 2 < Pow2(l - 1)) && IsTreeLacking(next, l - 1, i / 2, delta)
  {
    AddUpStep(levels, l, i, delta, next);
    var l', i' := l - 1, i / 2;
    forall k | 0 <= k < |levels| - 1
      ensures Agree(next, k, l', i', delta)
    {
      assert Agree(levels, k, l, i, delta);
      AddOneAt(levels, l, i, delta, next, k, l', i');
    }
  }

  lemma AddOneAt(levels: seq<seq<int>>, l: nat, i: nat, delta: int, next: seq<seq<int>>, k: nat, l': int, i': nat)
    requires l < |levels| && IsShaped(levels) && i < Pow2(l) && k + 1 < |levels| && Agree(levels, k, l, i, delta)
    requires next == levels[l := Bump(levels[l], i, delta)] && IsShaped(next)
    requires l' == l - 1 && i' == i / 2 && (0 <= l' ==> i' < Pow2(l'))
    ensures Agree(next, k, l', i', delta)
  {
    if k == l' {
      BumpChild(levels[k], levels[l], i, delta);
      assert next[k] == levels[k] && next[k + 1] == Bump(levels[l], i, delta);
    } else {
      assert next[k + 1] == levels[k + 1];
      assert Later(next[k], k == l', i', delta) == Later(levels[k], k == l, i, delta);
    }
  }

  lemma {:induction false} AddUpIsTree(levels: seq<seq<int>>, l: int, i: nat, delta: int)
    requires -1 <= l < |levels| && IsShaped(levels) && (0 <= l ==> i < Pow2(l))
    requires IsTreeLacking(levels, l, i, delta)
    ensures var r := AddUp(levels, l, i, delta);
      IsShaped(r) && IsTree(r) && |r| == |levels| && forall k :: l < k < |levels| ==> r[k] == levels[k]
    decreases l + 1
  {
    if 0 <= l {
      var next := levels[l := Bump(levels[l], i, delta)];
      AddOne(levels, l, i, delta, next);
      AddUpIsTree(next, l - 1, i / 2, delta);
    } else {
      assert |levels[0]| == Pow2(0);
      forall k | 0 <= k < |levels| - 1
        ensures SumAt(levels, k)
      {
        assert Agree(levels, k, l, i, delta);
      }
    }
  }

  /** Adding delta from a leaf up keeps the tree and changes that leaf only. */
  lemma AddFromLeaf(levels: seq<seq<int>>, i: nat, delta: int)
    requires IsShaped(levels) && IsTree(levels) && i < Pow2(|levels| - 1)
    ensures var r := AddUp(levels, |levels| - 1, i, delta);
      IsShaped(r) && IsTree(r) && |r| == |levels| && r[|levels| - 1] == Bump(levels[|levels| - 1], i, delta)
  {
    var top := |levels| - 1;
    var next := levels[top := Bump(levels[top], i, delta)];
    AddUpStep(levels, top, i, delta, next);
    LeafBumped(levels, top, i, delta, next);
    AddUpIsTree(next, top - 1, i / 2, delta);
  }

  lemma AddUpStep(levels: seq<seq<int>>, l: nat, i: nat, delta: int, next: seq<seq<int>>)
    requires l < |levels| && IsShaped(levels) && i < Pow2(l) && next == levels[l := Bump(levels[l], i, delta)]
    ensures IsShaped(next) && (0 <= l - 1 ==> i / 2 < Pow2(l - 1))
    ensures AddUp(levels, l, i, delta) == AddUp(next, l - 1, i / 2, delta)
  {
  }

  lemma LeafBumped(levels: seq<seq<int>>, top: nat, i: nat, delta: int, next: seq<seq<int>>)
    requires IsShaped(levels) && IsTree(levels) && top == |levels| - 1 && i < Pow2(top)
    requires next == levels[top := Bump(levels[top], i, delta)]
    ensures IsShaped(next) && (0 <= top - 1 ==> i / 2 < Pow2(top - 1)) && IsTreeLacking(next, top - 1, i / 2, delta)
  {
    var l', i' := top - 1, i / 2;
    forall k | 0 <= k < top
      ensures Agree(next, k, l', i', delta)
    {
      assert SumAt(levels, k);
      if k == top - 1 {
        BumpChild(levels[k], levels[top], i, delta);
      }
    }
  }

  /** The leaves carry the weights, with zeros behind them, and their sum fits int32. */
  ghost predicate Carries(leaves: seq<int>, n: nat) {
    && n <= |leaves|
    && (forall i :: 0 <= i < |leaves| ==> leaves[i] >= 0)
    && (forall i :: n <= i < |leaves| ==> leaves[i] == 0)
    && Sum(leaves) <= INT32_MAX
  }

  /** The invariant of the tree. */
  ghost predicate Sound(levels: seq<seq<int>>, n: nat)
    requires IsShaped(levels)
  {
    forall u {:trigger Look(u)} :: Look(u) ==> IsTree(levels) && Carries(levels[|levels| - 1], n)
  }

  // Look is true; a proof says Look(0) where it needs what is under it.
  predicate Look(u: int) { true }

  lemma {:induction false} SumUpdate(s: seq<int>, i: nat, v: int)
    requires i < |s|
    ensures Sum(s[i := v]) == Sum(s) - s[i] + v
  {
    var n := |s| - 1;
    if i < n {
      assert s[i := v][..n] == s[..n][i := v];
      SumUpdate(s[..n], i, v);
    } else {
      assert s[i := v][..n] == s[..n];
    }
  }

  /** A prefix sum of non-negative numbers, and zeros that add nothing. */
  lemma {:induction false} SumPrefix(s: seq<int>, i: nat)
    requires i <= |s|
    ensures (forall j :: i <= j < |s| ==> s[j] >= 0) ==> Sum(s[..i]) <= Sum(s)
    ensures (forall j :: i <= j < |s| ==> s[j] == 0) ==> Sum(s[..i]) == Sum(s)
  {
    if i == |s| {
      assert s[..i] == s;
    } else {
      var n := |s| - 1;
      assert s[..n][..i] == s[..i];
      SumPrefix(s[..n], i);
    }
  }

  lemma {:induction false} SumConst(s: seq<int>, w: int)
    requires forall i :: 0 <= i < |s| ==> s[i] == w
    ensures Sum(s) == |s| * w
  {
    if s != [] {
      SumConst(s[..|s| - 1], w);
    }
  }

  /** The root is the sum of the leaves. */
  lemma {:induction false} RootIsSum(levels: seq<seq<int>>, l: nat)
    requires IsShaped(levels) && IsTree(levels) && l < |levels|
    ensures Sum(levels[l]) == levels[0][0]
  {
    if l == 0 {
      assert levels[0][..0] == [];
    } else {
      RootIsSum(levels, l - 1);
      assert SumAt(levels, l - 1);
      PrefixSums(levels[l - 1], levels[l], |levels[l - 1]|);
      assert levels[l - 1][..|levels[l - 1]|] == levels[l - 1] && levels[l][..2 * |levels[l - 1]|] == levels[l];
    }
  }

  function Same(n: nat, w: int): (s: seq<int>)
    ensures |s| == n && forall i :: 0 <= i < n ==> s[i] == w
  {
    seq(n, _ => w)
  }

  function Resized(weights: seq<int>, size: nat): (s: seq<int>)
    ensures |s| == size && forall i :: 0 <= i < size ==> s[i] == if i < |weights| then weights[i] else 0
  {
    if size <= |weights| then weights[..size] else weights + seq(size - |weights|, _ => 0)
  }

  lemma ResizedSum(leaves: seq<int>, n: nat, size: nat)
    requires Carries(leaves, n) && n <= size
    ensures Sum(Resized(leaves[..n], size)) <= INT32_MAX
    ensures forall i :: 0 <= i < size ==> Resized(leaves[..n], size)[i] >= 0
  {
    SumPrefix(leaves, n);
    var r := Resized(leaves[..n], size);
    assert r[..n] == leaves[..n];
    SumPrefix(r, n);
  }

  lemma SoundCarries(levels: seq<seq<int>>, n: nat)
    requires IsShaped(levels) && Sound(levels, n)
    ensures IsTree(levels) && Carries(levels[|levels| - 1], n)
  {
    assert Look(0);
  }

  /** The levels from l + 1 on are sums of those below them. */
  ghost predicate SummedBehind(levels: seq<seq<int>>, l: int) {
    forall k :: 0 <= k && l < k < |levels| - 1 ==> SumAt(levels, k)
  }

  lemma SummedMore(levels: seq<seq<int>>, l: nat, next: seq<seq<int>>)
    requires l + 1 < |levels| && SummedBehind(levels, l) && |next| == |levels| && next == levels[l := next[l]]
    requires SumAt(next, l)
    ensures SummedBehind(next, l - 1)
  {
    forall k | 0 <= k && l - 1 < k < |next| - 1 ensures SumAt(next, k) {
      assert l < k ==> SumAt(levels, k);
    }
  }

  lemma CarriesSound(levels: seq<seq<int>>, n: nat)
    requires IsShaped(levels) && IsTree(levels) && Carries(levels[|levels| - 1], n)
    ensures Sound(levels, n)
  {
  }

  lemma WrittenCarries(leaves: seq<int>, weights: seq<int>)
    requires |weights| <= |leaves| && leaves == weights + seq(|leaves| - |weights|, _ => 0)
    requires (forall i :: 0 <= i < |weights| ==> weights[i] >= 0) && Sum(weights) <= INT32_MAX
    ensures Carries(leaves, |weights|) && leaves[..|weights|] == weights
  {
    assert leaves[..|weights|] == weights;
    SumPrefix(leaves, |weights|);
  }

  /** The weights from a to b set to 0. */
  function Zeroed(w: seq<int>, a: nat, b: nat): seq<int> {
    seq(|w|, k requires 0 <= k < |w| => if a <= k < b then 0 else w[k])
  }

  lemma ResizedSound(levels: seq<seq<int>>, weights: seq<int>, n: nat, size: nat, i: nat)
    requires IsShaped(levels) && Sound(levels, n) && |weights| == n <= Pow2(|levels| - 1)
    requires size <= Pow2(|levels| - 1) && n <= i
    requires levels[|levels| - 1][..n] == Zeroed(weights, size, i)
    ensures Sound(levels, size) && levels[|levels| - 1][..size] == Resized(weights, size)
  {
    SoundCarries(levels, n);
    ResizedLeaves(levels[|levels| - 1], weights, n, size, i);
  }

  lemma ResizedLeaves(leaves: seq<int>, weights: seq<int>, n: nat, size: nat, i: nat)
    requires Carries(leaves, n) && |weights| == n && size <= |leaves| && n <= i
    requires leaves[..n] == Zeroed(weights, size, i)
    ensures Carries(leaves, size) && leaves[..size] == Resized(weights, size)
  {
    forall k | 0 <= k < n
      ensures leaves[k] == Zeroed(weights, size, i)[k]
    {
      assert leaves[k] == leaves[..n][k];
    }
  }

  /** A new weight for one element, in the tree and in the leaves. */
  lemma WeightSet(levels: seq<seq<int>>, n: nat, index: nat, weight: nat, r: seq<seq<int>>)
    requires IsShaped(levels) && Sound(levels, n) && index < n <= Pow2(|levels| - 1)
    requires Sum(levels[|levels| - 1][..n]) - levels[|levels| - 1][index] + weight <= INT32_MAX
    requires r == AddUp(levels, |levels| - 1, index, weight - levels[|levels| - 1][index])
    ensures IsShaped(r) && Sound(r, n) && |r| == |levels|
    ensures r[|r| - 1][..n] == levels[|levels| - 1][..n][index := weight]
  {
    assert Look(0);
    var leaves := levels[|levels| - 1];
    SumPrefix(leaves, n);
    SumUpdate(leaves, index, weight);
    AddFromLeaf(levels, index, weight - leaves[index]);
  }

  ghost function Contents(level: seq<array<int>>): (levels: seq<seq<int>>)
    requires AreLevels(level)
    reads level
    ensures Mirrors(level, levels) && IsShaped(levels)
  {
    seq(|level|, l requires 0 <= l < |level| reads level => level[l][..])
  }

  method NewLevels(size: nat) returns (level: seq<array<int>>)
    ensures AreLevels(level) && size <= Pow2(|level| - 1) && fresh(level)
  {
    var numLevels := LevelsNeeded(size);
    level := [];
    for l := 0 to numLevels
      invariant |level| == l && fresh(level) && (0 < l ==> AreLevels(level))
    {
      var nodes := new int[Pow2(l)];
      level := level + [nodes];
    }
  }

  method LevelsNeeded(size: nat) returns (levels: nat)
    ensures 1 <= levels && size <= Pow2(levels - 1)
  {
    levels := 1;
    while Pow2(levels - 1) < size
      invariant 1 <= levels
      decreases size - Pow2(levels - 1)
    {
      levels := levels + 1;
    }
  }

  method CopyInto(leaves: array<int>, weights: seq<int>)
    requires |weights| <= leaves.Length
    modifies leaves
    ensures leaves[..|weights|] == weights
  {
    for i := 0 to |weights|
      invariant leaves[..i] == weights[..i]
    {
      leaves[i] := weights[i];
      assert leaves[..i + 1] == leaves[..i] + [weights[i]];
    }
  }

  method ZeroBehind(leaves: array<int>, n: nat)
    requires n <= leaves.Length
    modifies leaves
    ensures leaves[..n] == old(leaves[..n]) && leaves[n..] == seq(leaves.Length - n, _ => 0)
  {
    for i := n to leaves.Length
      invariant leaves[..n] == old(leaves[..n]) && forall k :: n <= k < i ==> leaves[k] == 0
    {
      leaves[i] := 0;
    }
  }

  /** Weights and zeros behind them. */
  method FillLeaves(leaves: array<int>, weights: seq<int>)
    requires |weights| <= leaves.Length
    requires (forall i :: 0 <= i < |weights| ==> weights[i] >= 0) && Sum(weights) <= INT32_MAX
    modifies leaves
    ensures Carries(leaves[..], |weights|) && leaves[..|weights|] == weights
  {
    CopyInto(leaves, weights);
    ZeroBehind(leaves, |weights|);
    assert leaves[..] == leaves[..|weights|] + leaves[|weights|..];
    WrittenCarries(leaves[..], weights);
    assert leaves[..][..|weights|] == leaves[..|weights|];
  }

  method SumInto(parents: array<int>, children: array<int>)
    requires parents != children && children.Length == 2 * parents.Length
    modifies parents
    ensures IsSumOf(parents[..], children[..])
  {
    for i := 0 to parents.Length
      invariant children[..] == old(children[..])
      invariant forall k :: 0 <= k < i ==> parents[k] == children[2 * k] + children[2 * k + 1]
    {
      parents[i] := children[2 * i] + children[2 * i + 1];
    }
  }

  /** level l is an array of 2^l nodes, of its own. */
  ghost predicate AreLevels(level: seq<array<int>>) {
    && level != [] && (forall l :: 0 <= l < |level| ==> level[l].Length == Pow2(l))
    && (forall l, m :: 0 <= l < m < |level| ==> level[l] != level[m])
  }

  ghost predicate Mirrors(level: seq<array<int>>, levels: seq<seq<int>>)
    reads level
  {
    |levels| == |level| && forall l :: 0 <= l < |level| ==> levels[l] == level[l][..]
  }

  class WeightedPicker {
    var n: nat                    // N_
    var level: seq<array<int>>    // level_, of num_levels_ arrays

    ghost var levels: seq<seq<int>>    // what the arrays hold

    ghost predicate Shape()
      reads this, level
    {
      AreLevels(level) && Mirrors(level, levels) && IsShaped(levels) && n <= Pow2(|level| - 1)
    }

    method Store(l: nat, i: nat, v: int)
      requires Shape() && l < |level| && i < Pow2(l)
      modifies this`levels, level[l]
      ensures levels == old(levels)[l := old(levels)[l][i := v]]
      ensures Shape()
    {
      ghost var before := level[l][..];
      level[l][i] := v;
      assert level[l][..] == before[i := v];
      levels := levels[l := level[l][..]];
    }

    /** The loop of set_weight. */
    method AddAlongPath(index0: nat, delta: int)
      requires Shape() && index0 < Pow2(|level| - 1)
      modifies this`levels, level
      ensures Shape() && levels == AddUp(old(levels), |level| - 1, index0, delta)
    {
      var index: nat := index0;
      var l := |level| - 1;
      ghost var goal := AddUp(levels, l, index, delta);
      while l >= 0
        invariant Shape() && -1 <= l < |level| && (0 <= l ==> index < Pow2(l))
        invariant AddUp(levels, l, index, delta) == goal
      {
        AddAt(l, index, delta);
        index := index / 2;
        l := l - 1;
      }
    }

    /** One round of that loop. */
    method AddAt(l: nat, index: nat, delta: int)
      requires Shape() && l < |level| && index < Pow2(l)
      modifies this`levels, level[l]
      ensures Shape() && (l > 0 ==> index / 2 < Pow2(l - 1))
      ensures AddUp(levels, l - 1, index / 2, delta) == AddUp(old(levels), l, index, delta)
    {
      ghost var before := levels;
      AddUpStep(before, l, index, delta, before[l := Bump(before[l], index, delta)]);
      var value := Node(l, index);
      Store(l, index, value + delta);
    }

    method Node(l: nat, i: nat) returns (value: int)
      requires Shape() && l < |level| && i < Pow2(l)
      ensures value == levels[l][i]
    {
      assert level[l][..] == levels[l];
      value := level[l][i];
    }

    ghost predicate Valid()
      reads this, level
    {
      Shape() && Sound(levels, n)
    }

    /** The weight of every element. */
    ghost function Weights(): seq<int>
      requires Shape()
      reads this, level
    {
      levels[|level| - 1][..n]
    }

    /** The levels a tree of `size` leaves needs, every weight 1. */
    constructor (size: nat)
      requires size <= MAX_SIZE
      ensures Valid() && fresh(level) && n == size && Weights() == Same(size, 1)
    {
      var arrays := NewLevels(size);
      new;
      SetArrays(size, arrays);
      SetAllWeights(1);
    }

    method SetArrays(size: nat, arrays: seq<array<int>>)
      requires AreLevels(arrays) && size <= Pow2(|arrays| - 1)
      modifies this
      ensures Shape() && n == size && level == arrays
    {
      n, level, levels := size, arrays, Contents(arrays);
    }

    /** Weights and zeros written into the leaves. */
    method WriteLeaves(weights: seq<int>)
      requires Shape() && |weights| == n
      modifies this`levels, level[|level| - 1]
      requires (forall i :: 0 <= i < n ==> weights[i] >= 0) && Sum(weights) <= INT32_MAX
      ensures Shape() && Carries(levels[|level| - 1], n) && levels[|level| - 1][..n] == weights
    {
      var leaves := level[|level| - 1];
      FillLeaves(leaves, weights);
      levels := levels[|level| - 1 := leaves[..]];
    }

    /** The leaves from a list of n weights, zeros behind them, and the sums above them. */
    method SetLeaves(weights: seq<int>)
      requires Shape() && |weights| == n
      requires (forall i :: 0 <= i < n ==> weights[i] >= 0) && Sum(weights) <= INT32_MAX
      modifies this`levels, level
      ensures Valid() && Weights() == weights
    {
      WriteLeaves(weights);
      RebuildTreeWeights();
      CarriesSound(levels, n);
    }

    method SetAllWeights(weight: nat)
      requires Shape() && n * weight <= INT32_MAX
      modifies this`levels, level
      ensures Valid() && Weights() == Same(n, weight)
    {
      var weights := Same(n, weight);
      SumConst(weights, weight);
      SetLeaves(weights);
    }

    method SetWeightsFromArray(weights: seq<int>)
      requires Valid() && |weights| <= MAX_SIZE
      requires (forall i :: 0 <= i < |weights| ==> weights[i] >= 0) && Sum(weights) <= INT32_MAX
      modifies this, level
      ensures Valid() && Weights() == weights
    {
      Resize(|weights|);
      SetLeaves(weights);
    }

    /** Append: one more element. */
    method Append(weight: nat)
      requires Valid() && n < MAX_SIZE && Sum(Weights()) + weight <= INT32_MAX
      modifies this, level
      ensures Valid() && Weights() == old(Weights()) + [weight]
    {
      ghost var before := Weights();
      Resize(n + 1);
      assert Weights() == before + [0];
      assert (before + [0])[..|before|] == before;
      SetWeight(n - 1, weight);
    }

    /** Resize: the surviving weights stay, new ones are 0. */
    method Resize(size: nat)
      requires Valid() && size <= MAX_SIZE
      modifies this, level
      ensures Valid() && n == size && (level == old(level) || fresh(level))
      ensures Weights() == Resized(old(Weights()), size)
    {
      if size <= Pow2(|level| - 1) {
        ResizeWithin(size);
        return;
      }
      var picker := Grown(size);
      Adopt(picker);
    }

    method Adopt(picker: WeightedPicker)
      requires picker.Valid()
      modifies this
      ensures Valid() && n == old(picker.n) && level == old(picker.level) && Weights() == old(picker.Weights())
    {
      n, level, levels := picker.n, picker.level, picker.levels;
    }

    /** A larger picker with the same weights. */
    method Grown(size: nat) returns (picker: WeightedPicker)
      requires Valid() && n <= size <= MAX_SIZE
      ensures fresh(picker) && fresh(picker.level) && picker.Valid() && picker.n == size
      ensures picker.Weights() == Resized(Weights(), size)
    {
      var weights := Padded(size);
      picker := NewPicker(weights);
    }

    method Padded(size: nat) returns (weights: seq<int>)
      requires Valid() && n <= size
      ensures |weights| == size && weights == Resized(Weights(), size)
      ensures Sum(weights) <= INT32_MAX && forall i :: 0 <= i < size ==> weights[i] >= 0
    {
      var leaves := level[|level| - 1];
      assert leaves[..] == levels[|level| - 1];
      SoundCarries(levels, n);
      ResizedSum(levels[|level| - 1], n, size);
      weights := leaves[..n] + seq(size - n, _ => 0);
    }

    lemma WeightsFit()
      requires Valid()
      ensures Sum(Weights()) <= INT32_MAX && forall i :: 0 <= i < n ==> Weights()[i] >= 0
    {
      assert Look(0);
      SumPrefix(levels[|level| - 1], n);
    }

    /** Resizing within the levels: the weights being dropped are zeroed first. */
    method ResizeWithin(size: nat)
      requires Valid() && size <= Pow2(|level| - 1)
      modifies this`n, this`levels, level
      ensures Valid() && n == size && level == old(level)
      ensures Weights() == Resized(old(Weights()), size)
    {
      ghost var weights, upto := Weights(), Max(n, size);
      ZeroFrom(size);
      CutTo(size, weights, upto);
    }

    method CutTo(size: nat, ghost weights: seq<int>, ghost upto: nat)
      requires Valid() && size <= Pow2(|level| - 1) && |weights| == n <= upto
      requires Weights() == Zeroed(weights, size, upto)
      modifies this`n
      ensures Valid() && n == size && Weights() == Resized(weights, size)
    {
      ResizedSound(levels, weights, n, size, upto);
      n := size;
    }

    method ZeroFrom(size: nat)
      requires Valid()
      modifies this`levels, level
      ensures Valid() && Weights() == Zeroed(old(Weights()), size, Max(n, size))
    {
      var i := size;
      ghost var weights := Weights();
      assert Zeroed(weights, size, size) == weights;
      while i < n
        invariant Valid() && size <= i <= Max(n, size)
        invariant Weights() == Zeroed(weights, size, i)
      {
        ZeroOne(weights, size, i);
        i := i + 1;
      }
    }

    method ZeroOne(ghost weights: seq<int>, ghost size: nat, i: nat)
      requires Valid() && size <= i < n && Weights() == Zeroed(weights, size, i)
      modifies this`levels, level
      ensures Valid() && Weights() == Zeroed(weights, size, i + 1)
    {
      WeightsFit();
      assert Zeroed(weights, size, i)[i := 0] == Zeroed(weights, size, i + 1);
      SetWeight(i, 0);
    }

    /** set_weight */
    method SetWeight(index: nat, weight: nat)
      requires Valid() && index < n
      requires Sum(Weights()) - Weights()[index] + weight <= INT32_MAX
      modifies this`levels, level
      ensures Valid() && Weights() == old(Weights())[index := weight]
    {
      var last: nat := |level| - 1;
      var now := Node(last, index);
      AddToLeaf(index, weight, weight - now);
    }

    method AddToLeaf(index: nat, ghost weight: nat, delta: int)
      requires Valid() && index < n && delta == weight - Weights()[index]
      requires Sum(Weights()) + delta <= INT32_MAX
      modifies this`levels, level
      ensures Valid() && Weights() == old(Weights())[index := weight]
    {
      ghost var r := AddUp(levels, |level| - 1, index, delta);
      WeightSet(levels, n, index, weight, r);
      AddAlongPath(index, delta);
    }

    /** The inner loop of RebuildTreeWeights. */
    method SumLevel(l: nat)
      requires Shape() && l + 1 < |level|
      modifies this`levels, level[l]
      ensures Shape() && levels == old(levels)[l := levels[l]] && SumAt(levels, l)
    {
      SumInto(level[l], level[l + 1]);
      levels := levels[l := level[l][..]];
    }

    method RebuildLevel(l: nat)
      requires Shape() && l + 1 < |level| && SummedBehind(levels, l)
      modifies this`levels, level
      ensures Shape() && SummedBehind(levels, l - 1) && levels[|level| - 1] == old(levels)[|level| - 1]
    {
      ghost var before := levels;
      SumLevel(l);
      SummedMore(before, l, levels);
    }

    method RebuildTreeWeights()
      requires Shape()
      modifies this`levels, level
      ensures Shape() && IsTree(levels) && levels[|level| - 1] == old(levels)[|level| - 1]
    {
      var l := |level| - 2;
      while l >= 0
        invariant Shape() && -1 <= l < |level| - 1
        invariant levels[|level| - 1] == old(levels)[|level| - 1]
        invariant SummedBehind(levels, l)
      {
        RebuildLevel(l);
        l := l - 1;
      }
      assert |levels[0]| == Pow2(0);
    }

    /** PickAt: the element whose weight covers weight_index. */
    method PickAt(weightIndex: int) returns (r: int)
      requires Valid()
      ensures !(0 <= weightIndex < Sum(Weights())) ==> r == -1
      ensures 0 <= weightIndex < Sum(Weights()) ==> 0 <= r && Covers(Weights(), weightIndex, r)
    {
      var total := TotalWeight();
      if weightIndex < 0 || weightIndex >= total {
        return -1;
      }
      var index := DescendTo(weightIndex);
      r := index;
    }

    /** The loop of PickAt. */
    method DescendTo(weightIndex: int) returns (index: nat)
      requires Valid() && 0 <= weightIndex < Sum(Weights())
      ensures Covers(Weights(), weightIndex, index)
    {
      var position := weightIndex;
      index := 0;
      StartAtRoot(position);
      for l := 1 to |level|
        invariant IsAt(levels, l - 1, index, position, weightIndex)
      {
        index, position := StepDown(l, index, position, weightIndex);
      }
      EndAtLeaf(index, position, weightIndex);
    }

    lemma StartAtRoot(position: int)
      requires Valid() && 0 <= position < Sum(Weights())
      ensures IsAt(levels, 0, 0, position, position)
    {
      TotalIsSum();
      assert levels[0][..0] == [];
    }

    method StepDown(l: nat, index: nat, position: int, ghost weightIndex: int) returns (index': nat, position': int)
      requires Valid() && 1 <= l < |level| && IsAt(levels, l - 1, index, position, weightIndex)
      ensures IsAt(levels, l, index', position', weightIndex)
    {
      SoundCarries(levels, n);
      assert SumAt(levels, l - 1);
      Descend(levels[l - 1], levels[l], index);
      var left := Node(l, 2 * index);
      if position < left {
        index', position' := 2 * index, position;
      } else {
        index', position' := 2 * index + 1, position - left;
      }
    }

    lemma EndAtLeaf(index: nat, position: int, weightIndex: int)
      requires Valid() && IsAt(levels, |level| - 1, index, position, weightIndex)
      ensures Covers(Weights(), weightIndex, index)
    {
      SoundCarries(levels, n);
      LeafCovers(levels[|level| - 1], n, index, position, weightIndex);
    }

    /** Pick: -1 without weight, else PickAt of an unbiased draw below the total.  The
        generator's next values are `draws`; with None they ran out. */
    method Pick(draws: seq<nat>) returns (r: Option<int>, used: nat)
      requires Valid() && forall i :: 0 <= i < |draws| ==> draws[i] < Pow2(32)
      ensures used <= |draws|
      ensures Sum(Weights()) == 0 ==> r == Some(-1) && used == 0
      ensures 0 < Sum(Weights()) ==> IsPick(32, Weights(), draws, r, used)
    {
      r, used := PickWith(32, draws);
    }

    /** The same for draws of `bits` bits. */
    method PickWith(bits: nat, draws: seq<nat>) returns (r: Option<int>, used: nat)
      requires Valid() && forall i :: 0 <= i < |draws| ==> draws[i] < Pow2(bits)
      ensures used <= |draws|
      ensures Sum(Weights()) == 0 ==> r == Some(-1) && used == 0
      ensures 0 < Sum(Weights()) ==> IsPick(bits, Weights(), draws, r, used)
    {
      var total := TotalWeight();
      if total == 0 {
        return Some(-1), 0;
      }
      var v;
      v, used := ExactUniformInt(bits, total, draws);
      if v.None? {
        return None, used;
      }
      var element := PickAt(v.value);
      r := Some(element);
    }

    /** total_weight */
    method TotalWeight() returns (total: nat)
      requires Valid()
      ensures total == Sum(Weights())
    {
      TotalIsSum();
      total := level[0][0];
    }

    lemma TotalIsSum()
      requires Valid()
      ensures level[0].Length == 1 && level[0][0] == Sum(Weights()) >= 0
    {
      SoundCarries(levels, n);
      RootIsSum(levels, |level| - 1);
      SumPrefix(levels[|level| - 1], n);
      SumPrefix(levels[|level| - 1], 0);
      assert levels[|level| - 1][..0] == [];
      assert level[0][..] == levels[0] && |levels[0]| == Pow2(0);
    }
  }

  method NewPicker(weights: seq<int>) returns (picker: WeightedPicker)
    requires |weights| <= MAX_SIZE
    requires (forall i :: 0 <= i < |weights| ==> weights[i] >= 0) && Sum(weights) <= INT32_MAX
    ensures fresh(picker) && fresh(picker.level) && picker.Valid() && picker.n == |weights|
    ensures picker.Weights() == weights
  {
    picker := new WeightedPicker(|weights|);
    picker.SetLeaves(weights);
  }

  // --------------------------------------------------------------------- fairness

  /** k falls into the stretch of element i. */
  predicate Covers(w: seq<int>, k: int, i: nat) {
    i < |w| && Sum(w[..i]) <= k < Sum(w[..i + 1])
  }

  /** Descending, `index` is the node of level l whose stretch holds weightIndex, `position` the
      rest of it there. */
  predicate IsAt(levels: seq<seq<int>>, l: nat, index: nat, position: int, weightIndex: int) {
    && l < |levels| && index < |levels[l]|
    && position == weightIndex - Sum(levels[l][..index])
    && 0 <= position < levels[l][index]
  }

  lemma LeafCovers(leaves: seq<int>, n: nat, index: nat, position: int, weightIndex: int)
    requires Carries(leaves, n) && index < |leaves| && 0 <= position < leaves[index]
    requires position == weightIndex - Sum(leaves[..index])
    ensures Covers(leaves[..n], weightIndex, index)
  {
    assert leaves[..index + 1][..index] == leaves[..index];
    assert leaves[..n][..index] == leaves[..index] && leaves[..n][..index + 1] == leaves[..index + 1];
  }

  /** Exactly one element covers an index below the total. */
  lemma CoversOnce(w: seq<int>, k: int, i: nat, j: nat)
    requires (forall x :: 0 <= x < |w| ==> w[x] >= 0) && Covers(w, k, i) && Covers(w, k, j)
    ensures i == j
  {
    if i < j {
      assert w[..j][..i + 1] == w[..i + 1];
      SumPrefix(w[..j], i + 1);
    } else if j < i {
      assert w[..i][..j + 1] == w[..j + 1];
      SumPrefix(w[..i], j + 1);
    }
  }

  /** A draw of `bits` bits (the code's are 32) that is taken and picks element i. */
  predicate Picks(bits: nat, w: seq<int>, draw: nat, i: nat)
    requires 0 < Sum(w)
  {
    var d := Draw(bits, Sum(w), draw);
    d.Some? && Covers(w, d.value, i)
  }

  /** The first draw that is taken decides; without one all draws are used up. */
  ghost predicate IsPick(bits: nat, w: seq<int>, draws: seq<nat>, r: Option<int>, used: nat)
    requires 0 < Sum(w)
  {
    && used <= |draws|
    && (forall i :: 0 <= i < used - 1 ==> Draw(bits, Sum(w), draws[i]) == None)
    && match r
       case Some(element) => 0 < used && 0 <= element && Picks(bits, w, draws[used - 1], element)
       case None => used == |draws|
  }

  /** The draws below hi that pick element i. */
  function PickCount(bits: nat, w: seq<int>, i: nat, hi: nat): nat
    requires 0 < Sum(w)
  {
    if hi == 0 then 0 else PickCount(bits, w, i, hi - 1) + (if Picks(bits, w, hi - 1, i) then 1 else 0)
  }

  lemma {:induction false} PickCountIsTaken(bits: nat, w: seq<int>, i: nat, hi: nat)
    requires 0 < Sum(w) && i < |w| && 0 <= Sum(w[..i]) <= Sum(w[..i + 1])
    ensures PickCount(bits, w, i, hi) == Taken(bits, Sum(w), Sum(w[..i]), Sum(w[..i + 1]), hi)
  {
    if hi != 0 {
      PickCountIsTaken(bits, w, i, hi - 1);
    }
  }

  lemma Stretch(w: seq<int>, i: nat)
    requires (forall x :: 0 <= x < |w| ==> w[x] >= 0) && i < |w|
    ensures 0 <= Sum(w[..i]) <= Sum(w[..i + 1]) <= Sum(w) && Sum(w[..i + 1]) - Sum(w[..i]) == w[i]
  {
    assert w[..i + 1][..i] == w[..i] && w[..i][..0] == [];
    SumPrefix(w[..i], 0);
    SumPrefix(w, i + 1);
  }

  /** Exact fairness: the number of draws that pick element i is its weight times a number
      that is the same for all elements. */
  lemma PickIsFair(bits: nat, w: seq<int>, i: nat)
    requires (forall x :: 0 <= x < |w| ==> w[x] >= 0) && 0 < Sum(w) <= Pow2(bits) && i < |w|
    ensures PickCount(bits, w, i, Pow2(bits)) == Quotient(bits, Sum(w)) * w[i]
  {
    Stretch(w, i);
    PickCountIsTaken(bits, w, i, Pow2(bits));
    StretchIsFair(bits, Sum(w), Sum(w[..i]), Sum(w[..i + 1]), w[i]);
  }

  lemma StretchIsFair(bits: nat, total: nat, from: int, to: int, weight: int)
    requires 0 < total <= Pow2(bits) && 0 <= from <= to <= total && weight == to - from
    ensures Taken(bits, total, from, to, Pow2(bits)) == Quotient(bits, total) * weight
  {
    DrawsAreFair(bits, total, from, to);
  }

  lemma Descend(parents: seq<int>, children: seq<int>, i: nat)
    requires IsSumOf(parents, children) && i < |parents|
    ensures Sum(children[..2 * i]) == Sum(parents[..i])
    ensures Sum(children[..2 * i + 1]) == Sum(parents[..i]) + children[2 * i]
    ensures parents[i] == children[2 * i] + children[2 * i + 1]
  {
    PrefixSums(parents, children, i);
    assert children[..2 * i + 1][..2 * i] == children[..2 * i];
  }
}
