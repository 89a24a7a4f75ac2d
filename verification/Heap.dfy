/** The heap algorithms of the C++ standard library that base/gtl/top_n.h calls, with
    the comparison used the way the library does: cmp orders elements, and the front of
    a heap is an element that cmp puts last. */
module Heap {

  // ------------------------------------------------------------------- the order

  // Pair and Triple are true; they only say which elements the laws are used on.
  predicate Pair<T>(a: T, b: T) { true }

  predicate Triple<T>(a: T, b: T, c: T) { true }

  /** A strict weak order, read through its complement "a is not before b". */
  ghost predicate StrictWeakOrder<T(!new)>(cmp: (T, T) -> bool) {
    && (forall a, b {:trigger Pair(a, b)} :: Pair(a, b) ==> !(cmp(a, b) && cmp(b, a)))
    && (forall a, b, c {:trigger Triple(a, b, c)} ::
          Triple(a, b, c) ==> !cmp(a, b) && !cmp(b, c) ==> !cmp(a, c))
  }

  lemma Asymmetric<T(!new)>(cmp: (T, T) -> bool, a: T, b: T)
    requires StrictWeakOrder(cmp) && cmp(a, b)
    ensures !cmp(b, a)
  {
    assert Pair(a, b);
  }

  lemma Irreflexive<T(!new)>(cmp: (T, T) -> bool, a: T)
    requires StrictWeakOrder(cmp)
    ensures !cmp(a, a)
  {
    assert Pair(a, a);
  }

  lemma NotBefore<T(!new)>(cmp: (T, T) -> bool, a: T, b: T, c: T)
    requires StrictWeakOrder(cmp) && !cmp(a, b) && !cmp(b, c)
    ensures !cmp(a, c)
  {
    assert Triple(a, b, c);
  }

  // ------------------------------------------------------------------- the heap

  function Parent(k: nat): nat
    requires 0 < k
  {
    (k - 1) / 2
  }

  function Swap<T>(s: seq<T>, i: nat, j: nat): (r: seq<T>)
    requires i < |s| && j < |s|
    ensures |r| == |s|
  {
    s[i := s[j]][j := s[i]]
  }

  lemma SwapPermutes<T>(s: seq<T>, i: nat, j: nat)
    requires i < |s| && j < |s|
    ensures multiset(Swap(s, i, j)) == multiset(s)
  {
  }

  /** The pairs parent and child with the parent at or after `from` are in order. */
  ghost predicate HeapFrom<T>(cmp: (T, T) -> bool, s: seq<T>, from: nat, n: nat)
    requires n <= |s|
  {
    forall k :: 0 < k < n && from <= Parent(k) ==> !cmp(s[Parent(k)], s[k])
  }

  ghost predicate IsHeap<T>(cmp: (T, T) -> bool, s: seq<T>, n: nat)
    requires n <= |s|
  {
    HeapFrom(cmp, s, 0, n)
  }

  /** The front of a heap is before none of its elements. */
  lemma {:induction false} FrontIsLast<T(!new)>(cmp: (T, T) -> bool, s: seq<T>, n: nat, k: nat)
    requires StrictWeakOrder(cmp) && k < n <= |s| && IsHeap(cmp, s, n)
    ensures !cmp(s[0], s[k])
  {
    if k == 0 {
      Irreflexive(cmp, s[0]);
    } else {
      FrontIsLast(cmp, s, n, Parent(k));
      NotBefore(cmp, s[0], s[Parent(k)], s[k]);
    }
  }

  /** In order except between i and its parent. */
  ghost predicate Rising<T>(cmp: (T, T) -> bool, s: seq<T>, n: nat, i: nat)
    requires i < n <= |s|
  {
    && (forall k :: 0 < k < n && k != i ==> !cmp(s[Parent(k)], s[k]))
    && (0 < i ==> forall k :: 0 < k < n && Parent(k) == i ==> !cmp(s[Parent(i)], s[k]))
  }

  lemma RisingStep<T(!new)>(cmp: (T, T) -> bool, s: seq<T>, n: nat, i: nat)
    requires StrictWeakOrder(cmp) && 0 < i < n <= |s| && Rising(cmp, s, n, i)
    requires cmp(s[Parent(i)], s[i])
    ensures Rising(cmp, Swap(s, Parent(i), i), n, Parent(i))
  {
    var p := Parent(i);
    var t := Swap(s, p, i);
    Asymmetric(cmp, s[p], s[i]);
    forall k | 0 < k < n && k != p
      ensures !cmp(t[Parent(k)], t[k])
    {
      if k != i && Parent(k) == p {
        NotBefore(cmp, s[i], s[p], s[k]);
      }
    }
    if 0 < p {
      forall k | 0 < k < n && Parent(k) == p
        ensures !cmp(t[Parent(p)], t[k])
      {
        if k != i {
          NotBefore(cmp, s[Parent(p)], s[p], s[k]);
        }
      }
    }
  }

  /** std::push_heap: the last element joins the heap before it. */
  method PushHeap<T(!new)>(cmp: (T, T) -> bool, s: seq<T>) returns (r: seq<T>)
    requires StrictWeakOrder(cmp) && 0 < |s| && IsHeap(cmp, s, |s| - 1)
    ensures |r| == |s| && IsHeap(cmp, r, |r|) && multiset(r) == multiset(s)
  {
    r := s;
    var i: nat := |s| - 1;
    while 0 < i && cmp(r[Parent(i)], r[i])
      invariant i < |r| == |s| && Rising(cmp, r, |r|, i) && multiset(r) == multiset(s)
      decreases i
    {
      RisingStep(cmp, r, |r|, i);
      SwapPermutes(r, Parent(i), i);
      r := Swap(r, Parent(i), i);
      i := Parent(i);
    }
  }

  /** In order from `from` on except between i and its children. */
  ghost predicate Sinking<T>(cmp: (T, T) -> bool, s: seq<T>, from: nat, n: nat, i: nat)
    requires from <= i < n <= |s|
  {
    && (forall k :: 0 < k < n && from <= Parent(k) && Parent(k) != i ==> !cmp(s[Parent(k)], s[k]))
    && (from < i && from <= Parent(i) ==> forall k :: 0 < k < n && Parent(k) == i ==> !cmp(s[Parent(i)], s[k]))
  }

  /** The child of i to swap with: it is before no child of i. */
  ghost predicate IsTopChild<T>(cmp: (T, T) -> bool, s: seq<T>, n: nat, i: nat, c: nat)
    requires n <= |s|
  {
    && 0 < c < n && Parent(c) == i
    && forall k :: 0 < k < n && Parent(k) == i ==> !cmp(s[c], s[k])
  }

  lemma SinkingStep<T(!new)>(cmp: (T, T) -> bool, s: seq<T>, from: nat, n: nat, i: nat, c: nat)
    requires StrictWeakOrder(cmp) && from <= i < n <= |s| && Sinking(cmp, s, from, n, i)
    requires IsTopChild(cmp, s, n, i, c) && cmp(s[i], s[c])
    ensures Sinking(cmp, Swap(s, i, c), from, n, c)
  {
    var t := Swap(s, i, c);
    Asymmetric(cmp, s[i], s[c]);
    forall k | 0 < k < n && from <= Parent(k) && Parent(k) != c
      ensures !cmp(t[Parent(k)], t[k])
    {
      if k == i {
        assert !cmp(s[Parent(i)], s[c]);
      }
    }
  }

  /** The element at `from` sinks into the heaps below it. */
  method SiftDown<T(!new)>(cmp: (T, T) -> bool, s: seq<T>, from: nat, n: nat) returns (r: seq<T>)
    requires StrictWeakOrder(cmp) && from < n <= |s| && HeapFrom(cmp, s, from + 1, n)
    ensures |r| == |s| && HeapFrom(cmp, r, from, n)
    ensures r[n..] == s[n..] && multiset(r) == multiset(s)
  {
    r := s;
    var i := from;
    while 2 * i + 1 < n
      invariant from <= i < n <= |r| == |s| && Sinking(cmp, r, from, n, i)
      invariant r[n..] == s[n..] && multiset(r) == multiset(s)
      decreases n - i
    {
      var c := TopChildOf(cmp, r, n, i);
      if !cmp(r[i], r[c]) {
        SunkenIsHeap(cmp, r, from, n, i, c);
        return;
      }
      SinkingStep(cmp, r, from, n, i, c);
      SwapPermutes(r, i, c);
      r := Swap(r, i, c);
      i := c;
    }
  }

  method TopChildOf<T(!new)>(cmp: (T, T) -> bool, s: seq<T>, n: nat, i: nat) returns (c: nat)
    requires StrictWeakOrder(cmp) && 2 * i + 1 < n <= |s|
    ensures IsTopChild(cmp, s, n, i, c)
  {
    c := 2 * i + 1;
    if c + 1 < n && cmp(s[c], s[c + 1]) {
      Asymmetric(cmp, s[c], s[c + 1]);
      c := c + 1;
    }
    Irreflexive(cmp, s[c]);
    assert forall k :: 0 < k && Parent(k) == i ==> k == 2 * i + 1 || k == 2 * i + 2;
  }

  lemma SunkenIsHeap<T(!new)>(cmp: (T, T) -> bool, s: seq<T>, from: nat, n: nat, i: nat, c: nat)
    requires StrictWeakOrder(cmp) && from <= i < n <= |s| && Sinking(cmp, s, from, n, i)
    requires IsTopChild(cmp, s, n, i, c) && !cmp(s[i], s[c])
    ensures HeapFrom(cmp, s, from, n)
  {
    forall k | 0 < k < n && from <= Parent(k)
      ensures !cmp(s[Parent(k)], s[k])
    {
      if Parent(k) == i {
        NotBefore(cmp, s[i], s[c], s[k]);
      }
    }
  }

  /** std::pop_heap on the first n elements: the front moves to n - 1, the rest is a heap. */
  method PopHeap<T(!new)>(cmp: (T, T) -> bool, s: seq<T>, n: nat) returns (r: seq<T>)
    requires StrictWeakOrder(cmp) && 0 < n <= |s| && IsHeap(cmp, s, n)
    ensures |r| == |s| && IsHeap(cmp, r, n - 1) && r[n - 1] == s[0]
    ensures r[n..] == s[n..] && multiset(r) == multiset(s)
  {
    SwapPermutes(s, 0, n - 1);
    r := Swap(s, 0, n - 1);
    if 1 < n {
      ghost var t := r;
      r := SiftDown(cmp, r, 0, n - 1);
      assert r[n - 1..][0] == t[n - 1..][0] && r[n - 1..][1..] == r[n..] && t[n - 1..][1..] == t[n..] == s[n..];
    }
  }

  /** std::make_heap */
  method MakeHeap<T(!new)>(cmp: (T, T) -> bool, s: seq<T>) returns (r: seq<T>)
    requires StrictWeakOrder(cmp)
    ensures |r| == |s| && IsHeap(cmp, r, |r|) && multiset(r) == multiset(s)
  {
    r := s;
    var i: nat := |s| / 2;
    while 0 < i
      invariant i <= |s| / 2 && |r| == |s| && HeapFrom(cmp, r, i, |r|) && multiset(r) == multiset(s)
    {
      i := i - 1;
      r := SiftDown(cmp, r, i, |r|);
    }
  }

  // -------------------------------------------------------------------- sorting

  ghost predicate Sorted<T>(cmp: (T, T) -> bool, s: seq<T>) {
    forall i, j :: 0 <= i < j < |s| ==> !cmp(s[j], s[i])
  }

  /** Every element at or after n is before none of the elements ahead of n. */
  ghost predicate Below<T>(cmp: (T, T) -> bool, s: seq<T>, n: nat)
    requires n <= |s|
  {
    forall x, y :: x in s[..n] && y in s[n..] ==> !cmp(y, x)
  }

  lemma SplitMultiset<T>(s: seq<T>, n: nat)
    requires n <= |s|
    ensures multiset(s) == multiset(s[..n]) + multiset(s[n..])
  {
    assert s == s[..n] + s[n..];
  }

  lemma PopStep<T(!new)>(cmp: (T, T) -> bool, s: seq<T>, r: seq<T>, n: nat)
    requires StrictWeakOrder(cmp) && 0 < n <= |s| == |r| && IsHeap(cmp, s, n)
    requires r[n - 1] == s[0] && r[n..] == s[n..] && multiset(r) == multiset(s)
    requires Sorted(cmp, s[n..]) && Below(cmp, s, n)
    ensures Sorted(cmp, r[n - 1..]) && Below(cmp, r, n - 1)
  {
    FrontOfRest(cmp, s, r, n);
    assert r[n - 1..] == [s[0]] + s[n..];
    assert s[0] in s[..n];
    forall x, y | x in r[..n - 1] && y in r[n - 1..]
      ensures !cmp(y, x)
    {
      assert x in r[..n];
    }
  }

  lemma FrontOfRest<T(!new)>(cmp: (T, T) -> bool, s: seq<T>, r: seq<T>, n: nat)
    requires StrictWeakOrder(cmp) && 0 < n <= |s| == |r| && IsHeap(cmp, s, n)
    requires r[n..] == s[n..] && multiset(r) == multiset(s)
    ensures forall x :: x in r[..n] ==> x in s[..n] && !cmp(s[0], x)
  {
    SplitMultiset(s, n);
    SplitMultiset(r, n);
    assert multiset(r[..n]) == multiset(r) - multiset(r[n..]) == multiset(s[..n]);
    forall x | x in r[..n]
      ensures x in s[..n] && !cmp(s[0], x)
    {
      assert x in multiset(r[..n]);
      var k :| 0 <= k < n && s[..n][k] == x;
      FrontIsLast(cmp, s, n, k);
    }
  }

  /** std::sort_heap */
  method SortHeap<T(!new)>(cmp: (T, T) -> bool, s: seq<T>) returns (r: seq<T>)
    requires StrictWeakOrder(cmp) && IsHeap(cmp, s, |s|)
    ensures Sorted(cmp, r) && multiset(r) == multiset(s)
  {
    r := s;
    var n: nat := |s|;
    while 1 < n
      invariant n <= |r| == |s| && IsHeap(cmp, r, n) && multiset(r) == multiset(s)
      invariant Sorted(cmp, r[n..]) && Below(cmp, r, n)
    {
      ghost var t := r;
      r := PopHeap(cmp, r, n);
      PopStep(cmp, t, r, n);
      n := n - 1;
    }
    if n == 1 {
      FirstJoins(cmp, r);
    } else {
      assert r[0..] == r;
    }
  }

  lemma FirstJoins<T(!new)>(cmp: (T, T) -> bool, s: seq<T>)
    requires 1 <= |s| && Sorted(cmp, s[1..]) && Below(cmp, s, 1)
    ensures Sorted(cmp, s)
  {
    forall i, j | 0 <= i < j < |s|
      ensures !cmp(s[j], s[i])
    {
      if i == 0 {
        assert s[0] in s[..1] && s[1..][j - 1] in s[1..];
      } else {
        assert s[1..][i - 1] == s[i] && s[1..][j - 1] == s[j];
      }
    }
  }

  /** std::sort, here as a heap sort. */
  method Sort<T(!new)>(cmp: (T, T) -> bool, s: seq<T>) returns (r: seq<T>)
    requires StrictWeakOrder(cmp)
    ensures Sorted(cmp, r) && multiset(r) == multiset(s)
  {
    r := MakeHeap(cmp, s);
    r := SortHeap(cmp, r);
  }
}
