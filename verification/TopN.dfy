/** base/gtl/top_n.h: the bounded container of the best `limit` elements. */
module TopN {
  import opened Options
  import opened Heap

  datatype State = Unordered | BottomKnown | HeapSorted

  /** held is a best selection of `limit` elements from pushed, and dropped is the rest. */
  ghost predicate IsSelection<T>(cmp: (T, T) -> bool, limit: nat, held: seq<T>, dropped: seq<T>, pushed: seq<T>) {
    && multiset(held) + multiset(dropped) == multiset(pushed)
    && |held| == Min(|pushed|, limit)
    && forall h, d :: h in held && d in dropped ==> !cmp(d, h)
  }

  function Min(a: nat, b: nat): nat { if a < b then a else b }

  /** No element of s comes after b. */
  ghost predicate IsBottom<T>(cmp: (T, T) -> bool, b: T, s: seq<T>) {
    forall x :: x in s ==> !cmp(b, x)
  }

  /** v is taken in while there is room. */
  lemma SelectionGrows<T(!new)>(cmp: (T, T) -> bool, limit: nat, held: seq<T>, dropped: seq<T>, pushed: seq<T>,
                                v: T, held': seq<T>)
    requires IsSelection(cmp, limit, held, dropped, pushed) && |held| < limit
    requires multiset(held') == multiset(held) + multiset{v}
    ensures IsSelection(cmp, limit, held', dropped, pushed + [v]) && dropped == []
  {
    Sizes(held, dropped, pushed);
    assert |multiset(held')| == |held'|;
    assert multiset(pushed + [v]) == multiset(pushed) + multiset{v};
  }

  /** When the selection is full, v is taken in and a bottom element of the result dropped. */
  lemma SelectionTurns<T(!new)>(cmp: (T, T) -> bool, limit: nat, held: seq<T>, dropped: seq<T>, pushed: seq<T>,
                                v: T, held': seq<T>, d: T)
    requires StrictWeakOrder(cmp)
    requires IsSelection(cmp, limit, held, dropped, pushed) && |held| == limit
    requires multiset(held') + multiset{d} == multiset(held) + multiset{v} && IsBottom(cmp, d, held')
    ensures IsSelection(cmp, limit, held', dropped + [d], pushed + [v])
  {
    Sizes(held, dropped, pushed);
    assert |multiset(held') + multiset{d}| == |held'| + 1;
    assert multiset(dropped + [d]) == multiset(dropped) + multiset{d};
    assert multiset(pushed + [v]) == multiset(pushed) + multiset{v};
    assert multiset(held') + multiset(dropped + [d]) == (multiset(held') + multiset{d}) + multiset(dropped);
    forall h, e | h in held' && e in dropped + [d]
      ensures !cmp(e, h)
    {
      assert h in multiset(held') && h in multiset(held) + multiset{v} && d in multiset(held) + multiset{v};
      if e in dropped {
        if h !in held {
          assert h == v;
          assert (multiset(held') + multiset{d})[v] == (multiset(held) + multiset{v})[v] == 1;
          assert multiset(held')[v] >= 1;
          assert d in held;
          NotBefore(cmp, e, d, h);
        }
      }
    }
  }

  lemma Sizes<T>(held: seq<T>, dropped: seq<T>, pushed: seq<T>)
    requires multiset(held) + multiset(dropped) == multiset(pushed)
    ensures |pushed| == |held| + |dropped|
  {
    assert |multiset(held) + multiset(dropped)| == |held| + |dropped|;
    assert |multiset(pushed)| == |pushed|;
  }

  lemma Membership<T>(s: seq<T>, t: seq<T>, x: T)
    requires multiset(s) == multiset(t)
    ensures x in s <==> x in t
  {
    assert x in s <==> x in multiset(s);
    assert x in t <==> x in multiset(t);
  }

  /** The front of a heap is a bottom element; behind pop_heap it is set apart. */
  lemma PopSelects<T(!new)>(cmp: (T, T) -> bool, s: seq<T>, r: seq<T>, n: nat)
    requires StrictWeakOrder(cmp) && |s| == |r| == n + 1 && IsHeap(cmp, s, n + 1)
    requires r[n] == s[0] && multiset(r) == multiset(s)
    ensures multiset(r[..n]) + multiset{s[0]} == multiset(s) && IsBottom(cmp, s[0], r[..n])
  {
    assert r == r[..n] + [r[n]];
    forall x | x in r[..n]
      ensures !cmp(s[0], x)
    {
      Membership(r, s, x);
      var k :| 0 <= k < n + 1 && s[k] == x;
      FrontIsLast(cmp, s, n + 1, k);
    }
  }

  lemma NewBottom<T(!new)>(cmp: (T, T) -> bool, s: seq<T>, v: T)
    requires StrictWeakOrder(cmp) && 0 < |s| && IsBottom(cmp, s[0], s) && !cmp(v, s[0])
    ensures IsBottom(cmp, v, Swap(s + [v], 0, |s|))
  {
    var t := Swap(s + [v], 0, |s|);
    Irreflexive(cmp, v);
    forall x | x in t
      ensures !cmp(v, x)
    {
      if x != v {
        assert x in s;
        NotBefore(cmp, v, s[0], x);
      }
    }
  }

  lemma StaysOut<T(!new)>(cmp: (T, T) -> bool, s: seq<T>, n: nat, v: T)
    requires StrictWeakOrder(cmp) && 0 < n <= |s| && IsHeap(cmp, s, n) && !cmp(v, s[0])
    ensures IsBottom(cmp, v, s[..n])
  {
    forall x | x in s[..n]
      ensures !cmp(v, x)
    {
      var k :| 0 <= k < n && s[k] == x;
      FrontIsLast(cmp, s, n, k);
      NotBefore(cmp, v, s[0], x);
    }
  }

  lemma CandidateMoves<T(!new)>(cmp: (T, T) -> bool, s: seq<T>, c: nat, i: nat)
    requires StrictWeakOrder(cmp) && c < |s| && i < |s| && cmp(s[c], s[i])
    requires forall k :: 0 <= k < i ==> !cmp(s[c], s[k])
    ensures forall k :: 0 <= k <= i ==> !cmp(s[i], s[k])
  {
    Asymmetric(cmp, s[c], s[i]);
    Irreflexive(cmp, s[i]);
    forall k | 0 <= k < i
      ensures !cmp(s[i], s[k])
    {
      NotBefore(cmp, s[i], s[c], s[k]);
    }
  }

  lemma SelectionPermutes<T(!new)>(cmp: (T, T) -> bool, limit: nat, held: seq<T>, dropped: seq<T>, pushed: seq<T>,
                                   held': seq<T>)
    requires IsSelection(cmp, limit, held, dropped, pushed) && multiset(held') == multiset(held)
    ensures IsSelection(cmp, limit, held', dropped, pushed)
  {
    assert |held'| == |multiset(held')| == |held|;
    forall h, d | h in held' && d in dropped
      ensures !cmp(d, h)
    {
      Membership(held, held', h);
    }
  }

  // ------------------------------------------------------- what is best is unique

  /** Position by position, neither is before the other. */
  ghost predicate Equivalent<T>(cmp: (T, T) -> bool, a: seq<T>, b: seq<T>) {
    |a| == |b| && forall i :: 0 <= i < |a| ==> !cmp(a[i], b[i]) && !cmp(b[i], a[i])
  }

  function Insert<T>(cmp: (T, T) -> bool, v: T, s: seq<T>): seq<T> {
    if s == [] || cmp(v, s[0]) then [v] + s else [s[0]] + Insert(cmp, v, s[1..])
  }

  /** The reference: everything pushed, best first. */
  function Best<T>(cmp: (T, T) -> bool, pushed: seq<T>): (r: seq<T>)
    ensures multiset(r) == multiset(pushed) && |r| == |pushed|
  {
    if pushed == [] then []
    else
      var n := |pushed| - 1;
      InsertAdds(cmp, pushed[n], Best(cmp, pushed[..n]));
      assert pushed == pushed[..n] + [pushed[n]];
      Insert(cmp, pushed[n], Best(cmp, pushed[..n]))
  }

  lemma {:induction false} InsertAdds<T>(cmp: (T, T) -> bool, v: T, s: seq<T>)
    ensures multiset(Insert(cmp, v, s)) == multiset(s) + multiset{v}
    ensures |Insert(cmp, v, s)| == |s| + 1
  {
    if s != [] && !cmp(v, s[0]) {
      InsertAdds(cmp, v, s[1..]);
      assert s == [s[0]] + s[1..];
    }
  }

  lemma {:induction false} InsertSorts<T(!new)>(cmp: (T, T) -> bool, v: T, s: seq<T>)
    requires StrictWeakOrder(cmp) && Sorted(cmp, s)
    ensures Sorted(cmp, Insert(cmp, v, s))
  {
    if s == [] {
    } else if cmp(v, s[0]) {
      Asymmetric(cmp, v, s[0]);
      forall j | 0 <= j < |s|
        ensures !cmp(s[j], v)
      {
        if 0 < j {
          NotBefore(cmp, s[j], s[0], v);
        }
      }
    } else {
      var t := Insert(cmp, v, s[1..]);
      InsertSorts(cmp, v, s[1..]);
      InsertAdds(cmp, v, s[1..]);
      forall x | x in t
        ensures !cmp(x, s[0])
      {
        assert x in multiset(t);
        if x != v {
          assert x in s[1..];
        }
      }
    }
  }

  lemma {:induction false} BestIsSorted<T(!new)>(cmp: (T, T) -> bool, pushed: seq<T>)
    requires StrictWeakOrder(cmp)
    ensures Sorted(cmp, Best(cmp, pushed))
  {
    if pushed != [] {
      var n := |pushed| - 1;
      BestIsSorted(cmp, pushed[..n]);
      InsertSorts(cmp, pushed[n], Best(cmp, pushed[..n]));
    }
  }

  /** The elements of m that come before x. */
  ghost function Before<T>(cmp: (T, T) -> bool, s: seq<T>, x: T): seq<T> {
    if s == [] then []
    else Before(cmp, s[..|s| - 1], x) + (if cmp(s[|s| - 1], x) then [s[|s| - 1]] else [])
  }

  lemma {:induction false} BeforeCounts<T(!new)>(cmp: (T, T) -> bool, s: seq<T>, x: T, y: T)
    ensures multiset(Before(cmp, s, x))[y] == if cmp(y, x) then multiset(s)[y] else 0
  {
    if s != [] {
      var n := |s| - 1;
      BeforeCounts(cmp, s[..n], x, y);
      assert s == s[..n] + [s[n]];
    }
  }

  lemma BeforePermutes<T(!new)>(cmp: (T, T) -> bool, s: seq<T>, t: seq<T>, x: T)
    requires multiset(s) == multiset(t)
    ensures |Before(cmp, s, x)| == |Before(cmp, t, x)|
  {
    forall y
      ensures multiset(Before(cmp, s, x))[y] == multiset(Before(cmp, t, x))[y]
    {
      BeforeCounts(cmp, s, x, y);
      BeforeCounts(cmp, t, x, y);
    }
    assert multiset(Before(cmp, s, x)) == multiset(Before(cmp, t, x));
    assert |multiset(Before(cmp, s, x))| == |Before(cmp, s, x)|;
    assert |multiset(Before(cmp, t, x))| == |Before(cmp, t, x)|;
  }

  lemma {:induction false} BeforeBounds<T(!new)>(cmp: (T, T) -> bool, s: seq<T>, x: T, n: nat)
    requires n <= |s|
    ensures (forall k :: 0 <= k < n ==> cmp(s[k], x)) ==> n <= |Before(cmp, s, x)|
    ensures (forall k :: n <= k < |s| ==> !cmp(s[k], x)) ==> |Before(cmp, s, x)| <= n
  {
    if n < |s| {
      BeforeBounds(cmp, s[..|s| - 1], x, n);
    } else if 0 < n {
      BeforeBounds(cmp, s[..|s| - 1], x, n - 1);
    }
  }

  /** If s is sorted and s[i] is before x, then so are the elements ahead of it. */
  lemma SortedPrefixBefore<T(!new)>(cmp: (T, T) -> bool, s: seq<T>, i: nat, x: T)
    requires StrictWeakOrder(cmp) && Sorted(cmp, s) && i < |s| && cmp(s[i], x)
    ensures forall k :: 0 <= k < i + 1 ==> cmp(s[k], x)
  {
    forall k | 0 <= k < i + 1
      ensures cmp(s[k], x)
    {
      if k < i && !cmp(s[k], x) {
        NotBefore(cmp, s[i], s[k], x);
      }
    }
  }

  lemma SortedSuffixNotBefore<T(!new)>(cmp: (T, T) -> bool, s: seq<T>, i: nat)
    requires StrictWeakOrder(cmp) && Sorted(cmp, s) && i < |s|
    ensures forall k :: i <= k < |s| ==> !cmp(s[k], s[i])
  {
    Irreflexive(cmp, s[i]);
  }

  /** A sorted selection is, up to equivalence, the first elements of everything sorted. */
  lemma SelectionIsBest<T(!new)>(cmp: (T, T) -> bool, limit: nat, held: seq<T>, dropped: seq<T>, pushed: seq<T>)
    requires StrictWeakOrder(cmp) && IsSelection(cmp, limit, held, dropped, pushed) && Sorted(cmp, held)
    ensures Equivalent(cmp, held, Best(cmp, pushed)[..Min(|pushed|, limit)])
  {
    var best := Best(cmp, pushed);
    BestIsSorted(cmp, pushed);
    forall i | 0 <= i < |held|
      ensures !cmp(held[i], best[i]) && !cmp(best[i], held[i])
    {
      PlaceIsBest(cmp, held, dropped, best, i);
    }
  }

  lemma PlaceIsBest<T(!new)>(cmp: (T, T) -> bool, held: seq<T>, dropped: seq<T>, best: seq<T>, i: nat)
    requires StrictWeakOrder(cmp) && Sorted(cmp, held) && Sorted(cmp, best)
    requires multiset(held) + multiset(dropped) == multiset(best) && i < |held| <= |best|
    requires forall h, d :: h in held && d in dropped ==> !cmp(d, h)
    ensures !cmp(held[i], best[i]) && !cmp(best[i], held[i])
  {
    var a, b, all := held[i], best[i], held + dropped;
    if cmp(a, b) {
      SortedPrefixBefore(cmp, held, i, b);
      BeforeBounds(cmp, all, b, i + 1);
      SortedSuffixNotBefore(cmp, best, i);
      BeforeBounds(cmp, best, b, i);
      BeforePermutes(cmp, all, best, b);
      assert false;
    }
    if cmp(b, a) {
      SortedPrefixBefore(cmp, best, i, a);
      BeforeBounds(cmp, best, a, i + 1);
      SortedSuffixNotBefore(cmp, held, i);
      assert forall k :: |held| <= k < |all| ==> all[k] in dropped;
      BeforeBounds(cmp, all, a, i);
      BeforePermutes(cmp, all, best, a);
      assert false;
    }
  }

  class TopN<T(!new)> {
    const cmp: (T, T) -> bool
    const limit: nat
    var elements: seq<T>
    var state: State
    ghost var pushed: seq<T>   // since the last Reset
    ghost var dropped: seq<T>

    /** The elements the object stands for; behind them lies the unused slot of a heap. */
    function Held(): seq<T>
      reads this
    {
      elements[..Min(|elements|, limit)]
    }

    /** What the three states promise about the vector. */
    ghost predicate Shape()
      reads this
    {
      match state
      case Unordered => |elements| <= limit
      case BottomKnown => 0 < |elements| <= limit && IsBottom(cmp, elements[0], elements)
      case HeapSorted => 0 < limit && |elements| == limit + 1 && IsHeap(cmp, elements, limit)
    }

    ghost predicate Valid()
      reads this
    {
      StrictWeakOrder(cmp) && Shape() && IsSelection(cmp, limit, Held(), dropped, pushed)
    }

    constructor (limit: nat, cmp: (T, T) -> bool)
      requires StrictWeakOrder(cmp)
      ensures Valid() && pushed == [] && dropped == [] && this.limit == limit && this.cmp == cmp
    {
      this.limit, this.cmp := limit, cmp;
      elements, state, pushed, dropped := [], Unordered, [], [];
    }

    /** push_back, and the swap that keeps a known bottom in front. */
    method Append(v: T)
      requires StrictWeakOrder(cmp) && Shape() && state != HeapSorted
      modifies this`elements
      ensures |elements| == |old(elements)| + 1
      ensures multiset(elements) == multiset(old(elements)) + multiset{v}
      ensures state == BottomKnown ==> IsBottom(cmp, elements[0], elements)
    {
      ghost var before := elements;
      elements := elements + [v];
      if state == Unordered || cmp(elements[|elements| - 1], elements[0]) {
        // Easy case: the new element stays at the back.
        if state == BottomKnown {
          Asymmetric(cmp, v, before[0]);
        }
      } else {
        SwapPermutes(elements, 0, |before|);
        NewBottom(cmp, before, v);
        elements := Swap(elements, 0, |elements| - 1);
      }
    }

    /** The branch of PushInternal for a vector that is not a heap yet. */
    method PushFlat(v: T) returns (out: Option<T>)
      requires StrictWeakOrder(cmp) && Shape() && state != HeapSorted && 0 < limit
      modifies this`elements, this`state
      ensures Shape()
      ensures out.None? <==> |old(elements)| < limit
      ensures out.None? ==> |elements| <= limit && multiset(Held()) == multiset(old(Held())) + multiset{v}
      ensures out.Some? ==>
        && multiset(Held()) + multiset{out.value} == multiset(old(Held())) + multiset{v}
        && IsBottom(cmp, out.value, Held())
    {
      assert Held() == elements;
      Append(v);
      out := None;
      if |elements| == limit + 1 {
        var heap := MakeHeap(cmp, elements);
        out := Some(heap[0]);
        elements := PopHeap(cmp, heap, |heap|);
        PopSelects(cmp, heap, elements, limit);
        state := HeapSorted;
      } else {
        assert Held() == elements;
      }
    }

    /** The branch of PushInternal for a heap; the slot at `limit` is free to write. */
    method PushFull(v: T) returns (out: T)
      requires StrictWeakOrder(cmp) && Shape() && state == HeapSorted
      modifies this`elements
      ensures Shape()
      ensures multiset(Held()) + multiset{out} == multiset(old(Held())) + multiset{v}
      ensures IsBottom(cmp, out, Held())
    {
      ghost var held := Held();
      if cmp(v, elements[0]) {
        elements := elements[|elements| - 1 := v];
        assert elements == held + [v];
        var heap := PushHeap(cmp, elements);
        out := heap[0];
        elements := PopHeap(cmp, heap, |heap|);
        PopSelects(cmp, heap, elements, limit);
      } else {
        out := v;
        StaysOut(cmp, elements, limit, v);
      }
    }

    /** push: v is added, and what is dropped for it is returned. */
    method Push(v: T) returns (out: Option<T>)
      requires Valid()
      modifies this
      ensures Valid() && pushed == old(pushed) + [v]
      ensures out.None? <==> |old(Held())| < limit
      ensures out.None? ==> dropped == old(dropped) && multiset(Held()) == multiset(old(Held())) + multiset{v}
      ensures out.Some? ==>
        && dropped == old(dropped) + [out.value]
        && multiset(Held()) + multiset{out.value} == multiset(old(Held())) + multiset{v}
    {
      ghost var held, dropped0, pushed0 := Held(), dropped, pushed;
      if limit == 0 {
        out := Some(v);
      } else if state != HeapSorted {
        out := PushFlat(v);
      } else {
        var d := PushFull(v);
        out := Some(d);
      }
      pushed := pushed + [v];
      if out.None? {
        SelectionGrows(cmp, limit, held, dropped0, pushed0, v, Held());
      } else {
        dropped := dropped + [out.value];
        SelectionTurns(cmp, limit, held, dropped0, pushed0, v, Held(), out.value);
      }
    }

    /** peek_bottom: an element that no held element comes after. */
    method PeekBottom() returns (b: T)
      requires Valid() && Held() != []
      modifies this`elements, this`state
      ensures Valid() && multiset(Held()) == multiset(old(Held()))
      ensures b in Held() && IsBottom(cmp, b, Held())
    {
      ghost var held := Held();
      if state == Unordered {
        assert Held() == elements;
        var candidate := 0;
        Irreflexive(cmp, elements[0]);
        for i := 1 to |elements|
          invariant elements == held && candidate < |elements|
          invariant forall k :: 0 <= k < i ==> !cmp(elements[candidate], elements[k])
        {
          if cmp(elements[candidate], elements[i]) {
            CandidateMoves(cmp, elements, candidate, i);
            candidate := i;
          }
        }
        if candidate != 0 {
          SwapPermutes(elements, 0, candidate);
          elements := Swap(elements, 0, candidate);
        }
        state := BottomKnown;
        assert Held() == elements;
        forall x | x in elements
          ensures !cmp(elements[0], x)
        {
          Membership(elements, held, x);
        }
        SelectionPermutes(cmp, limit, held, dropped, pushed, Held());
      }
      b := elements[0];
      if state == HeapSorted {
        forall x | x in Held()
          ensures !cmp(b, x)
        {
          var k :| 0 <= k < limit && elements[k] == x;
          FrontIsLast(cmp, elements, limit, k);
        }
      }
      assert b == Held()[0];
    }

    /** ExtractNondestructive: what is held, best first. */
    method ExtractNondestructive() returns (output: seq<T>)
      requires Valid()
      ensures Sorted(cmp, output) && multiset(output) == multiset(Held())
      ensures Equivalent(cmp, output, Best(cmp, pushed)[..Min(|pushed|, limit)])
    {
      if state != HeapSorted {
        output := Sort(cmp, elements);
      } else {
        output := elements[..|elements| - 1];
        output := SortHeap(cmp, output);
      }
      assert state != HeapSorted ==> Held() == elements;
      SelectionPermutes(cmp, limit, Held(), dropped, pushed, output);
      SelectionIsBest(cmp, limit, output, dropped, pushed);
    }

    /** ExtractUnsortedNondestructive */
    method ExtractUnsortedNondestructive() returns (output: seq<T>)
      requires Valid()
      ensures output == Held()
    {
      output := elements;
      if state == HeapSorted {
        output := output[..|output| - 1];
      }
    }

    /** Extract: as ExtractNondestructive, but the vector is taken away; only Reset may follow. */
    method Extract() returns (output: seq<T>)
      requires Valid()
      modifies this`elements
      ensures elements == []
      ensures Sorted(cmp, output) && multiset(output) == multiset(old(Held()))
      ensures Equivalent(cmp, output, Best(cmp, pushed)[..Min(|pushed|, limit)])
    {
      output := ExtractNondestructive();
      elements := [];
    }

    method ExtractUnsorted() returns (output: seq<T>)
      requires Valid()
      modifies this`elements
      ensures elements == [] && output == old(Held())
    {
      output := ExtractUnsortedNondestructive();
      elements := [];
    }

    method Reset()
      requires StrictWeakOrder(cmp)
      modifies this
      ensures Valid() && pushed == [] && dropped == [] && Held() == []
    {
      elements, state := [], Unordered;
      pushed, dropped := [], [];
    }
  }
}
