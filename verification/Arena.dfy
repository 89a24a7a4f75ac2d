/** base/arena.{h,cc}: a block allocator with alignment.  Memory is a line of addresses, and
    malloc gives any range that is apart from those in use. */
module Arena {
  import opened Options
  import opened Arithmetic
  import opened BinaryDigits

  const DEFAULT_ALIGNMENT := 8
  const MAX_ALIGNMENT := 0x10_0000
  const FIRST_BLOCKS := 16

  datatype Range = Range(at: nat, size: nat)

  predicate Apart(a: Range, b: Range) {
    a.at + a.size <= b.at || b.at + b.size <= a.at
  }

  predicate Within(a: Range, b: Range) {
    b.at <= a.at && a.at + a.size <= b.at + b.size
  }

  // ------------------------------------------------------------------------------- malloc

  class Allocator {
    var live: set<Range>

    ghost predicate Valid()
      reads this
    {
      && (forall r :: r in live ==> 0 < r.at && 0 < r.size)
      && (forall r, s :: r in live && s in live && r != s ==> Apart(r, s))
    }

    constructor ()
      ensures Valid() && live == {}
    {
      live := {};
    }

    method AlignedMalloc(size: nat, alignment: nat) returns (block: Range)
      requires Valid() && 0 < size && 0 < alignment
      modifies this
      ensures Valid() && live == old(live) + {block}
      ensures block.size == size && 0 < block.at && block.at % alignment == 0
      ensures forall r :: r in old(live) ==> Apart(block, r) && block != r
    {
      RoomAfterAll(live, size, alignment);
      var at: nat :| IsFree(live, size, alignment, at);
      block := Range(at, size);
      live := live + {block};
    }

    method Free(block: Range)
      requires Valid() && block in live
      modifies this
      ensures Valid() && live == old(live) - {block}
    {
      live := live - {block};
    }
  }

  lemma {:induction false} EndOfAll(live: set<Range>) returns (end: nat)
    ensures forall r :: r in live ==> r.at + r.size <= end
  {
    if live == {} {
      end := 0;
    } else {
      var r :| r in live;
      var rest := EndOfAll(live - {r});
      end := if r.at + r.size <= rest then rest else r.at + r.size;
    }
  }

  predicate IsFree(live: set<Range>, size: nat, alignment: nat, at: nat)
    requires 0 < alignment
  {
    0 < at && at % alignment == 0 && forall r :: r in live ==> Apart(Range(at, size), r)
  }

  lemma RoomAfterAll(live: set<Range>, size: nat, alignment: nat)
    requires 0 < alignment
    ensures exists at: nat :: IsFree(live, size, alignment, at)
  {
    var end := EndOfAll(live);
    var at: nat := (end + 1) * alignment;
    DivModIs(at, alignment, end + 1, 0);
    assert at >= end + 1;
    assert IsFree(live, size, alignment, at);
  }

  // ------------------------------------------------------------------- numeric routines

  predicate Divides(d: nat, n: nat)
    requires 0 < d
  {
    n % d == 0
  }

  /** Euclid's greatest common divisor. */
  function Gcd(x: nat, y: nat): nat
    decreases y
  {
    if y == 0 then x else Gcd(y, x % y)
  }

  method GCD(x: nat, y: nat) returns (r: nat)
    ensures r == Gcd(x, y)
  {
    var a, b := x, y;
    while b != 0
      invariant Gcd(a, b) == Gcd(x, y)
      decreases b
    {
      a, b := b, a % b;
    }
    r := a;
  }

  /** It divides both numbers, and all that divides both divides it. */
  lemma GcdIsGreatest(x: nat, y: nat, d: nat)
    requires 0 < x + y && 0 < d
    ensures 0 < Gcd(x, y) && Divides(Gcd(x, y), x) && Divides(Gcd(x, y), y)
    ensures Divides(d, x) && Divides(d, y) ==> Divides(d, Gcd(x, y))
  {
    GcdDivides(x, y);
    if Divides(d, x) && Divides(d, y) {
      var u, v := Combination(x, y);
      CombinationDivides(d, x, y, u, v, Gcd(x, y));
    }
  }

  lemma {:induction false} GcdDivides(x: nat, y: nat)
    requires 0 < x + y
    ensures 0 < Gcd(x, y) && Divides(Gcd(x, y), x) && Divides(Gcd(x, y), y)
    decreases y
  {
    if y == 0 {
      DivModIs(x, x, 1, 0);
    } else {
      var q := QuotientOf(x, y);
      GcdDivides(y, x % y);
      CombinationDivides(Gcd(x, y), y, x % y, q, 1, x);
    }
  }

  lemma CombinationDivides(d: nat, x: nat, y: nat, u: int, v: int, n: nat)
    requires 0 < d && Divides(d, x) && Divides(d, y) && n == u * x + v * y
    ensures Divides(d, n)
  {
    var i := QuotientOf(x, d);
    var j := QuotientOf(y, d);
    TakeOut(u, i, v, j, d);
    DivModIs(n, d, u * i + v * j, 0);
  }

  lemma TakeOut(u: int, i: int, v: int, j: int, d: int)
    ensures u * (i * d) + v * (j * d) == (u * i + v * j) * d
  {
  }

  lemma {:induction false} Combination(x: nat, y: nat) returns (u: int, v: int)
    ensures Gcd(x, y) == u * x + v * y
    decreases y
  {
    if y == 0 {
      u, v := 1, 0;
    } else {
      var q := QuotientOf(x, y);
      var s, t := Combination(y, x % y);
      u, v := t, s - t * q;
      OneStepBack(s, t, q, y, x % y);
    }
  }

  lemma OneStepBack(s: int, t: int, q: int, y: int, r: int)
    ensures s * y + t * r == t * (q * y + r) + (s - t * q) * y
  {
  }

  /** A common multiple that divides every other. */
  ghost predicate IsLcm(a: nat, b: nat, r: nat)
    requires 0 < a && 0 < b
  {
    && 0 < r && Divides(a, r) && Divides(b, r)
    && forall m: nat :: Divides(a, m) && Divides(b, m) ==> Divides(r, m)
  }

  method LeastCommonMultiple(a: nat, b: nat) returns (r: nat)
    requires 0 < a && 0 < b
    ensures IsLcm(a, b, r)
  {
    if a > b {
      r := DividedTimes(a, b);
    } else if a < b {
      r := DividedTimes(b, a);
    } else {
      r := a;
      LargerIsLcm(a, b);
    }
  }

  method DividedTimes(a: nat, b: nat) returns (r: nat)
    requires 0 < a && 0 < b
    ensures IsLcm(a, b, r) && IsLcm(b, a, r)
  {
    var g := GCD(a, b);
    GcdDivides(a, b);
    r := (a / g) * b;
    ProductIsLcm(a, b);
  }

  lemma ProductIsLcm(a: nat, b: nat)
    requires 0 < a && 0 < b
    ensures var g := Gcd(a, b); 0 < g && IsLcm(a, b, (a / g) * b) && IsLcm(b, a, (a / g) * b)
  {
    GcdDivides(a, b);
    var g := Gcd(a, b);
    var r: nat := (a / g) * b;
    var i := QuotientOf(a, g);
    var j := QuotientOf(b, g);
    TimesDivides(i, b, r);
    Swapped(i, j, g);
    TimesDivides(j, a, r);
    forall m: nat | Divides(a, m) && Divides(b, m) ensures 0 < r && Divides(r, m) {
      var u, v := Combination(a, b);
      var k := QuotientOf(m, b);
      var l := QuotientOf(m, a);
      MultipleOfBoth(a, b, g, i, u, v, k, l, m);
      DivModIs(m, r, u * k + v * l, 0);
    }
  }

  lemma Swapped(i: nat, j: nat, g: nat)
    ensures i * (j * g) == j * (i * g)
  {
  }

  lemma TimesDivides(k: nat, d: nat, n: nat)
    requires 0 < d && 0 < n && n == k * d
    ensures Divides(d, n)
  {
    DivModIs(n, d, k, 0);
  }

  lemma MultipleOfBoth(a: nat, b: nat, g: nat, i: nat, u: int, v: int, k: int, l: int, m: nat)
    requires 0 < g && a == i * g && g == u * a + v * b && m == k * b && m == l * a
    ensures m == (u * k + v * l) * (i * b)
  {
    calc {
      m * g;
      m * (u * a + v * b);
      (k * b) * (u * a) + (l * a) * (v * b);
      (u * k + v * l) * (a * b);
      (u * k + v * l) * ((i * g) * b);
      ((u * k + v * l) * (i * b)) * g;
    }
    DivisionUnique(g, m, 0, (u * k + v * l) * (i * b), 0);
  }

  /** Of two numbers one of which divides the other, the larger. */
  lemma LargerIsLcm(a: nat, b: nat)
    requires 0 < a && 0 < b && Divides(b, a)
    ensures IsLcm(a, b, a) && IsLcm(b, a, a)
  {
    DivModIs(a, a, 1, 0);
  }

  lemma LcmUnique(a: nat, b: nat, r: nat, s: nat)
    requires 0 < a && 0 < b && IsLcm(a, b, r) && IsLcm(a, b, s)
    ensures r == s
  {
    assert Divides(r, s) && Divides(s, r);
    DivisorIsLess(r, s);
    DivisorIsLess(s, r);
  }

  /** Of two powers of two, the larger. */
  lemma LcmOfPowers(m: nat, n: nat, r: nat)
    requires 0 < m && 0 < n && IsPowerOfTwo(m) && IsPowerOfTwo(n) && IsLcm(m, n, r)
    ensures r == if m <= n then n else m
  {
    if m <= n {
      PowersDivide(m, n);
      LargerIsLcm(n, m);
      LcmUnique(m, n, r, n);
    } else {
      PowersDivide(n, m);
      LargerIsLcm(m, n);
      LcmUnique(m, n, r, m);
    }
  }

  lemma DivisorIsLess(g: nat, b: nat)
    requires 0 < g && 0 < b && Divides(g, b)
    ensures g <= b
  {
  }

  // --------------------------------------------------------------------- powers of two

  /** Of two powers of two the smaller divides the larger. */
  lemma {:induction false} PowersDivide(m: nat, n: nat)
    requires 0 < m <= n && IsPowerOfTwo(m) && IsPowerOfTwo(n)
    ensures Divides(m, n)
  {
    if m != 1 {
      PowersDivide(m / 2, n / 2);
      var k := n / 2 / (m / 2);
      assert n / 2 == k * (m / 2);
      assert n == k * m;
      DivModIs(n, m, k, 0);
    }
  }

  lemma DividesThrough(k: nat, m: nat, n: nat)
    requires 0 < k && 0 < m && Divides(k, m) && Divides(m, n)
    ensures Divides(k, n)
  {
    var p, q := m / k, n / m;
    assert m == p * k && n == q * m;
    assert n == (q * p) * k;
    DivModIs(n, k, q * p, 0);
  }

  function Larger(m: nat, n: nat): nat {
    if m < n then n else m
  }

  /** The alignment a new block gets. */
  function Adjusted(alignment: nat): nat {
    if alignment > 1 then Larger(alignment, DEFAULT_ALIGNMENT) else 1
  }

  /** The size of a new block: a multiple of its alignment if it is larger than that. */
  function AdjustedSize(size: nat, adjusted: nat): (r: nat)
    requires 0 < adjusted
    ensures size <= r
  {
    if adjusted > 1 && size > adjusted && size % adjusted > 0 then size + (adjusted - size % adjusted) else size
  }

  /** The alignments of blocks, in numbers. */
  lemma AdjustedIs(alignment: nat)
    requires 0 < alignment && IsPowerOfTwo(alignment)
    ensures alignment == 1 ==> Adjusted(alignment) == 1
    ensures 1 < alignment <= 8 ==> Adjusted(alignment) == 8
    ensures 8 < alignment ==> Adjusted(alignment) == alignment
  {
  }

  /** A block larger than its alignment is rounded up to the next multiple, any other stays. */
  lemma AdjustedSizeIs(size: nat, adjusted: nat)
    requires 0 < adjusted
    ensures size <= AdjustedSize(size, adjusted) < size + adjusted
    ensures adjusted < size ==> Divides(adjusted, AdjustedSize(size, adjusted))
    ensures size <= adjusted ==> AdjustedSize(size, adjusted) == size
  {
    if adjusted < size {
      ModUp(size, adjusted);
    }
  }

  // ---------------------------------------------------------------- what has been given out

  /** Blocks are different and in use. */
  ghost predicate InUse(blocks: seq<Range>, live: set<Range>) {
    && (forall i :: 0 <= i < |blocks| ==> blocks[i] in live)
    && (forall i, j :: 0 <= i < j < |blocks| ==> blocks[i] != blocks[j])
  }

  /** The ranges given out lie in blocks and are apart from each other and from the free tail,
      which lies in a block too. */
  ghost predicate IsGiven(given: seq<Range>, homes: seq<Range>, blocks: seq<Range>, tail: Range, home: Range) {
    && |homes| == |given| && home in blocks && Within(tail, home)
    && (forall i :: 0 <= i < |given| ==> 0 < given[i].size && homes[i] in blocks && Within(given[i], homes[i]))
    && (forall i :: 0 <= i < |given| ==> Apart(given[i], tail))
    && (forall i, j :: 0 <= i < j < |given| ==> Apart(given[i], given[j]))
  }

  /** Moving the tail's start forward. */
  lemma TailShrinks(given: seq<Range>, homes: seq<Range>, blocks: seq<Range>, tail: Range, home: Range, less: Range)
    requires IsGiven(given, homes, blocks, tail, home) && Within(less, tail)
    ensures IsGiven(given, homes, blocks, less, home)
  {
  }

  /** Giving out the beginning of the tail. */
  lemma TailGives(given: seq<Range>, homes: seq<Range>, blocks: seq<Range>, tail: Range, home: Range, size: nat)
    requires IsGiven(given, homes, blocks, tail, home) && 0 < size <= tail.size
    ensures IsGiven(given + [Range(tail.at, size)], homes + [home], blocks,
                    Range(tail.at + size, tail.size - size), home)
  {
    var all, more := given + [Range(tail.at, size)], homes + [home];
    forall i | 0 <= i < |all| ensures 0 < all[i].size && more[i] in blocks && Within(all[i], more[i]) {
      if i < |given| {
        assert all[i] == given[i] && more[i] == homes[i];
      }
    }
    forall i | 0 <= i < |given| ensures Apart(all[i], Range(tail.at, size)) {
      assert Apart(given[i], tail);
    }
  }

  /** A block apart from all others takes the tail's place. */
  lemma NewTail(given: seq<Range>, homes: seq<Range>, blocks: seq<Range>, tail: Range, home: Range, block: Range)
    requires IsGiven(given, homes, blocks, tail, home)
    requires forall b :: b in blocks ==> Apart(block, b)
    ensures IsGiven(given, homes, blocks + [block], block, block)
  {
    forall i | 0 <= i < |given| ensures Apart(given[i], block) {
      assert Within(given[i], homes[i]) && Apart(block, homes[i]);
    }
  }

  /** A block apart from all others is given out. */
  lemma BlockGiven(given: seq<Range>, homes: seq<Range>, blocks: seq<Range>, tail: Range, home: Range, block: Range, size: nat)
    requires IsGiven(given, homes, blocks, tail, home)
    requires forall b :: b in blocks ==> Apart(block, b)
    requires 0 < size <= block.size
    ensures IsGiven(given + [Range(block.at, size)], homes + [block], blocks + [block], tail, home)
  {
    var all, more := given + [Range(block.at, size)], homes + [block];
    forall i | 0 <= i < |all| ensures 0 < all[i].size && more[i] in blocks + [block] && Within(all[i], more[i]) {
      if i < |given| {
        assert all[i] == given[i] && more[i] == homes[i];
      }
    }
    forall i | 0 <= i < |given| ensures Apart(all[i], Range(block.at, size)) {
      assert Within(given[i], homes[i]) && Apart(block, homes[i]);
    }
    assert Apart(block, home);
  }

  function Members(s: seq<Range>): set<Range> {
    set r | r in s
  }

  /** With the blocks from lo up to i freed, block i can be. */
  lemma StillInUse(blocks: seq<Range>, live: set<Range>, lo: nat, i: nat)
    requires InUse(blocks, live) && lo <= i < |blocks|
    ensures blocks[i] in live - Members(blocks[lo..i])
    ensures Members(blocks[lo..i + 1]) == Members(blocks[lo..i]) + {blocks[i]}
  {
    assert blocks[lo..i + 1] == blocks[lo..i] + [blocks[i]];
  }

  lemma BlockAdded(blocks: seq<Range>, live: set<Range>, block: Range)
    requires InUse(blocks, live) && forall r :: r in live ==> Apart(block, r) && block != r
    ensures InUse(blocks + [block], live + {block})
    ensures forall b :: b in blocks ==> Apart(block, b)
  {
  }

  // ------------------------------------------------------------------------------- arena

  /** What GetMemory gives; Aborted where an assertion or CHECK fails. */
  datatype Answer = Null | Memory(at: nat) | Aborted

  /** How far an address is from the next multiple of the alignment. */
  function Waste(at: nat, alignment: nat): (r: nat)
    requires 0 < alignment
    ensures r < alignment && Divides(alignment, at + r)
  {
    var overage := at % alignment;
    ModUp(at, alignment);
    if overage > 0 then alignment - overage else 0
  }

  lemma ModUp(at: nat, alignment: nat)
    requires 0 < alignment
    ensures at % alignment > 0 ==> (at + (alignment - at % alignment)) % alignment == 0
  {
    var q := QuotientOf(at, alignment);
    if at % alignment > 0 {
      assert at + (alignment - at % alignment) == (q + 1) * alignment;
      DivModIs(at + (alignment - at % alignment), alignment, q + 1, 0);
    }
  }

  class Arena {
    const heap: Allocator
    const blockSize: nat
    var freestart: nat
    var remaining: nat
    var blocksAlloced: nat
    const firstBlocks: array<Range>
    var overflowBlocks: seq<Range>

    // What was given out since the last Reset, the blocks it lies in, and that of the tail.
    ghost var given: seq<Range>
    ghost var homes: seq<Range>
    ghost var home: Range

    ghost function Blocks(): seq<Range>
      requires blocksAlloced <= firstBlocks.Length
      reads this, firstBlocks
    {
      firstBlocks[..blocksAlloced] + overflowBlocks
    }

    ghost predicate Laid()
      reads this, heap, firstBlocks
    {
      && heap.Valid() && firstBlocks.Length == FIRST_BLOCKS
      && 1 <= blocksAlloced <= FIRST_BLOCKS && (overflowBlocks != [] ==> blocksAlloced == FIRST_BLOCKS)
      && InUse(Blocks(), heap.live)
      && DEFAULT_ALIGNMENT < blockSize == firstBlocks[0].size
    }

    ghost function Tail(): Range
      reads this
    {
      Range(freestart, remaining)
    }

    ghost predicate Valid()
      reads this, heap, firstBlocks
    {
      Laid() && IsGiven(given, homes, Blocks(), Tail(), home) && 0 < freestart
    }

    constructor (heap: Allocator, blockSize: nat)
      requires heap.Valid() && DEFAULT_ALIGNMENT < blockSize
      modifies heap
      ensures Valid() && this.heap == heap && this.blockSize == blockSize && fresh(firstBlocks)
      ensures given == [] && remaining <= blockSize
      ensures heap.live == old(heap.live) + Members(Blocks()) && old(heap.live) !! Members(Blocks())
    {
      this.heap := heap;
      this.blockSize := blockSize;
      freestart, remaining, overflowBlocks := 0, 0, [];
      blocksAlloced := 1;
      firstBlocks := new Range[FIRST_BLOCKS](_ => Range(0, 0));
      given, homes := [], [];
      new;
      firstBlocks[0] := heap.AlignedMalloc(blockSize, 1);
      assert Blocks() == [firstBlocks[0]];
      Reset();
      assert Members([firstBlocks[0]]) == {firstBlocks[0]};
    }

    /** Frees every block but the first. */
    method FreeBlocks()
      requires Laid()
      modifies this`blocksAlloced, this`overflowBlocks, firstBlocks, heap
      ensures Laid() && Blocks() == old(Blocks()[..1])
      ensures heap.live == old(heap.live) - old(Members(Blocks()[1..]))
    {
      ghost var blocks, live, n := Blocks(), heap.live, blocksAlloced;
      FreeFirstBlocks(blocks, live);
      blocksAlloced := 1;
      FreeOverflow(blocks, live, n);
      overflowBlocks := [];
      assert blocks[1..|blocks|] == blocks[1..] && Blocks() == blocks[..1];
      StillInUse(blocks, live, 0, 0);
    }

    /** The blocks behind the first and before k are free again. */
    ghost predicate Freed(blocks: seq<Range>, live: set<Range>, k: nat)
      reads heap
    {
      && InUse(blocks, live) && 1 <= k <= |blocks|
      && heap.Valid() && heap.live == live - Members(blocks[1..k])
    }

    method FreeOne(ghost blocks: seq<Range>, ghost live: set<Range>, ghost k: nat, block: Range)
      requires Freed(blocks, live, k) && k < |blocks| && block == blocks[k]
      modifies heap
      ensures Freed(blocks, live, k + 1)
    {
      StillInUse(blocks, live, 1, k);
      heap.Free(block);
    }

    method FreeFirstBlocks(ghost blocks: seq<Range>, ghost live: set<Range>)
      requires 1 <= blocksAlloced <= firstBlocks.Length && blocksAlloced <= |blocks|
      requires firstBlocks[..blocksAlloced] == blocks[..blocksAlloced] && Freed(blocks, live, 1)
      modifies firstBlocks, heap
      ensures firstBlocks[0] == blocks[0] && Freed(blocks, live, blocksAlloced)
    {
      var i := 1;
      while i < blocksAlloced
        invariant 1 <= i <= blocksAlloced && Freed(blocks, live, i)
        invariant firstBlocks[0] == blocks[0] && firstBlocks[i..blocksAlloced] == blocks[i..blocksAlloced]
      {
        ghost var rest := firstBlocks[i..blocksAlloced];
        FreeOne(blocks, live, i, firstBlocks[i]);
        firstBlocks[i] := Range(0, 0);
        i := i + 1;
        assert firstBlocks[i..blocksAlloced] == rest[1..] == blocks[i..blocksAlloced];
      }
    }

    method FreeOverflow(ghost blocks: seq<Range>, ghost live: set<Range>, ghost n: nat)
      requires n <= |blocks| && overflowBlocks == blocks[n..] && Freed(blocks, live, n)
      modifies heap
      ensures Freed(blocks, live, |blocks|)
    {
      var i := 0;
      while i < |overflowBlocks|
        invariant 0 <= i <= |overflowBlocks| && Freed(blocks, live, n + i)
      {
        FreeOne(blocks, live, n + i, overflowBlocks[i]);
        i := i + 1;
      }
    }

    /** The first block is empty again; the CHECK never fails. */
    method Reset()
      requires Laid()
      modifies this, firstBlocks, heap
      ensures Valid() && given == [] && remaining <= blockSize
      ensures Blocks() == old(Blocks()[..1]) && heap.live == old(heap.live) - old(Members(Blocks()[1..]))
    {
      FreeBlocks();
      freestart := firstBlocks[0].at;
      remaining := firstBlocks[0].size;
      given, homes, home := [], [], firstBlocks[0];
      var ok := SatisfyAlignment(DEFAULT_ALIGNMENT);
      assert ok;
    }

    /** ~Arena: frees the first block as well. */
    method Destroy()
      requires Laid()
      modifies this, firstBlocks, heap
      ensures heap.Valid() && heap.live == old(heap.live) - old(Members(Blocks()))
    {
      ghost var blocks := Blocks();
      FreeBlocks();
      assert Blocks()[0] == blocks[0];
      assert blocks == [blocks[0]] + blocks[1..];
      assert Members(blocks) == {blocks[0]} + Members(blocks[1..]);
      heap.Free(firstBlocks[0]);
    }

    method AllocNewBlock(size: nat, alignment: nat) returns (r: Option<Range>)
      requires Laid() && 0 < size && 0 < alignment && IsPowerOfTwo(alignment)
      modifies this`blocksAlloced, this`overflowBlocks, firstBlocks, heap
      ensures r.None? <==> 0x10_0000 < alignment
      ensures r.Some? ==>
                var block := r.value;
                && Laid() && Blocks() == old(Blocks()) + [block] && heap.live == old(heap.live) + {block}
                && block.size == AdjustedSize(size, Adjusted(alignment)) && Divides(Adjusted(alignment), block.at)
                && block.at > 0 && forall b :: b in old(Blocks()) ==> Apart(block, b)
    {
      var lcm := 1;
      if alignment > 1 {
        lcm := LeastCommonMultiple(alignment, DEFAULT_ALIGNMENT);
        LcmOfPowers(alignment, DEFAULT_ALIGNMENT, lcm);
      }
      assert lcm == Adjusted(alignment);
      if lcm > MAX_ALIGNMENT {
        return None;
      }
      var adjusted := size;
      if lcm > 1 && adjusted > lcm {
        var excess := adjusted % lcm;
        adjusted := adjusted + (if excess > 0 then lcm - excess else 0);
      }
      var block := heap.AlignedMalloc(adjusted, lcm);
      BlockAdded(Blocks(), old(heap.live), block);
      AddBlock(block);
      return Some(block);
    }

    /** The next of the first blocks, or one more in the vector. */
    method AddBlock(block: Range)
      requires firstBlocks.Length == FIRST_BLOCKS
      requires 1 <= blocksAlloced <= FIRST_BLOCKS && (overflowBlocks != [] ==> blocksAlloced == FIRST_BLOCKS)
      modifies this`blocksAlloced, this`overflowBlocks, firstBlocks
      ensures 1 <= blocksAlloced <= 16 && (overflowBlocks != [] ==> blocksAlloced == 16)
      ensures Blocks() == old(Blocks()) + [block] && firstBlocks[0] == old(firstBlocks[0])
    {
      if blocksAlloced < FIRST_BLOCKS {
        firstBlocks[blocksAlloced] := block;
        blocksAlloced := blocksAlloced + 1;
        assert firstBlocks[..blocksAlloced] == old(firstBlocks[..blocksAlloced]) + [block];
      } else {
        overflowBlocks := overflowBlocks + [block];
      }
    }

    method SatisfyAlignment(alignment: nat) returns (ok: bool)
      requires 0 < alignment && IsPowerOfTwo(alignment)
      modifies this`freestart, this`remaining
      ensures var waste := Waste(old(freestart), alignment);
              && ok == (waste == 0 || waste < old(remaining))
              && (ok ==> freestart == old(freestart) + waste && remaining == old(remaining) - waste)
              && (!ok ==> freestart == old(freestart) && remaining == old(remaining))
    {
      Masked(freestart, alignment);
      var overage := And(freestart, alignment - 1);
      if overage > 0 {
        var waste := alignment - overage;
        if waste >= remaining {
          return false;
        }
        freestart := freestart + waste;
        remaining := remaining - waste;
      }
      return true;
    }

    /** Whether the free tail has room for size bytes at the alignment. */
    predicate HasRoom(size: nat, alignment: nat)
      requires 0 < alignment
      reads this
    {
      var waste := Waste(freestart, alignment);
      (waste == 0 || waste < remaining) && size <= remaining - waste
    }

    /** False where the CHECK on the alignment aborts; that on SatisfyAlignment never does. */
    method MakeNewBlock(alignment: nat) returns (ok: bool)
      requires Valid() && 0 < alignment && IsPowerOfTwo(alignment)
      modifies this, firstBlocks, heap
      ensures given == old(given) && ok == (alignment <= MAX_ALIGNMENT)
      ensures ok ==> Valid() && Divides(alignment, freestart)
      ensures ok ==> remaining == AdjustedSize(blockSize, Adjusted(alignment))
      ensures ok ==> old(heap.live) <= heap.live
    {
      var block := AllocNewBlock(blockSize, alignment);
      if block == None {
        return false;
      }
      SetTail(block.value, old(Blocks()));
      AlignedEnough(alignment, freestart);
      ok := SatisfyAlignment(alignment);
      assert ok;
    }

    method SetTail(block: Range, ghost blocks: seq<Range>)
      requires Laid() && Blocks() == blocks + [block] && block.at > 0
      requires IsGiven(given, homes, blocks, Tail(), home) && forall b :: b in blocks ==> Apart(block, b)
      modifies this`freestart, this`remaining, this`home
      ensures Valid() && freestart == block.at && remaining == block.size
    {
      NewTail(given, homes, blocks, Tail(), home, block);
      freestart := block.at;
      remaining := block.size;
      home := block;
    }

    /** Takes size bytes off the free tail. */
    method TakeFromTail(size: nat) returns (at: nat)
      requires Valid() && 0 < size <= remaining
      modifies this`freestart, this`remaining, this`given, this`homes
      ensures Valid() && at == old(freestart) && given == old(given) + [Range(at, size)]
      ensures remaining == old(remaining) - size && freestart == old(freestart) + size
    {
      TailGives(given, homes, Blocks(), Tail(), home, size);
      given := given + [Range(freestart, size)];
      homes := homes + [home];
      remaining := remaining - size;
      at := freestart;
      freestart := freestart + size;
    }

    /** A block of its own for a large object. */
    method GetBlock(size: nat, alignment: nat) returns (r: Answer)
      requires Valid() && 0 < size && 0 < alignment && IsPowerOfTwo(alignment)
      modifies this`blocksAlloced, this`overflowBlocks, this`given, this`homes, firstBlocks, heap
      ensures r != Null && (r == Aborted <==> MAX_ALIGNMENT < alignment)
      ensures r.Memory? ==> Valid() && given == old(given) + [Range(r.at, size)] && Divides(alignment, r.at)
      ensures r.Memory? ==> old(heap.live) <= heap.live && 0 < r.at
    {
      var block := AllocNewBlock(size, alignment);
      if block == None {
        return Aborted;
      }
      BlockGiven(given, homes, old(Blocks()), Tail(), home, block.value, size);
      given := given + [Range(block.value.at, size)];
      homes := homes + [block.value];
      AlignedEnough(alignment, block.value.at);
      return Memory(block.value.at);
    }

    method GetMemoryFallback(size: nat, alignment: int) returns (r: Answer)
      requires Valid()
      modifies this, firstBlocks, heap
      ensures r == Null <==> size == 0
      ensures r == Null ==> unchanged(this) && unchanged(firstBlocks) && unchanged(heap)
      ensures r == Aborted <==>
              0 < size && (alignment <= 0 || !IsPowerOfTwo(alignment)
                           || (MAX_ALIGNMENT < alignment && (blockSize / 4 < size || !old(HasRoom(size, alignment)))))
      ensures r.Memory? ==>
                && Valid() && 0 < r.at && given == old(given) + [Range(r.at, size)]
                && Divides(alignment, r.at) && old(heap.live) <= heap.live
                && remaining == old(RemainingAfter(size, alignment))
    {
      if size == 0 {
        return Null;
      }
      if alignment <= 0 {
        return Aborted;
      }
      MaskTest(alignment);
      if And(alignment, alignment - 1) != 0 {
        return Aborted;
      }
      if blockSize == 0 || size > blockSize / 4 {
        r := GetBlock(size, alignment);
        return;
      }
      var ok := AlignTail(size, alignment);
      if !ok {
        return Aborted;
      }
      assert size <= remaining;
      var at := TakeFromTail(size);
      return Memory(at);
    }

    /** Aligns the tail, or takes a new one if that leaves too little; false where MakeNewBlock aborts. */
    method AlignTail(size: nat, alignment: nat) returns (ok: bool)
      requires Valid() && 0 < size <= blockSize / 4 && 0 < alignment && IsPowerOfTwo(alignment)
      modifies this, firstBlocks, heap
      ensures ok <==> alignment <= MAX_ALIGNMENT || old(HasRoom(size, alignment))
      ensures ok ==> Valid() && size <= remaining && Divides(alignment, freestart)
      ensures ok ==> remaining - size == old(RemainingAfter(size, alignment))
      ensures ok ==> given == old(given) && old(heap.live) <= heap.live
    {
      ok := SatisfyAlignment(alignment);
      TailShrinks(given, homes, Blocks(), old(Tail()), home, Tail());
      if !ok || size > remaining {
        ok := MakeNewBlock(alignment);
      }
    }

    /** What is left of the free tail after size bytes: less, unless a new block is begun. */
    function RemainingAfter(size: nat, alignment: nat): int
      requires 0 < alignment
      reads this
    {
      if blockSize / 4 < size then remaining
      else if HasRoom(size, alignment) then remaining - Waste(freestart, alignment) - size
      else AdjustedSize(blockSize, Adjusted(alignment)) - size
    }

    method GetMemory(size: nat, align: int) returns (r: Answer)
      requires Valid()
      modifies this, firstBlocks, heap
      ensures r == Null ==> size == 0 && unchanged(this) && unchanged(firstBlocks) && unchanged(heap)
      ensures r == Aborted <==>
              blockSize < old(remaining)
              || (0 < size && (align <= 0 || !IsPowerOfTwo(align)
                               || (0x10_0000 < align && (blockSize / 4 < size || !old(HasRoom(size, align))))))
      ensures r.Memory? ==>
                && 0 < size && Valid() && 0 < r.at && given == old(given) + [Range(r.at, size)]
                && Divides(align, r.at) && old(heap.live) <= heap.live
      ensures r.Memory? ==> remaining == if size < old(remaining) && align == 1 then old(remaining) - size
                                         else old(RemainingAfter(size, align))
    {
      if remaining > blockSize {
        return Aborted;
      }
      if size > 0 && size < remaining && align == 1 {
        assert Waste(freestart, 1) == 0;
        var at := TakeFromTail(size);
        return Memory(at);
      }
      r := GetMemoryFallback(size, align);
    }
  }

  lemma AlignedEnough(alignment: nat, at: nat)
    requires 0 < alignment && IsPowerOfTwo(alignment) && Divides(Adjusted(alignment), at)
    ensures Divides(alignment, at) && Waste(at, alignment) == 0
  {
    if alignment == 1 {
      assert Divides(1, at);
    } else {
      PowersDivide(alignment, Larger(alignment, DEFAULT_ALIGNMENT));
      DividesThrough(alignment, Adjusted(alignment), at);
    }
  }

  // ------------------------------------------------------------------------ whole runs

  /** The assertion that no more remains than a block holds is safe with this alignment: a new
      block is rounded up by one byte at most, which the object that needs it takes. */
  predicate Fits(blockSize: nat, alignment: nat) {
    AdjustedSize(blockSize, Adjusted(alignment)) <= blockSize + 1
  }

  datatype Request = Request(size: nat, alignment: int)

  predicate IsProper(q: Request, blockSize: nat) {
    0 < q.size && 0 < q.alignment <= MAX_ALIGNMENT && IsPowerOfTwo(q.alignment) && Fits(blockSize, q.alignment)
  }

  predicate Serves(r: Range, q: Request) {
    0 < q.alignment && r.size == q.size && Divides(q.alignment, r.at)
  }

  /** No assertion or CHECK fails, and all that is given is aligned and apart, also from all
      that was given since the last Reset. */
  method ServeAll(a: Arena, requests: seq<Request>) returns (got: seq<Range>)
    requires a.Valid() && a.remaining <= a.blockSize
    requires forall i :: 0 <= i < |requests| ==> IsProper(requests[i], a.blockSize)
    modifies a, a.firstBlocks, a.heap
    ensures a.Valid() && a.remaining <= a.blockSize && a.given == old(a.given) + got
    ensures |got| == |requests|
    ensures forall i :: 0 <= i < |got| ==> Serves(got[i], requests[i])
    ensures forall i, j :: 0 <= i < j < |got| ==> Apart(got[i], got[j])
    ensures forall r, g :: r in old(a.given) && g in got ==> Apart(r, g)
  {
    got := [];
    for i := 0 to |requests|
      invariant a.Valid() && a.remaining <= a.blockSize && a.given == old(a.given) + got
      invariant |got| == i
      invariant forall k :: 0 <= k < i ==> Serves(got[k], requests[k])
    {
      var r := ServeOne(a, requests[i]);
      got := got + [Range(r, requests[i].size)];
    }
    LaterApart(a.given, a.homes, a.Blocks(), a.Tail(), a.home, old(a.given), got);
  }

  method ServeOne(a: Arena, q: Request) returns (at: nat)
    requires a.Valid() && a.remaining <= a.blockSize && IsProper(q, a.blockSize)
    modifies a, a.firstBlocks, a.heap
    ensures a.Valid() && a.remaining <= a.blockSize && a.given == old(a.given) + [Range(at, q.size)]
    ensures Divides(q.alignment, at)
  {
    var r := a.GetMemory(q.size, q.alignment);
    at := r.at;
  }

  lemma LaterApart(given: seq<Range>, homes: seq<Range>, blocks: seq<Range>, tail: Range, home: Range,
                   before: seq<Range>, got: seq<Range>)
    requires IsGiven(given, homes, blocks, tail, home) && given == before + got
    ensures forall i, j :: 0 <= i < j < |got| ==> Apart(got[i], got[j])
    ensures forall r, g :: r in before && g in got ==> Apart(r, g)
  {
    forall i, j | 0 <= i < j < |got| ensures Apart(got[i], got[j]) {
      var (i', j') := (|before| + i, |before| + j);
      assert Apart(given[i'], given[j']);
    }
    forall r, g | r in before && g in got ensures Apart(r, g) {
      var i :| 0 <= i < |before| && before[i] == r;
      var j :| 0 <= j < |got| && got[j] == g;
      var j' := |before| + j;
      assert Apart(given[i], given[j']);
    }
  }

  /** With any other alignment, asking for one byte again and again makes the assertion fail. */
  method RunIntoAssertion(a: Arena, alignment: nat) returns (r: Answer)
    requires a.Valid() && a.remaining <= a.blockSize
    requires 0 < alignment <= MAX_ALIGNMENT && IsPowerOfTwo(alignment) && !Fits(a.blockSize, alignment)
    modifies a, a.firstBlocks, a.heap
    ensures r == Aborted
  {
    r := Null;
    while true
      invariant a.Valid()
      decreases if a.remaining <= a.blockSize then a.remaining + 1 else 0
    {
      if a.remaining > a.blockSize {
        r := a.GetMemory(1, alignment);
        return;
      }
      r := a.GetMemory(1, alignment);
    }
  }
}
