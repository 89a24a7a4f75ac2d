/** Exact uniform integers by rejection: UnbiasedUniform of base/random/weighted_picker.cc
    and, for any width, base/random/exact_uniform_int.h. */
module ExactUniform {
  import opened Options
  import opened Arithmetic
  import opened BinaryDigits

  /** How many of the smallest draws would skew the distribution. */
  function Remainder(bits: nat, n: nat): nat
    requires 0 < n
  {
    (Pow2(bits) - 1) % n + 1
  }

  /** What one draw of `bits` bits gives: nothing if it is to be drawn again. */
  function Draw(bits: nat, n: nat, draw: nat): Option<nat>
    requires 0 < n
  {
    if IsPowerOfTwo(n) then Some(draw % n)
    else if draw < Remainder(bits, n) then None
    else Some(draw % n)
  }

  /** The generator's next values are `draws`; with None they ran out before one was taken. */
  method ExactUniformInt(bits: nat, n: nat, draws: seq<nat>) returns (r: Option<nat>, used: nat)
    requires forall i :: 0 <= i < |draws| ==> draws[i] < Pow2(bits)
    ensures used <= |draws|
    ensures r.None? ==> used == |draws|
    ensures r.Some? ==> 0 < used
    ensures 0 < n ==> forall i :: 0 <= i < used - 1 ==> Draw(bits, n, draws[i]) == None
    ensures 0 < n && 0 < used ==> Draw(bits, n, draws[used - 1]) == r
    ensures n == 0 && draws != [] ==> r == Some(0) && used == 1
    ensures 0 < n && r.Some? ==> r.value < n
  {
    if draws == [] {
      return None, 0;
    }
    if n == 0 {
      return Some(draws[0] * n), 1;
    }
    MaskTest(n);
    if And(n, n - 1) == 0 {
      Masked(draws[0], n);
      return Some(And(draws[0], n - 1)), 1;
    }
    var rem := (Pow2(bits) - 1) % n + 1;
    used := 0;
    while used < |draws|
      invariant used <= |draws|
      invariant forall i :: 0 <= i < used ==> Draw(bits, n, draws[i]) == None
    {
      var rnd := draws[used];
      used := used + 1;
      if rnd >= rem {
        return Some(rnd % n), used;
      }
    }
    r := None;
  }

  // --------------------------------------------------------------------- counting

  /** The draws from lo to hi whose remainder by n is in a..b. */
  function Hits(n: nat, a: nat, b: nat, lo: nat, hi: nat): nat
    requires 0 < n && lo <= hi
    decreases hi - lo
  {
    if lo == hi then 0 else (if a <= lo % n < b then 1 else 0) + Hits(n, a, b, lo + 1, hi)
  }

  lemma {:induction false} HitsAdd(n: nat, a: nat, b: nat, lo: nat, mid: nat, hi: nat)
    requires 0 < n && lo <= mid <= hi
    ensures Hits(n, a, b, lo, hi) == Hits(n, a, b, lo, mid) + Hits(n, a, b, mid, hi)
    decreases mid - lo
  {
    if lo < mid {
      HitsAdd(n, a, b, lo + 1, mid, hi);
    }
  }

  lemma {:induction false} HitsBelow(n: nat, a: nat, b: nat, lo: nat, hi: nat)
    requires 0 < n && lo <= hi <= n && a <= b <= n
    ensures Hits(n, a, b, lo, hi) == Clamp(b, lo, hi) - Clamp(a, lo, hi)
    decreases hi - lo
  {
    if lo < hi {
      HitsBelow(n, a, b, lo + 1, hi);
      DivModIs(lo, n, 0, lo);
    }
  }

  function Clamp(x: nat, lo: nat, hi: nat): nat
    requires lo <= hi
  {
    if x < lo then lo else if x > hi then hi else x
  }

  /** Any n draws in a row hit a..b just b - a times. */
  lemma {:induction false} HitsPeriod(n: nat, a: nat, b: nat, lo: nat)
    requires 0 < n && a <= b <= n
    ensures Hits(n, a, b, lo, lo + n) == b - a
  {
    if lo == 0 {
      HitsBelow(n, a, b, 0, n);
    } else {
      HitsPeriod(n, a, b, lo - 1);
      var m := lo - 1;
      HitsAdd(n, a, b, lo, m + n, m + n + 1);
      assert Hits(n, a, b, m + n + 1, m + n + 1) == 0;
      SameRemainder(m, n);
    }
  }

  lemma SameRemainder(m: nat, n: nat)
    requires 0 < n
    ensures (m + n) % n == m % n
  {
    var (q, r) := (m / n, m % n);
    assert m == q * n + r && (q + 1) * n == q * n + n;
    DivModIs(m + n, n, q + 1, r);
  }

  lemma {:induction false} HitsPeriods(n: nat, a: nat, b: nat, lo: nat, q: nat)
    requires 0 < n && a <= b <= n
    ensures lo + q * n >= lo && Hits(n, a, b, lo, lo + q * n) == q * (b - a)
  {
    if q != 0 {
      HitsPeriods(n, a, b, lo, q - 1);
      var mid := lo + (q - 1) * n;
      assert lo + q * n == mid + n;
      HitsAdd(n, a, b, lo, mid, mid + n);
      HitsPeriod(n, a, b, mid);
      assert q * (b - a) == (q - 1) * (b - a) + (b - a);
    }
  }

  /** The draws below hi that are taken and give a value in a..b. */
  function Taken(bits: nat, n: nat, a: nat, b: nat, hi: nat): nat
    requires 0 < n
  {
    if hi == 0 then 0
    else
      var d := Draw(bits, n, hi - 1);
      Taken(bits, n, a, b, hi - 1) + (if d.Some? && a <= d.value < b then 1 else 0)
  }

  lemma {:induction false} TakenIsHits(bits: nat, n: nat, a: nat, b: nat, hi: nat)
    requires 0 < n
    ensures IsPowerOfTwo(n) ==> Taken(bits, n, a, b, hi) == Hits(n, a, b, 0, hi)
    ensures !IsPowerOfTwo(n) ==>
      Taken(bits, n, a, b, hi) == if hi <= Remainder(bits, n) then 0 else Hits(n, a, b, Remainder(bits, n), hi)
  {
    if hi != 0 {
      TakenIsHits(bits, n, a, b, hi - 1);
      if IsPowerOfTwo(n) {
        HitsAdd(n, a, b, 0, hi - 1, hi);
      } else if Remainder(bits, n) <= hi - 1 {
        HitsAdd(n, a, b, Remainder(bits, n), hi - 1, hi);
      }
    }
  }

  /** A power of two divides the number of draws. */
  lemma {:induction false} PowerDivides(n: nat, bits: nat) returns (q: nat)
    requires 0 < n <= Pow2(bits) && IsPowerOfTwo(n)
    ensures q * n == Pow2(bits)
  {
    if n == 1 {
      q := Pow2(bits);
    } else {
      q := PowerDivides(n / 2, bits - 1);
      assert n == 2 * (n / 2);
      assert q * n == 2 * (q * (n / 2));
    }
  }

  /** ... and no other number does, so that at least one draw below n is taken. */
  lemma {:induction false} OthersDoNotDivide(n: nat, bits: nat, q: nat)
    requires 0 < n && q * n == Pow2(bits)
    ensures IsPowerOfTwo(n)
  {
    if bits == 0 {
      assert n == 1;
    } else if n % 2 == 0 {
      assert 2 * (q * (n / 2)) == q * (2 * (n / 2));
      OthersDoNotDivide(n / 2, bits - 1, q);
    } else {
      OddFactor(q, n);
      assert 2 * ((q / 2) * n) == (2 * (q / 2)) * n;
      OthersDoNotDivide(n, bits - 1, q / 2);
    }
  }

  lemma OddFactor(q: nat, n: nat)
    requires n % 2 == 1 && (q * n) % 2 == 0
    ensures q % 2 == 0
  {
    var h := n / 2;
    assert q * n == 2 * (q * h) + q;
  }

  /** The number of draws taken for each value. */
  function Quotient(bits: nat, n: nat): int
    requires 0 < n
  {
    if IsPowerOfTwo(n) then Pow2(bits) / n else (Pow2(bits) - 1) / n
  }

  /** Exact fairness: of the 2^bits draws, just Quotient for each value are taken. */
  lemma DrawsAreFair(bits: nat, n: nat, a: nat, b: nat)
    requires 0 < n <= Pow2(bits) && a <= b <= n
    ensures Taken(bits, n, a, b, Pow2(bits)) == Quotient(bits, n) * (b - a)
  {
    TakenIsHits(bits, n, a, b, Pow2(bits));
    if IsPowerOfTwo(n) {
      var q := PowerDivides(n, bits);
      DivModIs(Pow2(bits), n, q, 0);
      HitsPeriods(n, a, b, 0, q);
    } else {
      var q := QuotientOf(Pow2(bits) - 1, n);
      HitsPeriods(n, a, b, Remainder(bits, n), q);
    }
  }

  /** A draw that is taken gives its remainder. */
  lemma DrawGives(bits: nat, n: nat, x: nat) returns (q: nat)
    requires 0 < n
    ensures Draw(bits, n, x).Some? ==> Draw(bits, n, x).value < n && x == q * n + Draw(bits, n, x).value
  {
    q := Rounds(x, n);
    DrawIsRemainder(bits, n, x);
  }

  lemma Rounds(x: nat, n: nat) returns (q: nat)
    requires 0 < n
    ensures x == q * n + x % n
  {
    q := QuotientOf(x, n);
  }

  lemma DrawIsRemainder(bits: nat, n: nat, x: nat)
    requires 0 < n
    ensures Draw(bits, n, x).Some? ==> Draw(bits, n, x).value == x % n < n
  {
  }

  /** The draws that are taken are the last Quotient rounds of n. */
  lemma DrawsTaken(bits: nat, n: nat, x: nat)
    requires 0 < n <= Pow2(bits) && x < Pow2(bits)
    ensures Draw(bits, n, x).Some? <==> Pow2(bits) - Quotient(bits, n) * n <= x
  {
    if IsPowerOfTwo(n) {
      var r := PowerDivides(n, bits);
      DivModIs(Pow2(bits), n, r, 0);
    } else {
      var r := QuotientOf(Pow2(bits) - 1, n);
      RestOfRounds(Pow2(bits) - 1, n, r, Quotient(bits, n));
    }
  }

  lemma RestOfRounds(p: nat, n: nat, r: int, q: int)
    requires 0 < n && p == r * n + p % n && q == r
    ensures p + 1 - q * n == p % n + 1
  {
  }

  /** For any other n the rejected draws are fewer than n. */
  lemma RejectsLessThanOneRound(bits: nat, n: nat)
    requires 0 < n && !IsPowerOfTwo(n)
    ensures Remainder(bits, n) < n
  {
    if (Pow2(bits) - 1) % n == n - 1 {
      var q := (Pow2(bits) - 1) / n;
      assert (q + 1) * n == Pow2(bits);
      OthersDoNotDivide(n, bits, q + 1);
    }
  }
}
