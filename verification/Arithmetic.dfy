/** Powers of two, quotients and remainders. */
module Arithmetic {
  function Pow2(k: nat): (r: nat)
    ensures r > k
  {
    if k == 0 then 1 else 2 * Pow2(k - 1)
  }

  lemma {:induction false} Pow2Adds(a: nat, b: nat)
    ensures Pow2(a + b) == Pow2(a) * Pow2(b)
  {
    if a != 0 {
      Pow2Adds(a - 1, b);
      DoubleProduct(Pow2(a - 1), Pow2(b));
      assert a + b - 1 == (a - 1) + b;
    }
  }

  lemma DoubleProduct(a: nat, b: nat)
    ensures (2 * a) * b == 2 * (a * b)
  {
  }

  lemma {:induction false} Pow2Grows(a: nat, b: nat)
    requires a <= b
    ensures Pow2(a) <= Pow2(b)
  {
    if a < b {
      Pow2Grows(a, b - 1);
    }
  }

  lemma Pow2Splits(k: nat, bits: nat)
    requires k <= bits
    ensures Pow2(bits) == Pow2(k) * Pow2(bits - k)
  {
    var j := bits - k;
    Pow2Adds(k, j);
    assert k + j == bits;
  }

  lemma QuotientOf(x: int, n: nat) returns (q: int)
    requires 0 < n
    ensures q == x / n && x == q * n + x % n
  {
    q := x / n;
  }

  /** Division with remainder has one result. */
  lemma DivisionUnique(n: nat, q: int, r: nat, q': int, r': nat)
    requires r < n && r' < n && q * n + r == q' * n + r'
    ensures q == q' && r == r'
  {
    if q' < q {
      assert (q - q') * n == r' - r;
      Multiple(q - q', n);
    } else if q < q' {
      assert (q' - q) * n == r - r';
      Multiple(q' - q, n);
    }
  }

  lemma Multiple(k: nat, n: nat)
    requires 0 < k
    ensures k * n >= n
  {
  }

  lemma DivModIs(x: int, n: nat, q: int, r: nat)
    requires r < n && x == q * n + r
    ensures x / n == q && x % n == r
  {
    var q' := QuotientOf(x, n);
    DivisionUnique(n, q, r, q', x % n);
  }

  lemma ModScale(a: nat, b: nat, x: nat)
    requires a > 0 && b > 0
    ensures a * b > 0 && x * a % (a * b) == a * (x % b)
  {
    ModAdd(0, a, b, x);
  }

  lemma ModAdd(low: nat, a: nat, b: nat, x: nat)
    requires low < a && b > 0
    ensures a * b > 0 && (low + a * x) % (a * b) == low + a * (x % b)
  {
    var q, r := x / b, x % b;
    Spread(a, b, q, r);
    assert x == b * q + r;
    Under(a, b, r);
    assert low + a * x == q * (a * b) + (low + a * r);
    DivModIs(low + a * x, a * b, q, low + a * r);
  }

  lemma Spread(a: nat, b: nat, q: nat, r: nat)
    ensures a * (b * q + r) == (a * b) * q + a * r
  {
  }

  lemma Under(a: nat, b: nat, r: nat)
    requires r < b
    ensures a * r + a <= a * b
  {
    assert a * (r + 1) <= a * b;
  }
}
