/** The operators on the binary digits of natural numbers, defined digit by digit. */
module BinaryDigits {
  import opened Arithmetic

  // ---------------------------------------------------------------------------------- xor

  function Xor(a: nat, b: nat): nat {
    if a == 0 && b == 0 then 0 else 2 * Xor(a / 2, b / 2) + (if a % 2 == b % 2 then 0 else 1)
  }

  lemma {:induction false} XorComm(a: nat, b: nat)
    ensures Xor(a, b) == Xor(b, a)
  {
    if a != 0 || b != 0 {
      XorComm(a / 2, b / 2);
    }
  }

  /** The last digit and the others. */
  lemma XorDigits(a: nat, b: nat)
    ensures Xor(a, b) / 2 == Xor(a / 2, b / 2)
    ensures Xor(a, b) % 2 == if a % 2 == b % 2 then 0 else 1
  {
  }

  lemma {:induction false} XorAssoc(a: nat, b: nat, c: nat)
    ensures Xor(Xor(a, b), c) == Xor(a, Xor(b, c))
    decreases a + b + c
  {
    if a != 0 || b != 0 || c != 0 {
      XorAssoc(a / 2, b / 2, c / 2);
      XorAssocDigits(a, b, c);
      var x, y := Xor(Xor(a, b), c), Xor(a, Xor(b, c));
      assert x == 2 * (x / 2) + x % 2 && y == 2 * (y / 2) + y % 2;
    }
  }

  lemma XorAssocDigits(a: nat, b: nat, c: nat)
    ensures Xor(Xor(a, b), c) % 2 == Xor(a, Xor(b, c)) % 2
    ensures Xor(Xor(a, b), c) / 2 == Xor(Xor(a / 2, b / 2), c / 2)
    ensures Xor(a, Xor(b, c)) / 2 == Xor(a / 2, Xor(b / 2, c / 2))
  {
    var (x, y) := (Xor(a, b), Xor(b, c));
    XorDigits(a, b);
    XorDigits(b, c);
    XorDigits(x, c);
    XorDigits(a, y);
  }

  lemma {:induction false} XorSelf(a: nat)
    ensures Xor(a, a) == 0
  {
    if a != 0 {
      XorSelf(a / 2);
    }
  }

  lemma {:induction false} XorZero(a: nat)
    ensures Xor(a, 0) == a
  {
    if a != 0 {
      XorZero(a / 2);
    }
  }

  /** Xor with c undoes itself. */
  lemma XorTwice(a: nat, c: nat)
    ensures Xor(Xor(a, c), c) == a
  {
    XorAssoc(a, c, c);
    XorSelf(c);
    XorZero(a);
  }

  lemma XorSwap(a: nat, b: nat, c: nat)
    ensures Xor(Xor(a, b), c) == Xor(Xor(a, c), b)
  {
    XorAssoc(a, b, c);
    XorComm(b, c);
    XorAssoc(a, c, b);
  }

  lemma XorBoth(a: nat, b: nat, c: nat)
    ensures Xor(Xor(a, c), Xor(b, c)) == Xor(a, b)
  {
    XorComm(b, c);
    XorAssoc(Xor(a, c), c, b);
    XorTwice(a, c);
  }

  lemma XorIsZero(a: nat, b: nat)
    ensures Xor(a, b) == 0 <==> a == b
  {
    XorSelf(a);
    XorTwice(a, b);
    XorComm(0, b);
    XorZero(b);
  }

  // ----------------------------------------------------------------------------------- or

  function Or(a: nat, b: nat): nat {
    if a == 0 && b == 0 then 0 else 2 * Or(a / 2, b / 2) + (if a % 2 == 1 || b % 2 == 1 then 1 else 0)
  }

  lemma {:induction false} OrZero(b: nat)
    ensures Or(0, b) == b
  {
    if b != 0 {
      OrZero(b / 2);
    }
  }

  /** `|` of numbers of which one has no low digits. */
  lemma {:induction false} OrAbove(low: nat, a: nat, b: nat, k: nat)
    requires low < Pow2(k)
    ensures Or(low + Pow2(k) * a, Pow2(k) * b) == low + Pow2(k) * Or(a, b)
  {
    if k != 0 {
      var n := Pow2(k - 1);
      OrAbove(low / 2, a, b, k - 1);
      OrAboveStep(low, n, a, b);
    }
  }

  lemma OrAboveStep(low: nat, n: nat, a: nat, b: nat)
    requires Or(low / 2 + n * a, n * b) == low / 2 + n * Or(a, b)
    ensures Or(low + (2 * n) * a, (2 * n) * b) == low + (2 * n) * Or(a, b)
  {
    var x, y, o := n * a, n * b, Or(a, b);
    DoubleProduct(n, a);
    DoubleProduct(n, b);
    DoubleProduct(n, o);
    OrTwice(low / 2 + x, y, low % 2);
  }

  /** `|` of numbers without a common digit is their sum. */
  lemma OrDisjoint(low: nat, b: nat, k: nat)
    requires low < Pow2(k)
    ensures Or(low, Pow2(k) * b) == low + Pow2(k) * b
  {
    OrAbove(low, 0, b, k);
    OrZero(b);
  }

  lemma OrTwice(x: nat, y: nat, bit: nat)
    requires bit < 2
    ensures Or(2 * x + bit, 2 * y) == 2 * Or(x, y) + bit
  {
    if x == 0 && y == 0 && bit == 0 {
      assert Or(0, 0) == 0;
    }
  }

  lemma {:induction false} OrComm(a: nat, b: nat)
    ensures Or(a, b) == Or(b, a)
  {
    if a != 0 || b != 0 {
      OrComm(a / 2, b / 2);
    }
  }

  lemma OrLow(low: nat, high: nat, k: nat)
    requires low < Pow2(k)
    ensures Or(Pow2(k) * high, low) == Pow2(k) * high + low
  {
    var shifted := Pow2(k) * high;
    OrDisjoint(low, high, k);
    OrComm(low, shifted);
  }

  // ---------------------------------------------------------------------------------- and

  function And(a: nat, b: nat): nat {
    if a == 0 || b == 0 then 0 else 2 * And(a / 2, b / 2) + (if a % 2 == 1 && b % 2 == 1 then 1 else 0)
  }

  predicate IsPowerOfTwo(n: nat)
    requires 0 < n
  {
    n == 1 || (n % 2 == 0 && IsPowerOfTwo(n / 2))
  }

  lemma {:induction false} AndSelf(n: nat)
    ensures And(n, n) == n
  {
    if n != 0 {
      AndSelf(n / 2);
    }
  }

  /** The test 0 == (n & (n - 1)) finds exactly the powers of two. */
  lemma {:induction false} MaskTest(n: nat)
    requires 0 < n
    ensures And(n, n - 1) == 0 <==> IsPowerOfTwo(n)
  {
    if n % 2 == 1 {
      assert (n - 1) / 2 == n / 2;
      AndSelf(n / 2);
    } else {
      assert (n - 1) / 2 == n / 2 - 1 && (n - 1) % 2 == 1;
      MaskTest(n / 2);
    }
  }

  /** x & (n - 1) is the remainder by a power of two. */
  lemma {:induction false} Masked(x: nat, n: nat)
    requires 0 < n && IsPowerOfTwo(n)
    ensures And(x, n - 1) == x % n
  {
    if n != 1 {
      var m := n / 2;
      assert (n - 1) / 2 == m - 1 && (n - 1) % 2 == 1;
      Masked(x / 2, m);
      HalvedRemainder(x, m);
      if x == 0 {
        DivModIs(0, n, 0, 0);
      }
    }
  }

  lemma HalvedRemainder(x: nat, m: nat)
    requires 0 < m
    ensures x % (2 * m) == 2 * (x / 2 % m) + x % 2
  {
    var q := QuotientOf(x / 2, m);
    assert x == q * (2 * m) + (2 * (x / 2 % m) + x % 2);
    DivModIs(x, 2 * m, q, 2 * (x / 2 % m) + x % 2);
  }
}
