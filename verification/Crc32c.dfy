/** Extend of base/hash/crc32c.cc: CRC32C four bytes at a time.  A uint32 is a natural
    number below 2^32; xor is defined digit by digit, and shifts and masks by powers of
    two are division, remainder and doubling. */
module Crc32c {
  import opened Bytes
  import opened BinaryDigits

  // The Castagnoli polynomial of section 12.1 of RFC 3720, lowest power first.
  const POLY: uint32 := 0x82F63B78
  const ONES: uint32 := 0xffff_ffff

  // ------------------------------------------------------------------ laws of xor

  /** h with k zero digits put behind it. */
  function Up(k: nat, h: nat): (r: nat)
    ensures r >= h
  {
    if k == 0 then h else 2 * Up(k - 1, h)
  }

  lemma {:induction false} UpAdd(j: nat, k: nat, h: nat)
    ensures Up(j + k, h) == Up(j, Up(k, h))
  {
    if j != 0 {
      UpAdd(j - 1, k, h);
    }
  }

  lemma UpByte(h: nat)
    ensures Up(8, h) == 256 * h
  {
    UpAdd(4, 4, h);
    UpNibble(h);
    UpNibble(16 * h);
  }

  lemma UpNibble(h: nat)
    ensures Up(4, h) == 16 * h
  {
    assert Up(1, h) == 2 * h;
    assert Up(2, h) == 2 * Up(1, h);
    assert Up(3, h) == 2 * Up(2, h);
  }

  /** Numbers without a digit in common. */
  lemma {:induction false} XorDisjoint(k: nat, low: nat, h: nat)
    requires low < Up(k, 1)
    ensures Xor(low, Up(k, h)) == low + Up(k, h)
  {
    if k == 0 {
      XorZero(h);
      XorComm(0, h);
    } else {
      XorDigits(low, Up(k, h));
      XorDisjoint(k - 1, low / 2, h);
    }
  }

  lemma {:induction false} XorBelow(k: nat, a: nat, b: nat)
    requires a < Up(k, 1) && b < Up(k, 1)
    ensures Xor(a, b) < Up(k, 1)
  {
    if k != 0 {
      XorDigits(a, b);
      XorBelow(k - 1, a / 2, b / 2);
    }
  }

  /** A leading digit that only one of the two has stays. */
  lemma {:induction false} XorLeads(k: nat, a: nat, b: nat)
    requires a < Up(k, 1) <= b
    ensures Up(k, 1) <= Xor(a, b)
  {
    if k == 0 {
      XorComm(0, b);
      XorZero(b);
    } else {
      XorDigits(a, b);
      XorLeads(k - 1, a / 2, b / 2);
    }
  }

  lemma Powers()
    ensures Up(8, 1) == 0x100 && Up(16, 1) == 0x1_0000 && Up(24, 1) == 0x100_0000
    ensures Up(31, 1) == 0x8000_0000 && Up(32, 1) == 0x1_0000_0000
  {
    UpByte(1);
    UpAdd(8, 8, 1);
    UpByte(0x100);
    UpAdd(8, 16, 1);
    UpByte(0x1_0000);
    UpAdd(8, 24, 1);
    UpByte(0x100_0000);
    assert Up(32, 1) == 2 * Up(31, 1);
  }

  /** ^ on uint32 and on bytes. */
  function XorWord(a: uint32, b: uint32): (r: uint32)
    ensures r == Xor(a, b)
  {
    Powers();
    XorBelow(32, a, b);
    Xor(a, b)
  }

  function XorByte(a: byte, b: byte): (r: byte)
    ensures r == Xor(a, b)
  {
    Powers();
    XorBelow(8, a, b);
    Xor(a, b)
  }

  // ------------------------------------------------------------- the shift register

  /** One bit of the division by the polynomial. */
  function Bit(l: nat): nat { if l % 2 == 1 then Xor(l / 2, POLY) else l / 2 }

  function Bits(n: nat, l: nat): nat {
    if n == 0 then l else Bits(n - 1, Bit(l))
  }

  /** The register after s, one bit at a time. */
  function Crc(l: nat, s: seq<byte>): nat
    decreases s
  {
    if s == [] then l else Crc(Bits(8, Xor(l, s[0])), s[1..])
  }

  lemma BitOfXor(a: nat, b: nat)
    ensures Bit(Xor(a, b)) ==
      if a % 2 == b % 2 then Xor(a / 2, b / 2) else Xor(Xor(a / 2, b / 2), POLY)
  {
    XorDigits(a, b);
  }

  lemma BitLinear(a: nat, b: nat)
    ensures Bit(Xor(a, b)) == Xor(Bit(a), Bit(b))
  {
    BitOfXor(a, b);
    XorBoth(a / 2, b / 2, POLY);
    XorSwap(a / 2, b / 2, POLY);
    XorAssoc(a / 2, b / 2, POLY);
  }

  lemma {:induction false} BitsLinear(n: nat, a: nat, b: nat)
    ensures Bits(n, Xor(a, b)) == Xor(Bits(n, a), Bits(n, b))
  {
    if n != 0 {
      BitLinear(a, b);
      BitsLinear(n - 1, Bit(a), Bit(b));
    }
  }

  lemma {:induction false} BitsAdd(m: nat, n: nat, l: nat)
    ensures Bits(m + n, l) == Bits(n, Bits(m, l))
  {
    if m != 0 {
      BitsAdd(m - 1, n, Bit(l));
    }
  }

  /** Zero digits are only shifted out. */
  lemma {:induction false} ShiftOut(k: nat, n: nat, h: nat)
    ensures Bits(k + n, Up(k, h)) == Bits(n, h)
  {
    if k != 0 {
      assert Up(k, h) % 2 == 0 && Up(k, h) / 2 == Up(k - 1, h);
      ShiftOut(k - 1, n, h);
    }
  }

  lemma BitOfWord(l: uint32)
    ensures Bit(l) < 0x1_0000_0000 && (Bit(l) >= 0x8000_0000 <==> l % 2 == 1)
  {
    Powers();
    XorBelow(32, l / 2, POLY);
    XorLeads(31, l / 2, POLY);
  }

  /** POLY has the top digit, so the register can be run backwards. */
  lemma BitInjective(a: uint32, b: uint32)
    requires Bit(a) == Bit(b)
    ensures a == b
  {
    BitOfWord(a);
    BitOfWord(b);
    XorTwice(a / 2, POLY);
    XorTwice(b / 2, POLY);
  }

  lemma {:induction false} BitsOfWord(n: nat, l: uint32)
    ensures Bits(n, l) < 0x1_0000_0000
  {
    if n != 0 {
      BitOfWord(l);
      BitsOfWord(n - 1, Bit(l));
    }
  }

  lemma {:induction false} BitsInjective(n: nat, a: uint32, b: uint32)
    requires Bits(n, a) == Bits(n, b)
    ensures a == b
  {
    if n != 0 {
      BitOfWord(a);
      BitOfWord(b);
      BitsInjective(n - 1, Bit(a), Bit(b));
      BitInjective(a, b);
    }
  }

  // ------------------------------------------------------- the register as a division

  /** The bytes as one number, the first byte lowest. */
  function Number(s: seq<byte>): nat {
    if s == [] then 0 else s[0] + 256 * Number(s[1..])
  }

  lemma SplitSum(b: byte, h: nat)
    ensures b + 256 * h == Xor(b, Up(8, h))
  {
    Powers();
    UpByte(h);
    XorDisjoint(8, b, h);
  }

  lemma SplitByte(x: nat)
    ensures x == Xor(x % 256, Up(8, x / 256))
  {
    SplitSum(x % 256, x / 256);
  }

  lemma BitsOfSplit(n: nat, a: nat, h: nat)
    ensures Bits(8 + n, Xor(a, Up(8, h))) == Xor(Bits(8 + n, a), Bits(n, h))
  {
    BitsLinear(8 + n, a, Up(8, h));
    ShiftOut(8, n, h);
  }

  lemma ByteOfSplit(a: nat, h: nat)
    ensures Bits(8, Xor(a, Up(8, h))) == Xor(Bits(8, a), h)
  {
    BitsOfSplit(0, a, h);
    assert Bits(0, h) == h;
  }

  /** Eight steps of the first byte, then the others. */
  lemma FirstByte(l: nat, b: nat, rest: nat, n: nat)
    ensures Bits(8 + n, Xor(l, Xor(b, Up(8, rest)))) == Bits(n, Xor(Bits(8, Xor(l, b)), rest))
  {
    XorAssoc(l, b, Up(8, rest));
    ByteOfSplit(Xor(l, b), rest);
    BitsAdd(8, n, Xor(Xor(l, b), Up(8, rest)));
  }

  /** The register after s is s, as a number, xored with the start and shifted out whole. */
  lemma {:induction false} CrcIsShift(l: nat, s: seq<byte>)
    ensures Crc(l, s) == Bits(8 * |s|, Xor(l, Number(s)))
    decreases s
  {
    if s == [] {
      XorZero(l);
    } else {
      var (rest, n) := (Number(s[1..]), 8 * |s[1..]|);
      CrcIsShift(Bits(8, Xor(l, s[0])), s[1..]);
      NumberSplit(s);
      FirstByte(l, s[0], rest, n);
      assert Bits(8 * |s|, Xor(l, Number(s))) == Bits(8 + n, Xor(l, Xor(s[0], Up(8, rest))));
    }
  }

  lemma NumberSplit(s: seq<byte>)
    requires s != []
    ensures Number(s) == Xor(s[0], Up(8, Number(s[1..])))
  {
    SplitSum(s[0], Number(s[1..]));
  }

  lemma {:induction false} BitsOfZero(n: nat)
    ensures Bits(n, 0) == 0
  {
    if n != 0 {
      BitsOfZero(n - 1);
    }
  }

  lemma CollisionsShift(l: nat, s: seq<byte>, t: seq<byte>)
    requires |s| == |t|
    ensures Crc(l, s) == Crc(l, t) <==> Bits(8 * |s|, Xor(Number(s), Number(t))) == 0
  {
    var n := 8 * |s|;
    CrcIsShift(l, s);
    CrcIsShift(l, t);
    BitsLinear(n, Xor(l, Number(s)), Xor(l, Number(t)));
    XorComm(l, Number(s));
    XorComm(l, Number(t));
    XorBoth(Number(s), Number(t), l);
    XorIsZero(Crc(l, s), Crc(l, t));
  }

  /** Every error burst of at most 32 bits, at any bit position, changes the checksum. */
  lemma BurstDetected(l: nat, s: seq<byte>, t: seq<byte>, k: nat, e: uint32)
    requires |s| == |t| && k <= 8 * |s|
    requires e != 0 && Xor(Number(s), Number(t)) == Up(k, e)
    ensures Crc(l, s) != Crc(l, t)
  {
    var n := 8 * |s|;
    CollisionsShift(l, s, t);
    ShiftOut(k, n - k, e);
    BitsOfZero(n - k);
    if Bits(n - k, e) == 0 {
      BitsInjective(n - k, e, 0);
    }
  }

  // ---------------------------------------------------- the register as a remainder

  /** The product of polynomials over GF(2). */
  function Product(q: nat, p: nat): nat {
    if q == 0 then 0 else Xor(2 * Product(q / 2, p), Times(q % 2, p))
  }

  function Times(bit: nat, p: nat): nat {
    if bit == 1 then p else 0
  }

  // The divisor with its leading term, which stands lowest.
  const DIVISOR: nat := 2 * POLY + 1

  /** Twice a step is the dividend, less the divisor if its lowest term is there. */
  lemma TwiceBit(x: nat)
    ensures 2 * Bit(x) == Xor(x, Times(x % 2, DIVISOR))
  {
    XorDigits(x, DIVISOR);
    XorZero(x);
    var y := Xor(x, DIVISOR);
    assert y == 2 * (y / 2) + y % 2;
  }

  lemma XorTwofold(a: nat, b: nat)
    ensures Xor(2 * a, 2 * b) == 2 * Xor(a, b)
  {
    if a == 0 && b == 0 {
      assert Xor(0, 0) == 0;
    }
  }

  /** n steps divide by the polynomial: the dividend less a multiple of the divisor is what they
      leave, n places up.  The quotient has n digits. */
  lemma {:induction false} StepsDivide(n: nat, x: nat) returns (q: nat)
    ensures Xor(x, Product(q, DIVISOR)) == Up(n, Bits(n, x)) && q < Up(n, 1)
  {
    if n == 0 {
      q := 0;
      XorZero(x);
    } else {
      var q' := StepsDivide(n - 1, Bit(x));
      var low, p := x % 2, Product(q', DIVISOR);
      var d := Times(low, DIVISOR);
      q := 2 * q' + low;
      TwiceBit(x);
      XorTwofold(Bit(x), p);
      XorAssoc(x, d, 2 * p);
      XorComm(d, 2 * p);
      ProductOfDigits(q', low);
    }
  }

  lemma ProductOfDigits(q: nat, low: nat)
    requires low < 2
    ensures Product(2 * q + low, DIVISOR) == Xor(2 * Product(q, DIVISOR), Times(low, DIVISOR))
  {
    if q == 0 && low == 0 {
      XorZero(0);
    }
  }

  /** The checksum's register is the remainder of the message, with the start xored in, by the
      polynomial of section 12.1 of RFC 3720: what is left of it after a multiple of the divisor
      is taken away is a number of 32 digits behind the message's length of zeros. */
  lemma CrcIsRemainder(l: uint32, s: seq<byte>)
    ensures exists q :: Xor(Xor(l, Number(s)), Product(q, DIVISOR)) == Up(8 * |s|, Crc(l, s))
    ensures Crc(l, s) < 0x1_0000_0000
  {
    var q := StepsDivide(8 * |s|, Xor(l, Number(s)));
    CrcIsShift(l, s);
    CrcOfWord(l, s);
  }

  /** A step of a multiple of the divisor is a multiple with a digit less. */
  lemma BitOfProduct(q: nat)
    ensures Bit(Product(q, DIVISOR)) == Product(q / 2, DIVISOR)
  {
    assert DIVISOR % 2 == 1 && DIVISOR / 2 == POLY;
    BitOfProductBy(q, DIVISOR);
  }

  lemma BitOfProductBy(q: nat, divisor: nat)
    requires divisor % 2 == 1 && divisor / 2 == POLY
    ensures Bit(Product(q, divisor)) == Product(q / 2, divisor)
  {
    var d := Times(q % 2, divisor);
    BitOfSum(Product(q / 2, divisor), d, q % 2);
    if q == 0 {
      XorZero(0);
    }
  }

  lemma BitOfSum(p: nat, d: nat, low: nat)
    requires low < 2 && d % 2 == low && (if low == 1 then d / 2 == POLY else d == 0)
    ensures Bit(Xor(2 * p, d)) == p
  {
    if low == 1 {
      BitOfOdd(2 * p, d, p);
    } else {
      XorZero(2 * p);
    }
  }

  lemma BitOfOdd(x: nat, d: nat, p: nat)
    requires x == 2 * p && d % 2 == 1 && d / 2 == POLY
    ensures Bit(Xor(x, d)) == p
  {
    XorDigits(x, d);
    var y := Xor(x, d);
    assert y % 2 == 1 && y / 2 == Xor(p, d / 2);
    XorTwice(p, d / 2);
  }

  lemma {:induction false} BitsOfProduct(n: nat, q: nat)
    requires q < Up(n, 1)
    ensures Bits(n, Product(q, DIVISOR)) == 0
  {
    if n != 0 {
      BitOfProduct(q);
      BitsOfProduct(n - 1, q / 2);
    }
  }

  /** A multiple has 32 digits more than the quotient. */
  lemma {:induction false} ProductLeads(n: nat, q: nat)
    requires Up(n, 1) <= q
    ensures Up(n + 32, 1) <= Product(q, DIVISOR)
    decreases q, n
  {
    Powers();
    if n == 0 {
      if q == 1 {
        assert Product(1, DIVISOR) == Xor(2 * Product(0, DIVISOR), DIVISOR);
        XorComm(0, DIVISOR);
        XorZero(DIVISOR);
      } else {
        ProductLeads(0, q / 2);
        ProductGrows(0, q);
      }
    } else {
      ProductLeads(n - 1, q / 2);
      ProductGrows(n - 1, q);
    }
  }

  lemma ProductGrows(n: nat, q: nat)
    requires 2 <= q && Up(n + 32, 1) <= Product(q / 2, DIVISOR)
    ensures Up(n + 33, 1) <= Product(q, DIVISOR)
  {
    var p, d := 2 * Product(q / 2, DIVISOR), Times(q % 2, DIVISOR);
    Powers();
    UpAdd(n, 33, 1);
    assert Up(33, 1) == 2 * Up(32, 1) && d < Up(33, 1);
    assert Up(n + 33, 1) >= Up(33, 1);
    XorLeads(n + 33, d, p);
    XorComm(d, p);
  }

  /** Two messages of one length collide exactly when they differ by a multiple of the divisor. */
  lemma CollisionsAre(l: nat, s: seq<byte>, t: seq<byte>)
    requires |s| == |t|
    ensures Crc(l, s) == Crc(l, t) <==> exists q :: Xor(Number(s), Number(t)) == Product(q, DIVISOR)
  {
    var n, d := 8 * |s|, Xor(Number(s), Number(t));
    CollisionsShift(l, s, t);
    if Bits(n, d) == 0 {
      var q := StepsDivide(n, d);
      UpOfZero(n);
      XorIsZero(d, Product(q, DIVISOR));
    }
    if q :| d == Product(q, DIVISOR) {
      NumberBelow(s);
      NumberBelow(t);
      XorBelow(n, Number(s), Number(t));
      if Up(n, 1) <= q {
        ProductLeads(n, q);
        UpAdd(32, n, 1);
      }
      BitsOfProduct(n, q);
    }
  }

  lemma {:induction false} UpOfZero(n: nat)
    ensures Up(n, 0) == 0
  {
    if n != 0 {
      UpOfZero(n - 1);
    }
  }

  lemma {:induction false} NumberBelow(s: seq<byte>)
    ensures Number(s) < Up(8 * |s|, 1)
  {
    if s != [] {
      var n := 8 * |s[1..]|;
      NumberBelow(s[1..]);
      UpAdd(8, n, 1);
      UpByte(Up(n, 1));
      assert 8 * |s| == 8 + n;
    }
  }

  lemma {:induction false} CrcConcat(l: nat, a: seq<byte>, b: seq<byte>)
    ensures Crc(l, a + b) == Crc(Crc(l, a), b)
    decreases a
  {
    if a == [] {
      assert a + b == b;
    } else {
      assert (a + b)[1..] == a[1..] + b;
      CrcConcat(Bits(8, Xor(l, a[0])), a[1..], b);
    }
  }

  lemma {:induction false} CrcOfWord(l: uint32, s: seq<byte>)
    ensures Crc(l, s) < 0x1_0000_0000
    decreases s
  {
    if s != [] {
      var x := XorWord(l, s[0]);
      BitsOfWord(8, x);
      CrcOfWord(Bits(8, x), s[1..]);
    }
  }

  // ------------------------------------------------------------------- the tables

  /** table0_ to table3_: entry c of table k is c shifted through k + 1 bytes. */
  function Table(k: nat, c: byte): uint32 {
    BitsOfWord(8 * (k + 1), c);
    Bits(8 * (k + 1), c)
  }

  /** STEP1 */
  function Step1(l: uint32, b: byte): uint32 {
    var c := XorByte(l % 256, b);
    XorWord(Table(0, c), l / 256)
  }

  /** LE_LOAD32 */
  function Load(s: seq<byte>): uint32
    requires |s| == 4
  {
    s[0] as int + 0x100 * (s[1] as int) + 0x1_0000 * (s[2] as int) + 0x100_0000 * (s[3] as int)
  }

  /** STEP4 */
  function Step4(l: uint32, s: seq<byte>): uint32
    requires |s| == 4
  {
    var c := XorWord(l, Load(s));
    XorWord(XorWord(XorWord(Table(3, c % 256), Table(2, c / 0x100 % 256)), Table(1, c / 0x1_0000 % 256)),
            Table(0, c / 0x100_0000))
  }

  /** One table look-up is eight steps of the register. */
  lemma Step1IsByte(l: uint32, b: byte)
    ensures Step1(l, b) == Bits(8, Xor(l, b))
  {
    var (low, h) := (l % 256, l / 256);
    SplitByte(l);
    XorSwap(low, Up(8, h), b);
    ByteOfSplit(Xor(low, b), h);
  }

  lemma BitsByByte(n: nat, x: nat)
    ensures Bits(8 + n, x) == Xor(Bits(8 + n, x % 256), Bits(n, x / 256))
  {
    SplitByte(x);
    BitsOfSplit(n, x % 256, x / 256);
  }

  lemma Regroup(a: nat, b: nat, c: nat, d: nat)
    ensures Xor(a, Xor(b, Xor(c, d))) == Xor(Xor(Xor(a, b), c), d)
  {
    XorAssoc(a, b, Xor(c, d));
    XorAssoc(Xor(a, b), c, d);
  }

  lemma BytesOfWord(c: uint32)
    ensures c / 0x100 / 256 == c / 0x1_0000 && c / 0x1_0000 / 256 == c / 0x100_0000 < 256
  {
  }

  /** Four look-ups in the four tables are thirty-two steps of the register. */
  lemma TablesAreBits(c: uint32)
    ensures
      Bits(32, c) ==
      Xor(Xor(Xor(Table(3, c % 256), Table(2, c / 0x100 % 256)), Table(1, c / 0x1_0000 % 256)), Table(0, c / 0x100_0000))
  {
    var (x, y, z) := (c / 0x100, c / 0x1_0000, c / 0x100_0000);
    BytesOfWord(c);
    BitsByByte(24, c);
    BitsByByte(16, x);
    BitsByByte(8, y);
    Regroup(Bits(32, c % 256), Bits(24, x % 256), Bits(16, y % 256), Bits(8, z));
  }

  lemma LoadIsNumber(s: seq<byte>)
    requires |s| == 4
    ensures Load(s) == Number(s)
  {
    assert s[1..][1..] == s[2..] && s[2..][1..] == s[3..] && s[3..][1..] == [];
    assert Number(s[3..]) == s[3];
    assert Number(s[2..]) == s[2] + 256 * Number(s[3..]);
    assert Number(s[1..]) == s[1] + 256 * Number(s[2..]);
  }

  /** STEP4 is four bytes of the register: four STEP1s. */
  lemma Step4IsFourBytes(l: uint32, s: seq<byte>)
    requires |s| == 4
    ensures Step4(l, s) == Crc(l, s)
  {
    LoadIsNumber(s);
    CrcIsShift(l, s);
    TablesAreBits(XorWord(l, Load(s)));
  }

  // ---------------------------------------------------------------------- Extend

  /** The checksum of a string after crc, as section 12.1 of RFC 3720 defines it. */
  function Checksum(crc: uint32, s: seq<byte>): uint32 {
    var l := XorWord(crc, ONES);
    CrcOfWord(l, s);
    XorWord(Crc(l, s), ONES)
  }

  /** The checksum of a concatenation continues the checksum of its first part. */
  lemma ChecksumConcat(crc: uint32, a: seq<byte>, b: seq<byte>)
    ensures Checksum(crc, a + b) == Checksum(Checksum(crc, a), b)
  {
    var l := XorWord(crc, ONES);
    CrcConcat(l, a, b);
    XorTwice(Crc(l, a), ONES);
  }

  /** l has taken in the bytes of buf before p. */
  ghost predicate Taken(l: uint32, start: uint32, buf: seq<byte>, p: nat) {
    p <= |buf| && l == Crc(start, buf[..p])
  }

  lemma TakeMore(l: uint32, start: uint32, buf: seq<byte>, p: nat, q: nat)
    requires p <= q <= |buf| && Taken(l, start, buf, p)
    ensures Crc(start, buf[..q]) == Crc(l, buf[p..q])
  {
    CrcConcat(start, buf[..p], buf[p..q]);
    assert buf[..p] + buf[p..q] == buf[..q];
  }

  /** One byte: l is the register, p the position. */
  method TakeByte(l: uint32, ghost start: uint32, buf: seq<byte>, p: nat) returns (l': uint32)
    requires p < |buf| && Taken(l, start, buf, p)
    ensures Taken(l', start, buf, p + 1)
  {
    l' := Step1(l, buf[p]);
    Step1IsByte(l, buf[p]);
    TakeMore(l, start, buf, p, p + 1);
    assert buf[p..p + 1] == [buf[p]] && buf[p..p + 1][1..] == [];
  }

  /** Four bytes. */
  method TakeFour(l: uint32, ghost start: uint32, buf: seq<byte>, p: nat) returns (l': uint32)
    requires p + 4 <= |buf| && Taken(l, start, buf, p)
    ensures Taken(l', start, buf, p + 4)
  {
    l' := Step4(l, buf[p..p + 4]);
    Step4IsFourBytes(l, buf[p..p + 4]);
    TakeMore(l, start, buf, p, p + 4);
  }

  /** Extend, for a buffer at any address: bytes up to a multiple of 4, then 16 and 4 at
      a time, then the last ones. */
  method Extend(crc: uint32, buf: seq<byte>, address: nat) returns (r: uint32)
    ensures r == Checksum(crc, buf)
  {
    var l := XorWord(crc, ONES);
    ghost var start := l;
    var p, e := 0, |buf|;
    var x := (address + 3) / 4 * 4 - address;
    assert buf[..0] == [];
    if x <= e {
      while p != x
        invariant 0 <= p <= x && Taken(l, start, buf, p)
      {
        l := TakeByte(l, start, buf, p);
        p := p + 1;
      }
    }
    while e - p >= 16
      invariant 0 <= p <= e && Taken(l, start, buf, p)
    {
      l := TakeFour(l, start, buf, p);
      l := TakeFour(l, start, buf, p + 4);
      l := TakeFour(l, start, buf, p + 8);
      l := TakeFour(l, start, buf, p + 12);
      p := p + 16;
    }
    while e - p >= 4
      invariant 0 <= p <= e && Taken(l, start, buf, p)
    {
      l := TakeFour(l, start, buf, p);
      p := p + 4;
    }
    while p != e
      invariant 0 <= p <= e && Taken(l, start, buf, p)
    {
      l := TakeByte(l, start, buf, p);
      p := p + 1;
    }
    assert buf[..e] == buf;
    r := XorWord(l, ONES);
  }
}
