/** The checksums of section B.4 of RFC 3720, and the polynomial of section 12.1 term by term.  The
    register is worked out on 32-bit words, whose steps are those of Crc32c on natural numbers. */
module Crc32cVectors {
  import opened Bytes
  import opened Arithmetic
  import opened BinaryDigits
  import opened Crc32c

  // -------------------------------------------------------------- words as numbers

  function Low(l: bv32): nat { if l & 1 == 1 then 1 else 0 }

  function Nat(l: bv32): nat {
    if l == 0 then 0 else 2 * Nat(l >> 1) + Low(l)
  }

  lemma HalfOfXor(a: bv32, b: bv32)
    ensures (a ^ b) >> 1 == (a >> 1) ^ (b >> 1)
  {
  }

  lemma LowOfXor(a: bv32, b: bv32)
    ensures Low(a ^ b) == if Low(a) == Low(b) then 0 else 1
  {
    LowDigit(a);
    LowDigit(b);
    XorOfDigits(a & 1, b & 1);
    assert (a ^ b) & 1 == (a & 1) ^ (b & 1);
  }

  lemma LowDigit(a: bv32)
    ensures a & 1 == 0 || a & 1 == 1
  {
  }

  lemma XorOfDigits(x: bv32, y: bv32)
    requires (x == 0 || x == 1) && (y == 0 || y == 1)
    ensures x ^ y == if x == y then 0 else 1
  {
  }

  // Look is true; a proof says Look(0) where it needs what is under it.
  predicate Look(u: int) { true }

  ghost predicate IsNumber(w: bv32, n: nat) {
    forall u {:trigger Look(u)} :: Look(u) ==> Nat(w) == n
  }

  ghost predicate IsXor(a: bv32, b: bv32) {
    forall u {:trigger Look(u)} :: Look(u) ==> Nat(a ^ b) == Xor(Nat(a), Nat(b))
  }

  lemma {:induction false} NatOfXor(a: bv32, b: bv32)
    ensures IsXor(a, b)
    decreases a, b
  {
    if a != 0 || b != 0 {
      var a', b' := a >> 1, b >> 1;
      Smaller(a, b);
      NatOfXor(a', b');
      OneDigitMore(a, b);
    }
  }

  lemma Smaller(a: bv32, b: bv32)
    requires a != 0 || b != 0
    ensures a >> 1 < a || (a >> 1 == a && b >> 1 < b)
  {
  }

  lemma OneDigitMore(a: bv32, b: bv32)
    requires IsXor(a >> 1, b >> 1)
    ensures IsXor(a, b)
  {
    var x := Numbered(a >> 1);
    var y := Numbered(b >> 1);
    XorNumbered(a >> 1, b >> 1, x, y);
    Lengthened(a, a >> 1, x);
    Lengthened(b, b >> 1, y);
    XorLengthened(a, b, x, y);
    NumberedXor(a, b, 2 * x + Low(a), 2 * y + Low(b));
  }

  lemma XorLengthened(a: bv32, b: bv32, x: nat, y: nat)
    requires IsNumber((a >> 1) ^ (b >> 1), Xor(x, y))
    ensures IsNumber(a ^ b, Xor(2 * x + Low(a), 2 * y + Low(b)))
  {
    HalfOfXor(a, b);
    Lengthened(a ^ b, (a >> 1) ^ (b >> 1), Xor(x, y));
    LowOfXor(a, b);
    XorStep(x, Low(a), y, Low(b));
  }

  lemma Numbered(w: bv32) returns (n: nat)
    ensures IsNumber(w, n)
  {
    n := Nat(w);
  }

  lemma XorNumbered(a: bv32, b: bv32, x: nat, y: nat)
    requires IsNumber(a, x) && IsNumber(b, y) && IsXor(a, b)
    ensures IsNumber(a ^ b, Xor(x, y))
  {
    assert Look(0);
  }

  lemma NumberedXor(a: bv32, b: bv32, x: nat, y: nat)
    requires IsNumber(a, x) && IsNumber(b, y) && IsNumber(a ^ b, Xor(x, y))
    ensures IsXor(a, b)
  {
    assert Look(0);
  }

  lemma Lengthened(l: bv32, h: bv32, x: nat)
    requires h == l >> 1 && IsNumber(h, x)
    ensures IsNumber(l, 2 * x + Low(l))
  {
    assert Look(0);
    UnfoldTo(l, h);
  }

  lemma XorStep(x: nat, i: nat, y: nat, j: nat)
    requires i < 2 && j < 2
    ensures Xor(2 * x + i, 2 * y + j) == 2 * Xor(x, y) + if i == j then 0 else 1
  {
    XorDigits(2 * x + i, 2 * y + j);
  }

  lemma UnfoldTo(l: bv32, h: bv32)
    requires h == l >> 1
    ensures Nat(l) == 2 * Nat(h) + Low(l)
  {
  }

  /** The last four digits of a word. */
  lemma FourDigits(l: bv32, l1: bv32, l2: bv32, l3: bv32, l4: bv32)
    requires l1 == l >> 1 && l2 == l1 >> 1 && l3 == l2 >> 1 && l4 == l3 >> 1
    ensures Nat(l) == 16 * Nat(l4) + 8 * Low(l3) + 4 * Low(l2) + 2 * Low(l1) + Low(l)
  {
    UnfoldTo(l, l1);
    UnfoldTo(l1, l2);
    UnfoldTo(l2, l3);
    UnfoldTo(l3, l4);
  }

  // ------------------------------------------------------------------------- the register

  function Shift(l: bv32): bv32 {
    if l & 1 == 1 then (l >> 1) ^ 0x82F6_3B78 else l >> 1
  }

  function Shift4(l: bv32): bv32 { Shift(Shift(Shift(Shift(l)))) }

  function Shift16(l: bv32): bv32 { Shift4(Shift4(Shift4(Shift4(l)))) }

  lemma PolynomialIs()
    ensures Nat(0x82F6_3B78) == POLY
  {
    FourDigits(0x82f6_3b78, 0x417b_1dbc, 0x20bd_8ede, 0x105e_c76f, 0x82f_63b7);
    FourDigits(0x82f_63b7, 0x417_b1db, 0x20b_d8ed, 0x105_ec76, 0x82_f63b);
    FourDigits(0x82_f63b, 0x41_7b1d, 0x20_bd8e, 0x10_5ec7, 0x8_2f63);
    FourDigits(0x8_2f63, 0x4_17b1, 0x2_0bd8, 0x1_05ec, 0x82f6);
    FourDigits(0x82f6, 0x417b, 0x20bd, 0x105e, 0x82f);
    FourDigits(0x82f, 0x417, 0x20b, 0x105, 0x82);
    FourDigits(0x82, 0x41, 0x20, 0x10, 0x8);
    FourDigits(0x8, 0x4, 0x2, 0x1, 0x0);
  }

  lemma OnesAre()
    ensures Nat(0xffff_ffff) == ONES
  {
    FourDigits(0xffff_ffff, 0x7fff_ffff, 0x3fff_ffff, 0x1fff_ffff, 0xfff_ffff);
    FourDigits(0xfff_ffff, 0x7ff_ffff, 0x3ff_ffff, 0x1ff_ffff, 0xff_ffff);
    FourDigits(0xff_ffff, 0x7f_ffff, 0x3f_ffff, 0x1f_ffff, 0xf_ffff);
    FourDigits(0xf_ffff, 0x7_ffff, 0x3_ffff, 0x1_ffff, 0xffff);
    FourDigits(0xffff, 0x7fff, 0x3fff, 0x1fff, 0xfff);
    FourDigits(0xfff, 0x7ff, 0x3ff, 0x1ff, 0xff);
    FourDigits(0xff, 0x7f, 0x3f, 0x1f, 0xf);
    FourDigits(0xf, 0x7, 0x3, 0x1, 0x0);
  }

  lemma BitIsShift(l: bv32)
    ensures Bit(Nat(l)) == Nat(Shift(l))
  {
    var h := l >> 1;
    UnfoldTo(l, h);
    PolynomialIs();
    NatOfXor(h, 0x82F6_3B78);
    assert Look(0);
    LowDigit(l);
    BitOf(Nat(l), Nat(h), Low(l));
  }

  lemma BitOf(n: nat, h: nat, i: nat)
    requires i < 2 && n == 2 * h + i
    ensures Bit(n) == if i == 1 then Xor(h, POLY) else h
  {
  }

  lemma BitsAreShift4(l: bv32)
    ensures Bits(4, Nat(l)) == Nat(Shift4(l))
  {
    var a, b, c := Shift(l), Shift(Shift(l)), Shift(Shift(Shift(l)));
    BitIsShift(l);
    BitIsShift(a);
    BitIsShift(b);
    BitIsShift(c);
    FourSteps(Nat(l), Nat(a), Nat(b), Nat(c));
  }

  lemma FourSteps(l: nat, a: nat, b: nat, c: nat)
    requires Bit(l) == a && Bit(a) == b && Bit(b) == c
    ensures Bits(4, l) == Bit(c)
  {
    assert Bits(1, c) == Bits(0, Bit(c));
    assert Bits(2, b) == Bits(1, Bit(b));
    assert Bits(3, a) == Bits(2, Bit(a));
  }

  lemma BitsAreShift16(l: bv32)
    ensures Bits(16, Nat(l)) == Nat(Shift16(l))
  {
    var a, b, c := Shift4(l), Shift4(Shift4(l)), Shift4(Shift4(Shift4(l)));
    BitsAreShift4(l);
    BitsAreShift4(a);
    BitsAreShift4(b);
    BitsAreShift4(c);
    BitsAdd(4, 4, Nat(l));
    BitsAdd(4, 8, Nat(l));
    BitsAdd(4, 12, Nat(l));
    BitsAdd(4, 4, Nat(a));
    BitsAdd(4, 8, Nat(a));
    BitsAdd(4, 4, Nat(b));
  }

  lemma BitsAreShift32(l: bv32)
    ensures Bits(32, Nat(l)) == Nat(Shift16(Shift16(l)))
  {
    BitsAreShift16(l);
    BitsAreShift16(Shift16(l));
    BitsAdd(16, 16, Nat(l));
  }


  /** The register is x before byte i. */
  ghost predicate IsAt(s: seq<byte>, i: nat, x: bv32) {
    i <= |s| && forall u {:trigger Look(u)} :: Look(u) ==> Crc(ONES, s[..i]) == Nat(x)
  }

  /** 32 steps on x with w xored in. */
  ghost predicate IsNext(x: bv32, w: bv32, y: bv32) {
    forall u {:trigger Look(u)} :: Look(u) ==> y == Shift16(Shift16(x ^ w))
  }

  lemma Start(s: seq<byte>)
    ensures IsAt(s, 0, 0xffff_ffff)
  {
    OnesAre();
  }

  function Joined(a: nat, b: nat, c: nat, d: nat): nat {
    a + 256 * (b + 256 * (c + 256 * d))
  }

  ghost predicate HasWord(s: seq<byte>, i: nat, n: nat) {
    i + 4 <= |s| && forall u {:trigger Look(u)} :: Look(u) ==> n == Joined(s[i], s[i + 1], s[i + 2], s[i + 3])
  }

  /** Four bytes of a message, as the word w, take the register from x to y. */
  lemma FourBytes(s: seq<byte>, i: nat, x: bv32, w: bv32, n: nat, y: bv32)
    requires i + 4 <= |s| && IsAt(s, i, x) && IsNumber(w, n) && IsNext(x, w, y)
    requires HasWord(s, i, n)
    ensures IsAt(s, i + 4, y)
  {
    WordNext(x, w, y);
    assert Look(0);
    BytesNext(s, i, Nat(x), Nat(w), Nat(y));
  }

  lemma WordNext(x: bv32, w: bv32, y: bv32)
    requires IsNext(x, w, y)
    ensures Bits(32, Xor(Nat(x), Nat(w))) == Nat(y)
  {
    assert Look(0);
    NatOfXor(x, w);
    BitsAreShift32(x ^ w);
  }

  lemma BytesNext(s: seq<byte>, i: nat, x: nat, w: nat, y: nat)
    requires i + 4 <= |s| && Crc(ONES, s[..i]) == x && w == Joined(s[i], s[i + 1], s[i + 2], s[i + 3])
    requires Bits(32, Xor(x, w)) == y
    ensures Crc(ONES, s[..i + 4]) == y
  {
    var t := s[i..i + 4];
    assert s[..i + 4] == s[..i] + t;
    CrcConcat(ONES, s[..i], t);
    NumberOfFour(t);
    CrcIsShift(x, t);
  }

  lemma NumberOfFour(t: seq<byte>)
    requires |t| == 4
    ensures Number(t) == Joined(t[0], t[1], t[2], t[3])
  {
    assert t[1..][1..] == t[2..] && t[2..][1..] == t[3..] && t[3..][1..] == [];
    assert Number(t[3..]) == t[3];
    assert Number(t[2..]) == t[2] + 256 * Number(t[3..]);
  }

  lemma Finish(s: seq<byte>, x: bv32, y: bv32, n: nat)
    requires IsAt(s, |s|, x) && y == x ^ 0xffff_ffff && IsNumber(y, n)
    ensures Checksum(0, s) == n
  {
    assert Look(0);
    assert s[..|s|] == s;
    OnesAre();
    NatOfXor(x, 0xffff_ffff);
    ChecksumIs(s, Nat(x), n);
  }

  lemma ChecksumIs(s: seq<byte>, x: nat, n: nat)
    requires Crc(ONES, s) == x && n == Xor(x, ONES)
    ensures Checksum(0, s) == n
  {
    XorComm(0, ONES);
    XorZero(ONES);
  }

  // ------------------------------------------------------------------------- the vectors

  lemma ZeroIsZero()
    ensures IsNumber(0, 0)
  {
  }

  lemma OnesAreOnes()
    ensures IsNumber(0xffff_ffff, 0xffff_ffff)
  {
    OnesAre();
  }

  lemma ZerosNext0()
    ensures IsNext(0xffff_ffff, 0x0, 0xb798_b438)
    ensures IsNext(0xb798_b438, 0x0, 0x73d7_4d75)
  {
  }

  lemma ZerosNext1()
    ensures IsNext(0x73d7_4d75, 0x0, 0xd49f_4aa2)
    ensures IsNext(0xd49f_4aa2, 0x0, 0xbd8f_6515)
  {
  }

  lemma ZerosNext2()
    ensures IsNext(0xbd8f_6515, 0x0, 0x433a_a9c1)
    ensures IsNext(0x433a_a9c1, 0x0, 0x7b04_1311)
  {
  }

  lemma ZerosNext3()
    ensures IsNext(0x7b04_1311, 0x0, 0x836_3896)
    ensures IsNext(0x836_3896, 0x0, 0x756e_c955)
  {
  }

  lemma ZerosAt(s: seq<byte>, i: nat)
    requires |s| == 32 && i + 4 <= 32 && forall i :: 0 <= i < 32 ==> s[i] == 0
    ensures HasWord(s, i, 0)
  {
  }

  lemma ZerosSum()
    ensures IsNumber(0x8a91_36aa, 0x8a91_36aa)
  {
    FourDigits(0x8a91_36aa, 0x4548_9b55, 0x22a4_4daa, 0x1152_26d5, 0x8a9_136a);
    FourDigits(0x8a9_136a, 0x454_89b5, 0x22a_44da, 0x115_226d, 0x8a_9136);
    FourDigits(0x8a_9136, 0x45_489b, 0x22_a44d, 0x11_5226, 0x8_a913);
    FourDigits(0x8_a913, 0x4_5489, 0x2_2a44, 0x1_1522, 0x8a91);
    FourDigits(0x8a91, 0x4548, 0x22a4, 0x1152, 0x8a9);
    FourDigits(0x8a9, 0x454, 0x22a, 0x115, 0x8a);
    FourDigits(0x8a, 0x45, 0x22, 0x11, 0x8);
    FourDigits(0x8, 0x4, 0x2, 0x1, 0x0);
  }

  lemma ZerosTo8(s: seq<byte>)
    requires |s| == 32 && forall i :: 0 <= i < 32 ==> s[i] == 0
    ensures IsAt(s, 8, 0x73d7_4d75)
  {
    Start(s);
    ZerosNext0();
    ZeroIsZero();
    ZerosAt(s, 0);
    FourBytes(s, 0, 0xffff_ffff, 0x0, 0x0, 0xb798_b438);
    ZerosAt(s, 4);
    FourBytes(s, 4, 0xb798_b438, 0x0, 0x0, 0x73d7_4d75);
  }

  lemma ZerosTo16(s: seq<byte>)
    requires |s| == 32 && forall i :: 0 <= i < 32 ==> s[i] == 0
    ensures IsAt(s, 16, 0xbd8f_6515)
  {
    ZerosTo8(s);
    ZerosNext1();
    ZeroIsZero();
    ZerosAt(s, 8);
    FourBytes(s, 8, 0x73d7_4d75, 0x0, 0x0, 0xd49f_4aa2);
    ZerosAt(s, 12);
    FourBytes(s, 12, 0xd49f_4aa2, 0x0, 0x0, 0xbd8f_6515);
  }

  lemma ZerosTo24(s: seq<byte>)
    requires |s| == 32 && forall i :: 0 <= i < 32 ==> s[i] == 0
    ensures IsAt(s, 24, 0x7b04_1311)
  {
    ZerosTo16(s);
    ZerosNext2();
    ZeroIsZero();
    ZerosAt(s, 16);
    FourBytes(s, 16, 0xbd8f_6515, 0x0, 0x0, 0x433a_a9c1);
    ZerosAt(s, 20);
    FourBytes(s, 20, 0x433a_a9c1, 0x0, 0x0, 0x7b04_1311);
  }

  lemma ZerosTo32(s: seq<byte>)
    requires |s| == 32 && forall i :: 0 <= i < 32 ==> s[i] == 0
    ensures IsAt(s, 32, 0x756e_c955)
  {
    ZerosTo24(s);
    ZerosNext3();
    ZeroIsZero();
    ZerosAt(s, 24);
    FourBytes(s, 24, 0x7b04_1311, 0x0, 0x0, 0x836_3896);
    ZerosAt(s, 28);
    FourBytes(s, 28, 0x836_3896, 0x0, 0x0, 0x756e_c955);
  }

  /** 32 bytes of zeros. */
  lemma ZerosVector(s: seq<byte>)
    requires |s| == 32 && forall i :: 0 <= i < 32 ==> s[i] == 0
    ensures Checksum(0, s) == 0x8a91_36aa
  {
    ZerosTo32(s);
    ZerosSum();
    Finish(s, 0x756e_c955, 0x8a91_36aa, 0x8a91_36aa);
  }

  lemma OnesNext0()
    ensures IsNext(0xffff_ffff, 0xffff_ffff, 0x0)
    ensures IsNext(0x0, 0xffff_ffff, 0xb798_b438)
  {
  }

  lemma OnesNext1()
    ensures IsNext(0xb798_b438, 0xffff_ffff, 0xc44f_f94d)
    ensures IsNext(0xc44f_f94d, 0xffff_ffff, 0x10d0_b3ef)
  {
  }

  lemma OnesNext2()
    ensures IsNext(0x10d0_b3ef, 0xffff_ffff, 0xad5f_d6fa)
    ensures IsNext(0xad5f_d6fa, 0xffff_ffff, 0xee65_7f3b)
  {
  }

  lemma OnesNext3()
    ensures IsNext(0xee65_7f3b, 0xffff_ffff, 0x9561_6c2a)
    ensures IsNext(0x9561_6c2a, 0xffff_ffff, 0x9d57_54bc)
  {
  }

  lemma OnesAt(s: seq<byte>, i: nat)
    requires |s| == 32 && i + 4 <= 32 && forall i :: 0 <= i < 32 ==> s[i] == 255
    ensures HasWord(s, i, 0xffff_ffff)
  {
  }

  lemma OnesSum()
    ensures IsNumber(0x62a8_ab43, 0x62a8_ab43)
  {
    FourDigits(0x62a8_ab43, 0x3154_55a1, 0x18aa_2ad0, 0xc55_1568, 0x62a_8ab4);
    FourDigits(0x62a_8ab4, 0x315_455a, 0x18a_a2ad, 0xc5_5156, 0x62_a8ab);
    FourDigits(0x62_a8ab, 0x31_5455, 0x18_aa2a, 0xc_5515, 0x6_2a8a);
    FourDigits(0x6_2a8a, 0x3_1545, 0x1_8aa2, 0xc551, 0x62a8);
    FourDigits(0x62a8, 0x3154, 0x18aa, 0xc55, 0x62a);
    FourDigits(0x62a, 0x315, 0x18a, 0xc5, 0x62);
    FourDigits(0x62, 0x31, 0x18, 0xc, 0x6);
    FourDigits(0x6, 0x3, 0x1, 0x0, 0x0);
  }

  lemma OnesTo8(s: seq<byte>)
    requires |s| == 32 && forall i :: 0 <= i < 32 ==> s[i] == 255
    ensures IsAt(s, 8, 0xb798_b438)
  {
    Start(s);
    OnesNext0();
    OnesAreOnes();
    OnesAt(s, 0);
    FourBytes(s, 0, 0xffff_ffff, 0xffff_ffff, 0xffff_ffff, 0x0);
    OnesAt(s, 4);
    FourBytes(s, 4, 0x0, 0xffff_ffff, 0xffff_ffff, 0xb798_b438);
  }

  lemma OnesTo16(s: seq<byte>)
    requires |s| == 32 && forall i :: 0 <= i < 32 ==> s[i] == 255
    ensures IsAt(s, 16, 0x10d0_b3ef)
  {
    OnesTo8(s);
    OnesNext1();
    OnesAreOnes();
    OnesAt(s, 8);
    FourBytes(s, 8, 0xb798_b438, 0xffff_ffff, 0xffff_ffff, 0xc44f_f94d);
    OnesAt(s, 12);
    FourBytes(s, 12, 0xc44f_f94d, 0xffff_ffff, 0xffff_ffff, 0x10d0_b3ef);
  }

  lemma OnesTo24(s: seq<byte>)
    requires |s| == 32 && forall i :: 0 <= i < 32 ==> s[i] == 255
    ensures IsAt(s, 24, 0xee65_7f3b)
  {
    OnesTo16(s);
    OnesNext2();
    OnesAreOnes();
    OnesAt(s, 16);
    FourBytes(s, 16, 0x10d0_b3ef, 0xffff_ffff, 0xffff_ffff, 0xad5f_d6fa);
    OnesAt(s, 20);
    FourBytes(s, 20, 0xad5f_d6fa, 0xffff_ffff, 0xffff_ffff, 0xee65_7f3b);
  }

  lemma OnesTo32(s: seq<byte>)
    requires |s| == 32 && forall i :: 0 <= i < 32 ==> s[i] == 255
    ensures IsAt(s, 32, 0x9d57_54bc)
  {
    OnesTo24(s);
    OnesNext3();
    OnesAreOnes();
    OnesAt(s, 24);
    FourBytes(s, 24, 0xee65_7f3b, 0xffff_ffff, 0xffff_ffff, 0x9561_6c2a);
    OnesAt(s, 28);
    FourBytes(s, 28, 0x9561_6c2a, 0xffff_ffff, 0xffff_ffff, 0x9d57_54bc);
  }

  /** 32 bytes of ones. */
  lemma OnesVector(s: seq<byte>)
    requires |s| == 32 && forall i :: 0 <= i < 32 ==> s[i] == 255
    ensures Checksum(0, s) == 0x62a8_ab43
  {
    OnesTo32(s);
    OnesSum();
    Finish(s, 0x9d57_54bc, 0x62a8_ab43, 0x62a8_ab43);
  }

  lemma AscendingNext0()
    ensures IsNext(0xffff_ffff, 0x302_0100, 0x26cc_e55c)
    ensures IsNext(0x26cc_e55c, 0x706_0504, 0x75d3_43c4)
  {
  }

  lemma AscendingNext1()
    ensures IsNext(0x75d3_43c4, 0xb0a_0908, 0xac7c_5545)
    ensures IsNext(0xac7c_5545, 0xf0e_0d0c, 0x2636_f714)
  {
  }

  lemma AscendingNext2()
    ensures IsNext(0x2636_f714, 0x1312_1110, 0x3386_1419)
    ensures IsNext(0x3386_1419, 0x1716_1514, 0xd643_786a)
  {
  }

  lemma AscendingNext3()
    ensures IsNext(0xd643_786a, 0x1b1a_1918, 0x9b21_363e)
    ensures IsNext(0x9b21_363e, 0x1f1e_1d1c, 0xb922_86b1)
  {
  }

  lemma AscendingAt(s: seq<byte>, i: nat)
    requires |s| == 32 && i + 4 <= 32 && forall i :: 0 <= i < 32 ==> s[i] == i
    ensures HasWord(s, i, i + 256 * (i + 1 + 256 * (i + 2 + 256 * (i + 3))))
  {
  }

  lemma AscendingWord0()
    ensures IsNumber(0x302_0100, 0x302_0100)
  {
    FourDigits(0x302_0100, 0x181_0080, 0xc0_8040, 0x60_4020, 0x30_2010);
    FourDigits(0x30_2010, 0x18_1008, 0xc_0804, 0x6_0402, 0x3_0201);
    FourDigits(0x3_0201, 0x1_8100, 0xc080, 0x6040, 0x3020);
    FourDigits(0x3020, 0x1810, 0xc08, 0x604, 0x302);
    FourDigits(0x302, 0x181, 0xc0, 0x60, 0x30);
    FourDigits(0x30, 0x18, 0xc, 0x6, 0x3);
    FourDigits(0x3, 0x1, 0x0, 0x0, 0x0);
  }

  lemma AscendingWord1()
    ensures IsNumber(0x706_0504, 0x706_0504)
  {
    FourDigits(0x706_0504, 0x383_0282, 0x1c1_8141, 0xe0_c0a0, 0x70_6050);
    FourDigits(0x70_6050, 0x38_3028, 0x1c_1814, 0xe_0c0a, 0x7_0605);
    FourDigits(0x7_0605, 0x3_8302, 0x1_c181, 0xe0c0, 0x7060);
    FourDigits(0x7060, 0x3830, 0x1c18, 0xe0c, 0x706);
    FourDigits(0x706, 0x383, 0x1c1, 0xe0, 0x70);
    FourDigits(0x70, 0x38, 0x1c, 0xe, 0x7);
    FourDigits(0x7, 0x3, 0x1, 0x0, 0x0);
  }

  lemma AscendingWord2()
    ensures IsNumber(0xb0a_0908, 0xb0a_0908)
  {
    FourDigits(0xb0a_0908, 0x585_0484, 0x2c2_8242, 0x161_4121, 0xb0_a090);
    FourDigits(0xb0_a090, 0x58_5048, 0x2c_2824, 0x16_1412, 0xb_0a09);
    FourDigits(0xb_0a09, 0x5_8504, 0x2_c282, 0x1_6141, 0xb0a0);
    FourDigits(0xb0a0, 0x5850, 0x2c28, 0x1614, 0xb0a);
    FourDigits(0xb0a, 0x585, 0x2c2, 0x161, 0xb0);
    FourDigits(0xb0, 0x58, 0x2c, 0x16, 0xb);
    FourDigits(0xb, 0x5, 0x2, 0x1, 0x0);
  }

  lemma AscendingWord3()
    ensures IsNumber(0xf0e_0d0c, 0xf0e_0d0c)
  {
    FourDigits(0xf0e_0d0c, 0x787_0686, 0x3c3_8343, 0x1e1_c1a1, 0xf0_e0d0);
    FourDigits(0xf0_e0d0, 0x78_7068, 0x3c_3834, 0x1e_1c1a, 0xf_0e0d);
    FourDigits(0xf_0e0d, 0x7_8706, 0x3_c383, 0x1_e1c1, 0xf0e0);
    FourDigits(0xf0e0, 0x7870, 0x3c38, 0x1e1c, 0xf0e);
    FourDigits(0xf0e, 0x787, 0x3c3, 0x1e1, 0xf0);
    FourDigits(0xf0, 0x78, 0x3c, 0x1e, 0xf);
    FourDigits(0xf, 0x7, 0x3, 0x1, 0x0);
  }

  lemma AscendingWord4()
    ensures IsNumber(0x1312_1110, 0x1312_1110)
  {
    FourDigits(0x1312_1110, 0x989_0888, 0x4c4_8444, 0x262_4222, 0x131_2111);
    FourDigits(0x131_2111, 0x98_9088, 0x4c_4844, 0x26_2422, 0x13_1211);
    FourDigits(0x13_1211, 0x9_8908, 0x4_c484, 0x2_6242, 0x1_3121);
    FourDigits(0x1_3121, 0x9890, 0x4c48, 0x2624, 0x1312);
    FourDigits(0x1312, 0x989, 0x4c4, 0x262, 0x131);
    FourDigits(0x131, 0x98, 0x4c, 0x26, 0x13);
    FourDigits(0x13, 0x9, 0x4, 0x2, 0x1);
    FourDigits(0x1, 0x0, 0x0, 0x0, 0x0);
  }

  lemma AscendingWord5()
    ensures IsNumber(0x1716_1514, 0x1716_1514)
  {
    FourDigits(0x1716_1514, 0xb8b_0a8a, 0x5c5_8545, 0x2e2_c2a2, 0x171_6151);
    FourDigits(0x171_6151, 0xb8_b0a8, 0x5c_5854, 0x2e_2c2a, 0x17_1615);
    FourDigits(0x17_1615, 0xb_8b0a, 0x5_c585, 0x2_e2c2, 0x1_7161);
    FourDigits(0x1_7161, 0xb8b0, 0x5c58, 0x2e2c, 0x1716);
    FourDigits(0x1716, 0xb8b, 0x5c5, 0x2e2, 0x171);
    FourDigits(0x171, 0xb8, 0x5c, 0x2e, 0x17);
    FourDigits(0x17, 0xb, 0x5, 0x2, 0x1);
    FourDigits(0x1, 0x0, 0x0, 0x0, 0x0);
  }

  lemma AscendingWord6()
    ensures IsNumber(0x1b1a_1918, 0x1b1a_1918)
  {
    FourDigits(0x1b1a_1918, 0xd8d_0c8c, 0x6c6_8646, 0x363_4323, 0x1b1_a191);
    FourDigits(0x1b1_a191, 0xd8_d0c8, 0x6c_6864, 0x36_3432, 0x1b_1a19);
    FourDigits(0x1b_1a19, 0xd_8d0c, 0x6_c686, 0x3_6343, 0x1_b1a1);
    FourDigits(0x1_b1a1, 0xd8d0, 0x6c68, 0x3634, 0x1b1a);
    FourDigits(0x1b1a, 0xd8d, 0x6c6, 0x363, 0x1b1);
    FourDigits(0x1b1, 0xd8, 0x6c, 0x36, 0x1b);
    FourDigits(0x1b, 0xd, 0x6, 0x3, 0x1);
    FourDigits(0x1, 0x0, 0x0, 0x0, 0x0);
  }

  lemma AscendingWord7()
    ensures IsNumber(0x1f1e_1d1c, 0x1f1e_1d1c)
  {
    FourDigits(0x1f1e_1d1c, 0xf8f_0e8e, 0x7c7_8747, 0x3e3_c3a3, 0x1f1_e1d1);
    FourDigits(0x1f1_e1d1, 0xf8_f0e8, 0x7c_7874, 0x3e_3c3a, 0x1f_1e1d);
    FourDigits(0x1f_1e1d, 0xf_8f0e, 0x7_c787, 0x3_e3c3, 0x1_f1e1);
    FourDigits(0x1_f1e1, 0xf8f0, 0x7c78, 0x3e3c, 0x1f1e);
    FourDigits(0x1f1e, 0xf8f, 0x7c7, 0x3e3, 0x1f1);
    FourDigits(0x1f1, 0xf8, 0x7c, 0x3e, 0x1f);
    FourDigits(0x1f, 0xf, 0x7, 0x3, 0x1);
    FourDigits(0x1, 0x0, 0x0, 0x0, 0x0);
  }

  lemma AscendingSum()
    ensures IsNumber(0x46dd_794e, 0x46dd_794e)
  {
    FourDigits(0x46dd_794e, 0x236e_bca7, 0x11b7_5e53, 0x8db_af29, 0x46d_d794);
    FourDigits(0x46d_d794, 0x236_ebca, 0x11b_75e5, 0x8d_baf2, 0x46_dd79);
    FourDigits(0x46_dd79, 0x23_6ebc, 0x11_b75e, 0x8_dbaf, 0x4_6dd7);
    FourDigits(0x4_6dd7, 0x2_36eb, 0x1_1b75, 0x8dba, 0x46dd);
    FourDigits(0x46dd, 0x236e, 0x11b7, 0x8db, 0x46d);
    FourDigits(0x46d, 0x236, 0x11b, 0x8d, 0x46);
    FourDigits(0x46, 0x23, 0x11, 0x8, 0x4);
    FourDigits(0x4, 0x2, 0x1, 0x0, 0x0);
  }

  lemma AscendingTo8(s: seq<byte>)
    requires |s| == 32 && forall i :: 0 <= i < 32 ==> s[i] == i
    ensures IsAt(s, 8, 0x75d3_43c4)
  {
    Start(s);
    AscendingNext0();
    AscendingWord0();
    AscendingAt(s, 0);
    FourBytes(s, 0, 0xffff_ffff, 0x302_0100, 0x302_0100, 0x26cc_e55c);
    AscendingWord1();
    AscendingAt(s, 4);
    FourBytes(s, 4, 0x26cc_e55c, 0x706_0504, 0x706_0504, 0x75d3_43c4);
  }

  lemma AscendingTo16(s: seq<byte>)
    requires |s| == 32 && forall i :: 0 <= i < 32 ==> s[i] == i
    ensures IsAt(s, 16, 0x2636_f714)
  {
    AscendingTo8(s);
    AscendingNext1();
    AscendingWord2();
    AscendingAt(s, 8);
    FourBytes(s, 8, 0x75d3_43c4, 0xb0a_0908, 0xb0a_0908, 0xac7c_5545);
    AscendingWord3();
    AscendingAt(s, 12);
    FourBytes(s, 12, 0xac7c_5545, 0xf0e_0d0c, 0xf0e_0d0c, 0x2636_f714);
  }

  lemma AscendingTo24(s: seq<byte>)
    requires |s| == 32 && forall i :: 0 <= i < 32 ==> s[i] == i
    ensures IsAt(s, 24, 0xd643_786a)
  {
    AscendingTo16(s);
    AscendingNext2();
    AscendingWord4();
    AscendingAt(s, 16);
    FourBytes(s, 16, 0x2636_f714, 0x1312_1110, 0x1312_1110, 0x3386_1419);
    AscendingWord5();
    AscendingAt(s, 20);
    FourBytes(s, 20, 0x3386_1419, 0x1716_1514, 0x1716_1514, 0xd643_786a);
  }

  lemma AscendingTo32(s: seq<byte>)
    requires |s| == 32 && forall i :: 0 <= i < 32 ==> s[i] == i
    ensures IsAt(s, 32, 0xb922_86b1)
  {
    AscendingTo24(s);
    AscendingNext3();
    AscendingWord6();
    AscendingAt(s, 24);
    FourBytes(s, 24, 0xd643_786a, 0x1b1a_1918, 0x1b1a_1918, 0x9b21_363e);
    AscendingWord7();
    AscendingAt(s, 28);
    FourBytes(s, 28, 0x9b21_363e, 0x1f1e_1d1c, 0x1f1e_1d1c, 0xb922_86b1);
  }

  /** 32 bytes from 0 up. */
  lemma AscendingVector(s: seq<byte>)
    requires |s| == 32 && forall i :: 0 <= i < 32 ==> s[i] == i
    ensures Checksum(0, s) == 0x46dd_794e
  {
    AscendingTo32(s);
    AscendingSum();
    Finish(s, 0xb922_86b1, 0x46dd_794e, 0x46dd_794e);
  }

  // ---------------------------------------------------------------------- the polynomial

  /** x to the e, in a number whose lowest digit is the coefficient of x to the 32. */
  function Term(e: nat): nat
    requires e <= 32
  {
    Pow2(32 - e)
  }

  lemma PowersAre()
    ensures Pow2(0) == 0x1 && Pow2(1) == 0x2 && Pow2(2) == 0x4 && Pow2(3) == 0x8
    ensures Pow2(4) == 0x10 && Pow2(5) == 0x20 && Pow2(6) == 0x40 && Pow2(7) == 0x80
    ensures Pow2(8) == 0x100 && Pow2(9) == 0x200 && Pow2(10) == 0x400 && Pow2(11) == 0x800
    ensures Pow2(12) == 0x1000 && Pow2(13) == 0x2000 && Pow2(14) == 0x4000 && Pow2(15) == 0x8000
    ensures Pow2(16) == 0x1_0000 && Pow2(17) == 0x2_0000 && Pow2(18) == 0x4_0000 && Pow2(19) == 0x8_0000
    ensures Pow2(20) == 0x10_0000 && Pow2(21) == 0x20_0000 && Pow2(22) == 0x40_0000 && Pow2(23) == 0x80_0000
    ensures Pow2(24) == 0x100_0000 && Pow2(25) == 0x200_0000 && Pow2(26) == 0x400_0000 && Pow2(27) == 0x800_0000
    ensures Pow2(28) == 0x1000_0000 && Pow2(29) == 0x2000_0000 && Pow2(30) == 0x4000_0000 && Pow2(31) == 0x8000_0000
    ensures Pow2(32) == 0x1_0000_0000
  {
  }

  /** The divisor of the checksums, with its leading term. */
  lemma DivisorIsCastagnoli()
    ensures DIVISOR ==
            Term(32) + Term(28) + Term(27) + Term(26) + Term(25) + Term(23) + Term(22) + Term(20) + Term(19)
            + Term(18) + Term(14) + Term(13) + Term(11) + Term(10) + Term(9) + Term(8) + Term(6) + Term(0)
  {
    PowersAre();
  }
}
