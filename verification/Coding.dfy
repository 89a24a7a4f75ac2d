/** The varints of base/coding.{h,cc}: groups of seven bits, lowest first, the top bit of a
    byte saying that more follow.  A uint32 or uint64 is a natural number below 2^32 or 2^64;
    `|` is defined digit by digit, << is a product cut to the width, >> and & 127 are
    quotient and remainder. */
module Coding {
  import opened Bytes
  import opened Arithmetic
  import opened BinaryDigits

  const MAX_VARINT32_BYTES := 5

  function ShiftLeft(v: nat, shift: nat, bits: nat): nat {
    v * Pow2(shift) % Pow2(bits)
  }

  // ------------------------------------------------------------- numbers and their groups

  /** The encoding: as many groups as v needs, and at least one. */
  function Encoding(v: nat): (r: seq<byte>)
    ensures |r| > 0
  {
    if v < 128 then [v] else [v % 128 + 128] + Encoding(v / 128)
  }

  /** The number that groups stand for, whatever their top bits. */
  function Groups(s: seq<byte>): nat {
    if s == [] then 0 else s[0] % 128 + 128 * Groups(s[1..])
  }

  /** What a reader finds: a number and the bytes it took, an end of data inside a number,
      or more groups than a number may have. */
  datatype Decoded = Value(v: nat, used: nat) | Cut | TooLong

  function Decode(s: seq<byte>, max: nat): (d: Decoded)
    ensures d.Value? ==> 0 < d.used <= |s| && d.used <= max
    ensures d.Cut? ==> |s| < max
    ensures d.TooLong? ==> max <= |s|
  {
    if max == 0 then TooLong
    else if s == [] then Cut
    else if s[0] < 128 then Value(s[0], 1)
    else match Decode(s[1..], max - 1)
      case Value(v, used) => Value(s[0] - 128 + 128 * v, used + 1)
      case failure => failure
  }

  /** All of s asks for more to follow. */
  ghost predicate Continues(s: seq<byte>) {
    forall j :: 0 <= j < |s| ==> s[j] >= 128
  }

  lemma ContinuesCons(s: seq<byte>)
    requires s != []
    ensures Continues(s) <==> s[0] >= 128 && Continues(s[1..])
  {
    assert s == [s[0]] + s[1..];
  }

  /** A number of at most max groups takes the first u bytes of s. */
  ghost predicate IsNumber(s: seq<byte>, max: nat, u: nat) {
    0 < u <= |s| && u <= max && Continues(s[..u - 1]) && s[u - 1] < 128
  }

  lemma {:induction false} ShorterNumber(s: seq<byte>, max: nat, u: nat)
    requires s != [] && s[0] >= 128 && 0 < max
    ensures IsNumber(s, max, u) <==> 1 < u && IsNumber(s[1..], max - 1, u - 1)
    ensures 0 < u <= |s| ==> Groups(s[..u]) == s[0] - 128 + 128 * Groups(s[1..][..u - 1])
  {
    if 1 < u <= |s| {
      var t := s[1..];
      assert t[u - 2] == s[u - 1];
      assert s[..u - 1][1..] == t[..u - 2];
      ContinuesCons(s[..u - 1]);
      assert s[..u][1..] == t[..u - 1];
    } else if u == 1 {
      assert s[..1][1..] == [] == s[1..][..0];
    }
  }

  /** What Decode means when it finds a number: groups that continue up to one that does not. */
  lemma {:induction false} ValueMeans(s: seq<byte>, max: nat, v: nat, u: nat)
    ensures Decode(s, max) == Value(v, u) <==> IsNumber(s, max, u) && v == Groups(s[..u])
  {
    if max != 0 && s != [] {
      if s[0] < 128 {
        if u > 1 && u <= |s| {
          assert s[..u - 1][0] == s[0];
        }
        assert Groups(s[..1]) == s[0];
      } else {
        var low: nat := s[0] - 128;
        ShorterNumber(s, max, u);
        if u > 0 && v >= low && (v - low) % 128 == 0 {
          var high: nat := (v - low) / 128;
          assert v == low + 128 * high;
          ValueMeans(s[1..], max - 1, high, u - 1);
        }
      }
    }
  }

  /** What Decode means when it finds none. */
  lemma {:induction false} FailureMeans(s: seq<byte>, max: nat)
    ensures Decode(s, max) == TooLong <==> max <= |s| && Continues(s[..max])
    ensures Decode(s, max) == Cut <==> |s| < max && Continues(s)
  {
    if max != 0 && s != [] {
      if s[0] < 128 {
        if max <= |s| {
          assert s[..max][0] == s[0];
        }
      } else {
        var t := s[1..];
        FailureMeans(t, max - 1);
        ContinuesCons(s);
        if max <= |s| {
          ContinuesCons(s[..max]);
          assert s[..max][1..] == t[..max - 1];
        }
      }
    }
  }

  // --------------------------------------------------------------- putting groups together

  lemma Pow2Step7(k: nat)
    ensures Pow2(k + 7) == 128 * Pow2(k)
  {
    Pow2Adds(7, k);
    assert Pow2(7) == 128;
  }

  lemma {:induction false} GroupsBounded(s: seq<byte>)
    ensures Groups(s) < Pow2(7 * |s|)
  {
    if s != [] {
      GroupsBounded(s[1..]);
      Pow2Step7(7 * |s[1..]|);
    }
  }

  lemma {:induction false} GroupsSnoc(s: seq<byte>, b: byte)
    ensures Groups(s + [b]) == Groups(s) + Pow2(7 * |s|) * (b % 128)
  {
    if s == [] {
      assert s + [b] == [b];
      assert [b][1..] == [];
    } else {
      var t := s[1..];
      GroupsSnoc(t, b);
      assert (s + [b])[1..] == t + [b];
      Pow2Step7(7 * |t|);
      assert 128 * (Pow2(7 * |t|) * (b % 128)) == (128 * Pow2(7 * |t|)) * (b % 128);
    }
  }

  /** One turn of a reading loop: `result |= (byte & 127) << shift`, cut to the width. */
  lemma OneGroup(s: seq<byte>, b: byte, bits: nat)
    requires 7 * |s| <= bits
    ensures Or(Groups(s), ShiftLeft(b % 128, 7 * |s|, bits)) == Groups(s + [b]) % Pow2(bits)
  {
    var k, x := 7 * |s|, b % 128;
    GroupsBounded(s);
    GroupsSnoc(s, b);
    Pow2Splits(k, bits);
    AddDisjoint(Groups(s), x, k, Pow2(bits - k));
  }

  lemma AddDisjoint(low: nat, x: nat, k: nat, rest: nat)
    requires low < Pow2(k) && 0 < rest
    ensures Pow2(k) * rest > 0
    ensures Or(low, x * Pow2(k) % (Pow2(k) * rest)) == (low + Pow2(k) * x) % (Pow2(k) * rest)
  {
    ModScale(Pow2(k), rest, x);
    ModAdd(low, Pow2(k), rest, x);
    OrDisjoint(low, x % rest, k);
  }

  // ---------------------------------------------------------------------------- round trip

  lemma Unfold(v: nat, rest: seq<byte>, max: nat)
    requires 128 <= v && 0 < max && Decode(Encoding(v / 128) + rest, max - 1).Value?
    ensures var d := Decode(Encoding(v / 128) + rest, max - 1);
            Decode(Encoding(v) + rest, max) == Value(v % 128 + 128 * d.v, d.used + 1)
  {
    var s := Encoding(v) + rest;
    assert s == [v % 128 + 128] + (Encoding(v / 128) + rest);
    assert s[1..] == Encoding(v / 128) + rest;
  }

  /** Reading an encoding gives the number back and stops at its end, whatever follows. */
  lemma {:induction false} RoundTrip(v: nat, rest: seq<byte>, max: nat)
    requires 0 < max && v < Pow2(7 * max)
    ensures Decode(Encoding(v) + rest, max) == Value(v, |Encoding(v)|)
    decreases v
  {
    if v >= 128 {
      Pow2Step7(7 * (max - 1));
      RoundTrip(v / 128, rest, max - 1);
      Unfold(v, rest, max);
    }
  }

  lemma {:induction false} EncodingFits(v: nat, max: nat)
    requires 0 < max && v < Pow2(7 * max)
    ensures |Encoding(v)| <= max
  {
    if v >= 128 {
      Pow2Step7(7 * (max - 1));
      EncodingFits(v / 128, max - 1);
    }
  }

  /** No other groups that read as v are as short. */
  lemma {:induction false} EncodingIsShortest(s: seq<byte>, max: nat, v: nat, used: nat)
    requires Decode(s, max) == Value(v, used)
    ensures |Encoding(v)| <= used <= |s|
    ensures used == |Encoding(v)| ==> s[..used] == Encoding(v)
    decreases max
  {
    if s[0] >= 128 {
      EncodingIsShortest(s[1..], max - 1, v / 128, used - 1);
      if v >= 128 {
        assert s[..used][1..] == s[1..][..used - 1];
        if used == |Encoding(v)| {
          assert s[..used] == [s[0]] + s[1..][..used - 1];
        }
      }
    }
  }

  /** The bytes of an encoding: seven binary digits each, lowest first, and the top bit on all but the
      last; no more bytes than the number needs. */
  lemma {:induction false} EncodingAt(v: nat, i: nat)
    requires i < |Encoding(v)|
    ensures Encoding(v)[i] == v / Pow2(7 * i) % 128 + if i + 1 < |Encoding(v)| then 128 else 0
    ensures v < Pow2(7 * |Encoding(v)|) && (1 < |Encoding(v)| ==> Pow2(7 * (|Encoding(v)| - 1)) <= v)
    decreases v
  {
    if v < 128 {
      assert Pow2(7) == 128;
    } else {
      var rest := Encoding(v / 128);
      EncodingAt(v / 128, if i == 0 then 0 else i - 1);
      Pow2Step7(7 * |rest|);
      Pow2Step7(7 * (|rest| - 1));
      if i > 0 {
        GroupBelow(v, 7 * (i - 1));
      }
    }
  }

  lemma GroupBelow(v: nat, k: nat)
    ensures v / 128 / Pow2(k) == v / Pow2(k + 7)
  {
    var m := Pow2(k);
    Pow2Step7(k);
    var q := QuotientOf(v, 128);
    var r := QuotientOf(q, m);
    RemainderOfBoth(v, q, r, m);
    DivModIs(v, 128 * m, r, 128 * (q % m) + v % 128);
  }

  lemma RemainderOfBoth(v: nat, q: nat, r: int, m: nat)
    requires 0 < m && v == q * 128 + v % 128 && q == r * m + q % m
    ensures v == r * (128 * m) + (128 * (q % m) + v % 128) && 128 * (q % m) + v % 128 < 128 * m
  {
    assert r * (128 * m) == 128 * (r * m);
  }

  // ------------------------------------------------------------------------------ writing

  /** `v | B` stored in a byte. */
  function WithMore(v: nat): (b: byte)
    ensures b == v % 128 + 128
  {
    OrMore(v);
    Or(v, 128) % 256
  }

  lemma OrMore(v: nat)
    ensures Or(v, 128) % 256 == v % 128 + 128
  {
    assert Pow2(7) == 128;
    var low, high: nat := v % 128, v / 128;
    OrBit(low, high, 7, 1);
    OrOne(high, 1);
    OddGroup(low, Or(high, 1));
  }

  lemma OrBit(low: nat, a: nat, k: nat, one: nat)
    requires low < Pow2(k) && one == 1
    ensures Or(low + Pow2(k) * a, Pow2(k)) == low + Pow2(k) * Or(a, one)
  {
    OrAbove(low, a, one, k);
  }

  lemma OrOne(a: nat, one: nat)
    requires one == 1
    ensures Or(a, one) % 2 == 1
  {
  }

  lemma OddGroup(low: nat, high: nat)
    requires low < 128 && high % 2 == 1
    ensures (low + 128 * high) % 256 == low + 128
  {
  }

  lemma EncodingOfTwo(v: nat)
    requires 0x80 <= v < 0x4000
    ensures Encoding(v) == [WithMore(v), v / 0x80]
  {
  }

  lemma EncodingOfThree(v: nat)
    requires 0x4000 <= v < 0x20_0000
    ensures Encoding(v) == [WithMore(v), WithMore(v / 0x80), v / 0x4000]
  {
    EncodingOfTwo(v / 0x80);
    assert v / 0x80 / 0x80 == v / 0x4000;
  }

  lemma EncodingOfFour(v: nat)
    requires 0x20_0000 <= v < 0x1000_0000
    ensures Encoding(v) == [WithMore(v), WithMore(v / 0x80), WithMore(v / 0x4000), v / 0x20_0000]
  {
    EncodingOfThree(v / 0x80);
    assert v / 0x80 / 0x80 == v / 0x4000 && v / 0x80 / 0x4000 == v / 0x20_0000;
  }

  lemma EncodingOfFive(v: uint32)
    requires 0x1000_0000 <= v
    ensures Encoding(v) == [WithMore(v), WithMore(v / 0x80), WithMore(v / 0x4000), WithMore(v / 0x20_0000), v / 0x1000_0000]
  {
    EncodingOfFour(v / 0x80);
    assert v / 0x80 / 0x80 == v / 0x4000 && v / 0x80 / 0x4000 == v / 0x20_0000;
    assert v / 0x80 / 0x20_0000 == v / 0x1000_0000;
  }

  lemma WidthsFit()
    ensures 0x1_0000_0000 == Pow2(32) < Pow2(35)
    ensures 0x1_0000_0000_0000_0000 == Pow2(64) < Pow2(70)
  {
    assert Pow2(8) == 256;
    DoubleWidth(8, 16);
    DoubleWidth(16, 32);
    DoubleWidth(32, 64);
    Pow2Less(32, 35);
    Pow2Less(64, 70);
  }

  lemma DoubleWidth(k: nat, twice: nat)
    requires twice == k + k
    ensures Pow2(twice) == Pow2(k) * Pow2(k)
  {
    Pow2Adds(k, k);
  }

  lemma Pow2Less(a: nat, b: nat)
    requires a < b
    ensures Pow2(a) < Pow2(b)
  {
    Pow2Grows(a, b - 1);
  }

  method EncodeVarint32(dst: array<byte>, v: uint32) returns (ptr: nat)
    requires |Encoding(v)| <= dst.Length
    modifies dst
    ensures ptr == |Encoding(v)| && dst[..ptr] == Encoding(v)
    ensures dst[ptr..] == old(dst[ptr..])
  {
    if v < 0x80 {
      dst[0] := v;
      ptr := 1;
    } else if v < 0x4000 {
      EncodingOfTwo(v);
      dst[0] := WithMore(v);
      dst[1] := v / 0x80;
      ptr := 2;
    } else if v < 0x20_0000 {
      EncodingOfThree(v);
      dst[0] := WithMore(v);
      dst[1] := WithMore(v / 0x80);
      dst[2] := v / 0x4000;
      ptr := 3;
    } else if v < 0x1000_0000 {
      EncodingOfFour(v);
      dst[0] := WithMore(v);
      dst[1] := WithMore(v / 0x80);
      dst[2] := WithMore(v / 0x4000);
      dst[3] := v / 0x20_0000;
      ptr := 4;
    } else {
      EncodingOfFive(v);
      dst[0] := WithMore(v);
      dst[1] := WithMore(v / 0x80);
      dst[2] := WithMore(v / 0x4000);
      dst[3] := WithMore(v / 0x20_0000);
      dst[4] := v / 0x1000_0000;
      ptr := 5;
    }
  }

  method PutVarint32(dst: seq<byte>, v: uint32) returns (r: seq<byte>)
    ensures r == dst + Encoding(v)
  {
    var buf := new byte[5];
    WidthsFit();
    EncodingFits(v, 5);
    var ptr := EncodeVarint32(buf, v);
    return dst + buf[..ptr];
  }

  lemma NextByte(done: seq<byte>, left: nat, b: byte)
    requires 128 <= left && b == left % 128 + 128
    ensures done + Encoding(left) == (done + [b]) + Encoding(left / 128)
    ensures |Encoding(left)| == 1 + |Encoding(left / 128)|
  {
    assert Encoding(left) == [b] + Encoding(left / 128);
  }

  method EncodeVarint64(dst: array<byte>, v: uint64) returns (ptr: nat)
    requires |Encoding(v)| <= dst.Length
    modifies dst
    ensures ptr == |Encoding(v)| && dst[..ptr] == Encoding(v)
    ensures dst[ptr..] == old(dst[ptr..])
  {
    var left: nat := v;
    ptr := 0;
    while left >= 128
      invariant Put(dst, ptr, left, v)
      invariant forall k :: ptr <= k < dst.Length ==> dst[k] == old(dst[k])
    {
      PutGroup(dst, ptr, left, v);
      left := left / 128;
      ptr := ptr + 1;
    }
    dst[ptr] := left;
    ptr := ptr + 1;
  }

  /** The groups of v below left are in place. */
  ghost predicate Put(dst: array<byte>, ptr: nat, left: nat, v: nat)
    reads dst
  {
    && ptr + |Encoding(left)| == |Encoding(v)| <= dst.Length
    && Encoding(v) == dst[..ptr] + Encoding(left)
  }

  method PutGroup(dst: array<byte>, ptr: nat, left: nat, ghost v: nat)
    requires Put(dst, ptr, left, v) && 128 <= left
    modifies dst
    ensures Put(dst, ptr + 1, left / 128, v)
    ensures forall k :: 0 <= k < dst.Length && k != ptr ==> dst[k] == old(dst[k])
  {
    ghost var done := dst[..ptr];
    var b := WithMore(left % 128);
    NextByte(done, left, b);
    dst[ptr] := b;
    assert dst[..ptr + 1] == done + [b];
  }

  method PutVarint64(dst: seq<byte>, v: uint64) returns (r: seq<byte>)
    ensures r == dst + Encoding(v)
  {
    var buf := new byte[10];
    WidthsFit();
    EncodingFits(v, 10);
    var ptr := EncodeVarint64(buf, v);
    return dst + buf[..ptr];
  }

  method VarintLength(v: uint64) returns (len: nat)
    ensures len == |Encoding(v)|
  {
    var left: nat := v;
    len := 1;
    while left >= 128
      invariant |Encoding(v)| == len - 1 + |Encoding(left)|
    {
      left := left / 128;
      len := len + 1;
    }
  }

  // ------------------------------------------------------------------------------ reading

  /** A pointer past the number read, and the number; or nothing. */
  datatype Parsed = Null | Past(used: nat, value: nat)

  /** What a reader of at most max groups into a word of `bits` bits gives. */
  function Parse(s: seq<byte>, max: nat, bits: nat): Parsed {
    match Decode(s, max)
    case Value(v, used) => Past(used, v % Pow2(bits))
    case _ => Null
  }

  /** The loop of GetVarint32PtrFallback and GetVarint64Ptr: lastShift is 28 or 63. */
  method ParseGroups(s: seq<byte>, lastShift: nat, bits: nat) returns (r: Parsed)
    requires lastShift < bits
    ensures r == Parse(s, lastShift / 7 + 1, bits)
  {
    ghost var max := lastShift / 7 + 1;
    var p, shift, result := 0, 0, 0;
    GroupsBelow(s[..0], bits);
    while shift <= lastShift && p < |s|
      invariant p <= |s| && p <= max && shift == 7 * p
      invariant Continues(s[..p]) && result == Groups(s[..p]) % Pow2(bits)
    {
      assert s[..p] + [s[p]] == s[..p + 1];
      result := AddGroup(s[..p], s[p], shift, bits, result);
      p := p + 1;
      if s[p - 1] < 128 {
        NumberEnds(s, max, p);
        return Past(p, result);
      }
      shift := shift + 7;
    }
    FailureMeans(s, max);
    return Null;
  }

  lemma NumberEnds(s: seq<byte>, max: nat, p: nat)
    requires IsNumber(s, max, p)
    ensures Decode(s, max) == Value(Groups(s[..p]), p)
  {
    ValueMeans(s, max, Groups(s[..p]), p);
  }

  lemma GroupsBelow(s: seq<byte>, bits: nat)
    requires 7 * |s| <= bits
    ensures Groups(s) % Pow2(bits) == Groups(s)
  {
    GroupsBounded(s);
    Pow2Grows(7 * |s|, bits);
    DivModIs(Groups(s), Pow2(bits), 0, Groups(s));
  }

  /** `result |= (b & 127) << shift`, after the groups already read. */
  method AddGroup(ghost read: seq<byte>, b: byte, shift: nat, bits: nat, result: nat) returns (r: nat)
    requires shift == 7 * |read| <= bits && result == Groups(read) % Pow2(bits)
    ensures r == Groups(read + [b]) % Pow2(bits)
  {
    GroupsBelow(read, bits);
    OneGroup(read, b, bits);
    r := Or(result, ShiftLeft(b % 128, shift, bits));
  }

  method GetVarint32PtrFallback(s: seq<byte>) returns (r: Parsed)
    ensures r == Parse(s, 5, 32)
  {
    r := ParseGroups(s, 28, 32);
  }

  method GetVarint32Ptr(s: seq<byte>) returns (r: Parsed)
    ensures r == Parse(s, 5, 32)
  {
    if s != [] && s[0] < 128 {
      WidthsFit();
      return Past(1, s[0]);
    }
    r := GetVarint32PtrFallback(s);
  }

  method GetVarint64Ptr(s: seq<byte>) returns (r: Parsed)
    ensures r == Parse(s, 10, 64)
  {
    r := ParseGroups(s, 63, 64);
  }

  /** A decoder that sees max bytes sees enough. */
  lemma {:induction false} DecodePrefix(s: seq<byte>, rest: seq<byte>, max: nat)
    requires max <= |s|
    ensures Decode(s + rest, max) == Decode(s, max)
  {
    if max != 0 && s[0] >= 128 {
      assert (s + rest)[1..] == s[1..] + rest;
      DecodePrefix(s[1..], rest, max - 1);
    }
  }

  // ------------------------------------------------------------------------ lists of numbers

  function Encodings(vs: seq<nat>): seq<byte> {
    if vs == [] then [] else Encoding(vs[0]) + Encodings(vs[1..])
  }
}
