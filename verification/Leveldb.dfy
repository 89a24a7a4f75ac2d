/** The index of log/leveldb_database.{h,cc} over an ordered map of keys to entries.  A CHECK
    that would abort the program is a result of its own. */
module Leveldb {
  import opened Bytes
  import opened Options
  import opened Arithmetic
  import opened BinaryDigits
  import opened Coding

  const ENTRY_PREFIX := "entry-"
  const NIBBLE := "0123456789abcdef"
  const INT64_RANGE := 0x1_0000_0000_0000_0000

  // ------------------------------------------------------------------------------- keys

  /** The last so many hexadecimal digits of n. */
  function Nibbles(n: nat, digits: nat): (r: string)
    ensures |r| == digits
  {
    if digits == 0 then "" else Nibbles(n / 16, digits - 1) + [NIBBLE[n % 16]]
  }

  /** No negative number has a key of its own. */
  function Key(index: int64): string {
    ENTRY_PREFIX + Nibbles(if index < 0 then 0 else index, 16)
  }

  method IndexToKey(index: int64) returns (key: string)
    ensures key == Key(index)
  {
    var indexStr := new char[16](_ => NIBBLE[0]);
    ghost var n: nat := if index < 0 then 0 else index;
    var left: int := index;
    var i: nat := 16;
    ghost var all := Nibbles(n, i);
    while i > 0 && left > 0
      invariant i <= 16 && (0 <= index ==> 0 <= left)
      invariant forall k :: 0 <= k < i ==> indexStr[k] == NIBBLE[0]
      invariant all == Nibbles(if left < 0 then 0 else left, i) + indexStr[i..]
    {
      PutNibble(indexStr, i, left);
      left := left / 16;
      i := i - 1;
    }
    NibblesLeft(n, i, indexStr[..i], indexStr[i..]);
    assert indexStr[..] == indexStr[..i] + indexStr[i..];
    key := ENTRY_PREFIX + indexStr[..];
  }

  method PutNibble(indexStr: array<char>, i: nat, left: nat)
    requires 0 < i <= indexStr.Length
    modifies indexStr
    ensures Nibbles(left, i) + old(indexStr[i..]) == Nibbles(left / 16, i - 1) + indexStr[i - 1..]
    ensures forall k :: 0 <= k < i - 1 ==> indexStr[k] == old(indexStr[k])
  {
    ghost var low := indexStr[i..];
    indexStr[i - 1] := NIBBLE[left % 16];
    NibbleStep(left, i, low, indexStr[i - 1..]);
  }

  lemma NibbleStep(n: nat, digits: nat, low: string, low': string)
    requires 0 < digits && low' == [NIBBLE[n % 16]] + low
    ensures Nibbles(n, digits) + low == Nibbles(n / 16, digits - 1) + low'
  {
  }

  /** The digits that are never written. */
  lemma NibblesLeft(n: nat, i: nat, high: string, low: string)
    requires i <= 16 && Nibbles(n, 16) == Nibbles(0, i) + low
    requires |high| == i && forall k :: 0 <= k < i ==> high[k] == NIBBLE[0]
    ensures Nibbles(n, 16) == high + low
  {
    ZeroNibbles(i);
    assert high == Nibbles(0, i);
  }

  lemma {:induction false} ZeroNibbles(digits: nat)
    ensures forall k :: 0 <= k < digits ==> Nibbles(0, digits)[k] == NIBBLE[0]
  {
    if digits > 0 {
      ZeroNibbles(digits - 1);
    }
  }

  /** Letters beyond F pass for digits too. */
  function HexDigit(ch: char): Option<byte> {
    if '0' <= ch <= '9' then Some(ch as int - '0' as int)
    else if 'A' <= ch <= 'Z' then Some(ch as int - 'A' as int + 10)
    else if 'a' <= ch <= 'z' then Some(ch as int - 'a' as int + 10)
    else None
  }

  function HexByte(high: byte, low: byte): byte {
    Or(16 * high, low) % 256
  }

  /** The bytes of a string of digit pairs; nothing if it is not one. */
  function HexBytes(s: string): Option<seq<byte>> {
    if |s| == 0 then Some([])
    else if |s| % 2 == 1 then None
    else
      var high, low := HexDigit(s[|s| - 2]), HexDigit(s[|s| - 1]);
      var front := HexBytes(s[..|s| - 2]);
      if front == None || high == None || low == None then None
      else Some(front.value + [HexByte(high.value, low.value)])
  }

  method HexDecode(src: string) returns (r: seq<byte>)
    ensures r == match HexBytes(src) case Some(bytes) => bytes case None => []
  {
    r := [];
    var pos := 0;
    while pos < |src|
      invariant pos <= |src| && pos % 2 == 0 && HexBytes(src[..pos]) == Some(r)
      decreases |src| - pos
    {
      if |src| - pos < 2 {
        return [];
      }
      var high, low := HexDigit(src[pos]), HexDigit(src[pos + 1]);
      HexPair(src, pos);
      if high == None || low == None {
        NoHexAfter(src, pos + 2);
        return [];
      }
      r := r + [HexByte(high.value, low.value)];
      pos := pos + 2;
    }
    assert src[..|src|] == src;
  }

  lemma HexPair(s: string, pos: nat)
    requires pos + 2 <= |s| && pos % 2 == 0
    ensures HexBytes(s[..pos + 2]) ==
            var front, high, low := HexBytes(s[..pos]), HexDigit(s[pos]), HexDigit(s[pos + 1]);
            if front == None || high == None || low == None then None
            else Some(front.value + [HexByte(high.value, low.value)])
  {
    var t := s[..pos + 2];
    assert t[..|t| - 2] == s[..pos];
  }

  lemma {:induction false} NoHexAfter(s: string, pos: nat)
    requires pos <= |s| && pos % 2 == 0 && HexBytes(s[..pos]) == None
    ensures HexBytes(s) == None
    decreases |s| - pos
  {
    if |s| % 2 == 0 {
      if pos < |s| {
        HexPair(s, pos);
        NoHexAfter(s, pos + 2);
      } else {
        assert s[..pos] == s;
      }
    }
  }

  function BigEndian(s: seq<byte>): nat {
    if s == [] then 0 else 256 * BigEndian(s[..|s| - 1]) + s[|s| - 1]
  }

  /** The number with these 64 bits. */
  function Signed(n: nat): int {
    if n < 0x8000_0000_0000_0000 then n else n - INT64_RANGE
  }

  predicate HasPrefix(key: string) {
    ENTRY_PREFIX <= key
  }

  /** The number that a key stands for; nothing where KeyToIndex aborts. */
  function Index(key: string): Option<int> {
    if !HasPrefix(key) then None
    else match HexBytes(key[|ENTRY_PREFIX|..])
      case Some(bytes) => if |bytes| == 8 then Some(Signed(BigEndian(bytes))) else None
      case None => None
  }

  method KeyToIndex(key: string) returns (r: Option<int>)
    ensures r == Index(key)
  {
    if !HasPrefix(key) {
      return None;
    }
    var indexStr := HexDecode(key[|ENTRY_PREFIX|..]);
    if |indexStr| != 8 {
      return None;
    }
    var index: nat := 0;
    for i := 0 to 8
      invariant index == BigEndian(indexStr[..i]) < Pow2(8 * i)
    {
      index := ShiftIn(indexStr[..i], indexStr[i], index);
      assert indexStr[..i + 1][..i] == indexStr[..i];
      BigEndianBounded(indexStr[..i + 1]);
    }
    assert indexStr[..8] == indexStr;
    return Some(Signed(index));
  }

  /** `(index << 8) | byte`. */
  method ShiftIn(ghost s: seq<byte>, b: byte, index: nat) returns (r: nat)
    requires index == BigEndian(s) && |s| < 8
    ensures r == 256 * BigEndian(s) + b
  {
    r := Or(ShiftLeft(index, 8, 64), b);
    BigEndianBounded(s);
    Pow2Grows(8 * |s|, 56);
    ShiftByte(index);
    OrLow(b, index, 8);
    assert Pow2(8) == 256;
  }

  lemma ShiftByte(index: nat)
    requires index < Pow2(56)
    ensures ShiftLeft(index, 8, 64) == 256 * index
  {
    Pow2Adds(8, 56);
    assert Pow2(8) == 256;
    DivModIs(index * Pow2(8), Pow2(64), 0, index * Pow2(8));
  }

  lemma {:induction false} BigEndianBounded(s: seq<byte>)
    ensures BigEndian(s) < Pow2(8 * |s|)
  {
    if s != [] {
      var front := s[..|s| - 1];
      BigEndianBounded(front);
      assert Pow2(8) == 256;
      Pow2Adds(8, 8 * |front|);
      assert 8 * |s| == 8 + 8 * |front|;
    }
  }

  // ------------------------------------------------------------ what the keys are good for

  lemma HexDigitOfNibble(n: nat)
    requires n < 16
    ensures HexDigit(NIBBLE[n]) == Some(n)
  {
  }

  lemma HexByteOfNibbles(high: nat, low: nat)
    requires high < 16 && low < 16
    ensures HexByte(high, low) == 16 * high + low
  {
    OrFour(high, low);
    ByteStays(16 * high + low);
  }

  lemma ByteStays(n: nat)
    requires n < 256
    ensures n % 256 == n
  {
  }

  lemma OrFour(high: nat, low: nat)
    requires low < 16
    ensures Or(16 * high, low) == 16 * high + low
  {
    assert Pow2(4) == 16;
    OrLow(low, high, 4);
  }

  lemma OneByteLess(n: nat, bytes: nat)
    requires 0 < bytes && n < Pow2(8 * bytes)
    ensures n / 16 / 16 < Pow2(8 * (bytes - 1))
  {
    var less := 8 * (bytes - 1);
    assert 8 * bytes == 8 + less;
    assert Pow2(8) == 256;
    Pow2Adds(8, less);
  }

  /** The digits decode to the bytes of the number. */
  /** The digits of n, and the bytes that they are. */
  ghost predicate Decoded(s: string, bytes: nat, n: nat) {
    && |s| % 2 == 0 && HexBytes(s).Some?
    && |HexBytes(s).value| == bytes && BigEndian(HexBytes(s).value) == n
  }

  lemma {:induction false} NibblesDecode(n: nat, bytes: nat, digits: nat)
    requires n < Pow2(8 * bytes) && digits == 2 * bytes
    ensures Decoded(Nibbles(n, digits), bytes, n)
    decreases bytes
  {
    if bytes > 0 {
      OneByteLess(n, bytes);
      NibblesDecode(n / 16 / 16, bytes - 1, digits - 2);
      LastNibbles(n, digits);
      OneByteMore(n, Nibbles(n / 16 / 16, digits - 2), bytes - 1, n / 16 % 16, n % 16);
    }
  }

  lemma OneByteMore(n: nat, s: string, bytes: nat, high: nat, low: nat)
    requires high == n / 16 % 16 && low == n % 16 && Decoded(s, bytes, n / 16 / 16)
    ensures Decoded(s + [NIBBLE[high], NIBBLE[low]], bytes + 1, n)
  {
    HexOfNibbles(s, high, low);
    TwoNibbles(n);
  }

  lemma TwoNibbles(n: nat)
    ensures n == 256 * (n / 16 / 16) + (16 * (n / 16 % 16) + n % 16)
  {
  }

  lemma HexOfNibbles(s: string, high: nat, low: nat)
    requires |s| % 2 == 0 && HexBytes(s).Some? && high < 16 && low < 16
    ensures var r, front := HexBytes(s + [NIBBLE[high], NIBBLE[low]]), HexBytes(s).value;
            r.Some? && |r.value| == |front| + 1 && BigEndian(r.value) == 256 * BigEndian(front) + (16 * high + low)
  {
    HexDigitOfNibble(high);
    HexDigitOfNibble(low);
    HexByteOfNibbles(high, low);
    HexSnoc(s, NIBBLE[high], NIBBLE[low]);
    BigEndianSnoc(HexBytes(s).value, HexByte(high, low));
  }

  lemma BigEndianSnoc(s: seq<byte>, b: byte)
    ensures BigEndian(s + [b]) == 256 * BigEndian(s) + b
  {
    assert (s + [b])[..|s|] == s;
  }

  lemma LastNibbles(n: nat, digits: nat)
    requires 2 <= digits
    ensures Nibbles(n, digits) == Nibbles(n / 16 / 16, digits - 2) + [NIBBLE[n / 16 % 16], NIBBLE[n % 16]]
  {
    assert Nibbles(n / 16, digits - 1) == Nibbles(n / 16 / 16, digits - 2) + [NIBBLE[n / 16 % 16]];
  }

  lemma HexSnoc(s: string, high: char, low: char)
    requires |s| % 2 == 0 && HexBytes(s).Some? && HexDigit(high).Some? && HexDigit(low).Some?
    ensures HexBytes(s + [high, low]) == Some(HexBytes(s).value + [HexByte(HexDigit(high).value, HexDigit(low).value)])
  {
    var t := s + [high, low];
    assert t[..|s|] == s && t[..|s| + 2] == t;
    HexPair(t, |s|);
  }

  lemma KeyDecodes(n: nat)
    requires n < INT64_RANGE
    ensures Decoded(Nibbles(n, 16), 8, n)
  {
    WidthsFit();
    NibblesDecode(n, 8, 16);
  }

  /** A key gives back the number it was made of exactly when that is not negative. */
  lemma KeyRoundTrip(index: int64)
    ensures Index(Key(index)) == Some(if index < 0 then 0 else index)
    ensures Index(Key(index)) == Some(index) <==> 0 <= index
  {
    var n := if index < 0 then 0 else index;
    KeyDecodes(n);
    var key := Key(index);
    assert key[..|ENTRY_PREFIX|] == ENTRY_PREFIX;
    assert key[|ENTRY_PREFIX|..] == Nibbles(n, 16);
  }

  /** A key: the prefix, and sixteen hexadecimal digits, small letters for 10 to 15. */
  lemma KeySpelled(n: int64, k: nat)
    requires k < 16
    ensures |Key(n)| == 22 && Key(n)[..6] == "entry-"
    ensures Key(n)[6 + k] as int == SpelledDigit(if n < 0 then 0 else n, k)
  {
    var number: nat := if n < 0 then 0 else n;
    NibbleSpelled(number, k);
    PrefixThen(Key(n), Nibbles(number, 16), k);
  }

  function SpelledDigit(number: nat, k: nat): nat
    requires k < 16
  {
    var d := number / Pow2(4 * (15 - k)) % 16;
    if d < 10 then 48 + d else 87 + d
  }

  lemma NibbleSpelled(number: nat, k: nat)
    requires k < 16
    ensures Nibbles(number, 16)[k] as int == SpelledDigit(number, k)
  {
    DigitAt(number, 16, k);
    LetterOf(number / Pow2(4 * (15 - k)) % 16);
  }

  lemma PrefixThen(key: string, digits: string, k: nat)
    requires key == ENTRY_PREFIX + digits && |digits| == 16 && k < 16
    ensures |key| == 22 && key[..6] == "entry-" && key[6 + k] == digits[k]
  {
  }

  lemma LetterOf(d: nat)
    requires d < 16
    ensures NIBBLE[d] as int == if d < 10 then 48 + d else 87 + d
  {
  }

  lemma {:induction false} DigitAt(n: nat, digits: nat, k: nat)
    requires k < digits
    ensures Nibbles(n, digits)[k] == NIBBLE[n / Pow2(4 * (digits - 1 - k)) % 16]
  {
    if k < digits - 1 {
      var less := digits - 2 - k;
      DigitAt(n / 16, digits - 1, k);
      DividedTwice(n, less);
      assert digits - 1 - k == less + 1;
      assert Nibbles(n, digits)[k] == Nibbles(n / 16, digits - 1)[k];
    }
  }

  lemma DividedTwice(n: nat, k: nat)
    ensures n / 16 / Pow2(4 * k) == n / Pow2(4 * (k + 1))
  {
    var m, less := Pow2(4 * k), 4 * k;
    assert Pow2(4) == 16;
    Pow2Adds(4, less);
    assert 4 * (k + 1) == 4 + less;
    var q := QuotientOf(n, 16);
    var r := QuotientOf(q, m);
    Remainders(n, q, r, m);
    DivModIs(n, 16 * m, r, 16 * (q % m) + n % 16);
  }

  lemma Remainders(n: nat, q: nat, r: int, m: nat)
    requires 0 < m && n == q * 16 + n % 16 && q == r * m + q % m
    ensures n == r * (16 * m) + (16 * (q % m) + n % 16) && 16 * (q % m) + n % 16 < 16 * m
  {
    assert r * (16 * m) == 16 * (r * m);
  }

  /** ... as that of 10. */
  lemma KeyOfTen(n: int64)
    requires n == 10
    ensures Key(n) == "entry-000000000000000a"
  {
    ZeroNibbles(15);
    assert Nibbles(n, 16) == Nibbles(0, 15) + ['a'];
    assert Nibbles(n, 16) == "000000000000000a";
  }

  /** A key of all ones stands for -1. */
  lemma TopBitIsSign(key: string)
    requires key == "entry-ffffffffffffffff"
    ensures Index(key) == Some(-1)
  {
    var n: nat := INT64_RANGE - 1;
    WidthsFit();
    AllOnes(n, 16);
    KeyDecodes(n);
    PrefixThenOnes(key, Nibbles(n, 16));
  }

  lemma PrefixThenOnes(key: string, digits: string)
    requires key == "entry-ffffffffffffffff" && |digits| == 16 && forall k :: 0 <= k < 16 ==> digits[k] == 'f'
    ensures HasPrefix(key) && key[|ENTRY_PREFIX|..] == digits
  {
    assert key[..|ENTRY_PREFIX|] == ENTRY_PREFIX;
  }

  lemma {:induction false} AllOnes(n: nat, digits: nat)
    requires n == Pow2(4 * digits) - 1
    ensures forall k :: 0 <= k < digits ==> Nibbles(n, digits)[k] == 'f'
  {
    if digits > 0 {
      var less := 4 * (digits - 1);
      assert Pow2(4) == 16;
      Pow2Adds(4, less);
      assert 4 * digits == 4 + less;
      AllOnes(n / 16, digits - 1);
    }
  }

  /** The digits, and the letters that pass for them. */
  predicate IsLetter(c: char) {
    48 <= c as int <= 57 || 65 <= c as int <= 90 || 97 <= c as int <= 122
  }

  /** Their values: Z would be 35. */
  function LetterValue(c: char): nat
    requires IsLetter(c)
  {
    var code: nat := c as int;
    if code <= 57 then code - 48 else if code <= 90 then code - 55 else code - 87
  }

  lemma DigitIsLetter(c: char)
    ensures HexDigit(c) == if IsLetter(c) then Some(LetterValue(c)) else None
  {
  }

  lemma PairIs(h: char, l: char)
    ensures HexBytes([h, l]) == if HexDigit(h).Some? && HexDigit(l).Some?
                                then Some([HexByte(HexDigit(h).value, HexDigit(l).value)]) else None
  {
    var s := [h, l];
    HexPair(s, 0);
    assert s[..0] == "" && s[..2] == s;
    if HexDigit(h).Some? && HexDigit(l).Some? {
      var b := HexByte(HexDigit(h).value, HexDigit(l).value);
      assert [] + [b] == [b];
    }
  }

  /** A pair of digits is a byte; of letters beyond F only what a byte holds is left, as of "G1". */
  lemma PairDecodes(h: char, l: char)
    ensures HexBytes([h, l]).Some? <==> IsLetter(h) && IsLetter(l)
    ensures IsLetter(h) && IsLetter(l) && LetterValue(h) < 16 && LetterValue(l) < 16 ==>
              HexBytes([h, l]) == Some([16 * LetterValue(h) + LetterValue(l)])
    ensures h as int == 71 && l as int == 49 ==> HexBytes([h, l]) == Some([1])
  {
    PairIs(h, l);
    DigitIsLetter(h);
    DigitIsLetter(l);
    if IsLetter(h) && IsLetter(l) {
      if LetterValue(h) < 16 && LetterValue(l) < 16 {
        HexByteOfNibbles(LetterValue(h), LetterValue(l));
      }
      if h as int == 71 && l as int == 49 {
        TopIsLost(LetterValue(h), LetterValue(l));
      }
    }
  }

  lemma TopIsLost(high: byte, low: byte)
    requires high == 16 && low == 1
    ensures HexByte(high, low) == 1
  {
    OrFour(high, low);
  }

  // -------------------------------------------------------------------------- order of keys

  /** The order in which the database keeps its keys. */
  predicate Before(a: string, b: string) {
    b != "" && (a == "" || a[0] < b[0] || (a[0] == b[0] && Before(a[1..], b[1..])))
  }

  lemma {:induction false} BeforeTotal(a: string, b: string)
    ensures a != b ==> Before(a, b) || Before(b, a)
    ensures Before(a, b) ==> a != b && !Before(b, a)
  {
    if a != "" && b != "" {
      assert a == [a[0]] + a[1..] && b == [b[0]] + b[1..];
      BeforeTotal(a[1..], b[1..]);
    }
  }

  lemma {:induction false} BeforeTransitive(a: string, b: string, c: string)
    requires Before(a, b) && Before(b, c)
    ensures Before(a, c)
  {
    if a != "" && a[0] == b[0] == c[0] {
      BeforeTransitive(a[1..], b[1..], c[1..]);
    }
  }

  lemma {:induction false} BeforePrefixed(prefix: string, a: string, b: string)
    ensures Before(prefix + a, prefix + b) <==> Before(a, b)
  {
    if prefix == "" {
      assert prefix + a == a && prefix + b == b;
    } else {
      assert (prefix + a)[1..] == prefix[1..] + a && (prefix + b)[1..] == prefix[1..] + b;
      BeforePrefixed(prefix[1..], a, b);
    }
  }

  lemma {:induction false} BeforeSnoc(a: string, b: string, x: char, y: char)
    requires |a| == |b|
    ensures Before(a + [x], b + [y]) <==> Before(a, b) || (a == b && x < y)
  {
    if a == "" {
      assert a + [x] == [x] && b + [y] == [y];
    } else {
      assert (a + [x])[1..] == a[1..] + [x] && (b + [y])[1..] == b[1..] + [y];
      assert a == [a[0]] + a[1..] && b == [b[0]] + b[1..];
      BeforeSnoc(a[1..], b[1..], x, y);
    }
  }

  /** A key between two of entries is one of an entry. */
  lemma {:induction false} PrefixIsConvex(prefix: string, a: string, k: string, b: string)
    requires prefix <= a && prefix <= b && Before(a, k) && Before(k, b)
    ensures prefix <= k
  {
    if prefix != "" {
      PrefixIsConvex(prefix[1..], a[1..], k[1..], b[1..]);
    }
  }

  lemma {:induction false} NibblesInOrder(m: nat, n: nat, digits: nat)
    requires m < Pow2(4 * digits) && n < Pow2(4 * digits)
    ensures Before(Nibbles(m, digits), Nibbles(n, digits)) <==> m < n
    decreases digits
  {
    if digits != 0 {
      OneNibbleLess(m, digits);
      OneNibbleLess(n, digits);
      var a, b := Nibbles(m / 16, digits - 1), Nibbles(n / 16, digits - 1);
      NibblesInOrder(m / 16, n / 16, digits - 1);
      NibblesInOrder(n / 16, m / 16, digits - 1);
      BeforeTotal(a, b);
      assert a == b <==> m / 16 == n / 16;
      BeforeSnoc(a, b, NIBBLE[m % 16], NIBBLE[n % 16]);
      DigitsInOrder(m, n);
    }
  }

  lemma DigitsInOrder(m: nat, n: nat)
    ensures m < n <==> m / 16 < n / 16 || (m / 16 == n / 16 && NIBBLE[m % 16] < NIBBLE[n % 16])
  {
    NibbleOrder(m % 16, n % 16);
  }

  lemma OneNibbleLess(n: nat, digits: nat)
    requires 0 < digits && n < Pow2(4 * digits)
    ensures n / 16 < Pow2(4 * (digits - 1))
  {
    var less := 4 * (digits - 1);
    assert 4 * digits == 4 + less;
    assert Pow2(4) == 16;
    Pow2Adds(4, less);
  }

  lemma NibbleOrder(m: nat, n: nat)
    requires m < 16 && n < 16
    ensures NIBBLE[m] < NIBBLE[n] <==> m < n
    ensures NIBBLE[m] == NIBBLE[n] <==> m == n
  {
  }

  /** The order of keys is that of the numbers, from zero on. */
  lemma KeysInOrder(m: int64, n: int64)
    requires 0 <= m && 0 <= n
    ensures Before(Key(m), Key(n)) <==> m < n
  {
    WidthsFit();
    NibblesInOrder(m, n, 16);
    BeforePrefixed(ENTRY_PREFIX, Nibbles(m, 16), Nibbles(n, 16));
  }

  // ------------------------------------------------------------------------------- index

  /** An entry, as far as the database looks at it; its data are those of `rest`. */
  datatype LoggedEntry = LoggedEntry(sequenceNumber: int64, hash: string, rest: seq<byte>)

  type Ledger = map<int, LoggedEntry>

  /** contiguous is the least number not used, sparse the used numbers outside 0..contiguous,
      and ids leads from each hash to the least number of an entry with it. */
  ghost predicate IsIndex(ledger: Ledger, contiguous: int, sparse: set<int>, ids: map<string, int>) {
    Splits(ledger, contiguous, sparse) && contiguous !in ledger && Leads(ledger, ids)
  }

  ghost predicate Splits(ledger: Ledger, contiguous: int, sparse: set<int>) {
    && 0 <= contiguous
    && (forall s :: 0 <= s < contiguous ==> s in ledger)
    && (forall s :: s in sparse <==> s in ledger && !(0 <= s < contiguous))
  }

  ghost predicate Leads(ledger: Ledger, ids: map<string, int>) {
    && (forall s :: s in ledger ==> ledger[s].hash in ids && ids[ledger[s].hash] <= s)
    && (forall h :: h in ids ==> ids[h] in ledger && ledger[ids[h]].hash == h)
  }

  /** A ledger has one index. */
  lemma IndexIsUnique(ledger: Ledger, c1: int, sparse1: set<int>, ids1: map<string, int>,
                      c2: int, sparse2: set<int>, ids2: map<string, int>)
    requires IsIndex(ledger, c1, sparse1, ids1) && IsIndex(ledger, c2, sparse2, ids2)
    ensures c1 == c2 && sparse1 == sparse2 && ids1 == ids2
  {
    assert !(c1 < c2) && !(c2 < c1);
    assert forall s :: s in sparse1 <==> s in sparse2;
    forall h | h in ids1 ensures h in ids2 && ids1[h] == ids2[h] {
      LeastOfHash(ledger, c1, sparse1, ids1, h, c2, sparse2, ids2);
    }
    forall h | h in ids2 ensures h in ids1 {
      LeastOfHash(ledger, c2, sparse2, ids2, h, c1, sparse1, ids1);
    }
    assert ids1.Keys == ids2.Keys;
  }

  lemma LeastOfHash(ledger: Ledger, c1: int, sparse1: set<int>, ids1: map<string, int>, h: string,
                    c2: int, sparse2: set<int>, ids2: map<string, int>)
    requires IsIndex(ledger, c1, sparse1, ids1) && IsIndex(ledger, c2, sparse2, ids2) && h in ids1
    ensures h in ids2 && ids1[h] == ids2[h]
  {
    var s := ids1[h];
    assert s in ledger && ledger[s].hash == h;
    assert h in ids2 && ids2[h] <= s;
    var t := ids2[h];
    assert t in ledger && ledger[t].hash == h;
  }

  // ------------------------------------------------------------------- the stored entries

  type Store = map<string, LoggedEntry>

  /** Every entry is under the key of its own number, and none has a negative one. */
  ghost predicate WellFormed(db: Store) {
    forall k :: k in db && HasPrefix(k) ==> 0 <= db[k].sequenceNumber && k == Key(db[k].sequenceNumber)
  }

  ghost function LedgerOf(db: Store): (ledger: Ledger)
    requires WellFormed(db)
    ensures forall s: int64 :: s in ledger <==> 0 <= s && Key(s) in db
    ensures forall s: int64 :: s in ledger ==> ledger[s] == db[Key(s)] && ledger[s].sequenceNumber == s
    ensures forall s :: s in ledger ==> 0 <= s < 0x8000_0000_0000_0000
  {
    AllKeysHavePrefix();
    KeysDiffer();
    map k | k in db && HasPrefix(k) :: db[k].sequenceNumber := db[k]
  }

  lemma AllKeysHavePrefix()
    ensures forall s: int64 :: HasPrefix(Key(s))
  {
  }

  lemma KeysDiffer()
    ensures forall s: int64, t: int64 :: 0 <= s && 0 <= t && Key(s) == Key(t) ==> s == t
  {
    forall s: int64, t: int64 | 0 <= s && 0 <= t && Key(s) == Key(t) ensures s == t {
      KeyRoundTrip(s);
      KeyRoundTrip(t);
    }
  }

  // ------------------------------------------------------------- LevelDB, an ordered map

  ghost predicate FromOn(k: string, from: string, after: bool) {
    Before(from, k) || (!after && k == from)
  }

  /** r is the first key from `from` on, or after it. */
  ghost predicate IsFirst(db: Store, from: string, after: bool, r: Option<string>) {
    match r
    case None => forall k :: k in db ==> !FromOn(k, from, after)
    case Some(least) =>
      least in db && FromOn(least, from, after) && forall k :: k in db && FromOn(k, from, after) ==> !Before(k, least)
  }

  method FirstKey(db: Store, from: string, after: bool) returns (r: Option<string>)
    ensures IsFirst(db, from, after, r)
  {
    var left := db.Keys;
    r := None;
    ghost var seen: Store := map[];
    while left != {}
      invariant seen.Keys == db.Keys - left && left <= db.Keys
      invariant IsFirst(seen, from, after, r)
    {
      var k :| k in left;
      left := left - {k};
      ghost var before := seen;
      seen := seen[k := db[k]];
      FirstOfMore(before, from, after, r, k, db[k]);
      if (Before(from, k) || (!after && k == from)) && (r == None || Before(k, r.value)) {
        r := Some(k);
      }
    }
    assert seen.Keys == db.Keys;
  }

  lemma FirstOfMore(db: Store, from: string, after: bool, r: Option<string>, k: string, e: LoggedEntry)
    requires IsFirst(db, from, after, r) && k !in db
    ensures IsFirst(db[k := e], from, after,
                    if FromOn(k, from, after) && (r == None || Before(k, r.value)) then Some(k) else r)
  {
    if r.Some? && Before(k, r.value) {
      forall k' | k' in db && Before(k', k) ensures Before(k', r.value) {
        BeforeTransitive(k', k, r.value);
      }
    }
    BeforeTotal(k, k);
  }

  // ---------------------------------------------------------------------------- iteration

  /** The entries before the place of an iterator. */
  function Upto(db: Store, it: Option<string>): Store {
    if it == None then db else map k | k in db && Before(k, it.value) :: db[k]
  }

  lemma NextPlace(db: Store, key: string, next: Option<string>)
    requires key in db && IsFirst(db, key, true, next)
    ensures Upto(db, next) == Upto(db, Some(key))[key := db[key]]
  {
    forall k | k in db ensures k in Upto(db, next) <==> k == key || Before(k, key) {
      BeforeTotal(k, key);
      if next.Some? {
        if Before(k, key) {
          BeforeTransitive(k, key, next.value);
        }
        BeforeTotal(k, next.value);
      }
    }
  }

  lemma {:induction false} PrefixComesFirst(prefix: string, k: string)
    requires prefix <= k
    ensures !Before(k, prefix)
  {
    if prefix != "" {
      PrefixComesFirst(prefix[1..], k[1..]);
    }
  }

  /** An iterator placed by Seek to the prefix has no entries before it. */
  lemma NoEntriesBefore(db: Store, it: Option<string>)
    requires IsFirst(db, ENTRY_PREFIX, false, it)
    ensures forall k :: k in Upto(db, it) ==> !HasPrefix(k)
  {
    forall k | k in Upto(db, it) ensures !HasPrefix(k) {
      BeforeTotal(k, ENTRY_PREFIX);
      if HasPrefix(k) {
        PrefixComesFirst(ENTRY_PREFIX, k);
        if it.Some? {
          BeforeTotal(k, it.value);
        }
      }
    }
  }

  /** An iterator on a later key without the prefix has no entries after it. */
  lemma NoEntriesAfter(db: Store, key: string)
    requires !HasPrefix(key) && Before(ENTRY_PREFIX, key)
    ensures forall k :: k in db && HasPrefix(k) ==> Before(k, key)
  {
    forall k | k in db && HasPrefix(k) ensures Before(k, key) {
      BeforeTotal(k, key);
      if Before(key, k) {
        PrefixIsConvex(ENTRY_PREFIX, ENTRY_PREFIX, key, k);
      }
    }
  }

  /** Every key stands for the number of its entry. */
  ghost predicate Decodes(db: Store) {
    forall k :: k in db && HasPrefix(k) ==> Index(k) == Some(db[k].sequenceNumber)
  }

  lemma WellFormedDecodes(db: Store)
    requires WellFormed(db)
    ensures Decodes(db)
  {
    forall k | k in db && HasPrefix(k) ensures Index(k) == Some(db[k].sequenceNumber) {
      KeyRoundTrip(db[k].sequenceNumber);
    }
  }

  /** The ledger has the entries of the store by their numbers, which may be negative. */
  ghost predicate IsHeld(db: Store, ledger: Ledger) {
    && (forall k :: k in db && HasPrefix(k) ==>
          k == Key(db[k].sequenceNumber) && db[k].sequenceNumber in ledger && ledger[db[k].sequenceNumber] == db[k])
    && (forall s: int :: s in ledger ==>
          && -0x8000_0000_0000_0000 <= s < 0x8000_0000_0000_0000
          && Key(s) in db && db[Key(s)] == ledger[s] && ledger[s].sequenceNumber == s)
  }

  lemma HeldGrows(db: Store, ledger: Ledger, e: LoggedEntry)
    requires IsHeld(db, ledger) && Key(e.sequenceNumber) !in db
    ensures e.sequenceNumber !in ledger
    ensures IsHeld(db[Key(e.sequenceNumber) := e], ledger[e.sequenceNumber := e])
  {
  }

  /** A well-formed store holds its ledger. */
  lemma LedgerIsHeld(db: Store)
    requires WellFormed(db)
    ensures IsHeld(db, LedgerOf(db))
  {
    AllKeysHavePrefix();
    forall s | s in LedgerOf(db) ensures Key(s) in db && db[Key(s)] == LedgerOf(db)[s] {
      var s': int64 := s;
      assert s' in LedgerOf(db);
    }
  }

  /** ... and no other. */
  lemma HeldIsLedger(db: Store, ledger: Ledger)
    requires WellFormed(db) && IsHeld(db, ledger)
    ensures ledger == LedgerOf(db)
  {
    LedgerIsHeld(db);
    HeldOnce(db, ledger, LedgerOf(db));
  }

  lemma HeldOnce(db: Store, a: Ledger, b: Ledger)
    requires IsHeld(db, a) && IsHeld(db, b)
    ensures a == b
  {
    forall s ensures s in a <==> s in b {
      if s in a {
        HeldByBoth(db, a, b, s);
      }
      if s in b {
        HeldByBoth(db, b, a, s);
      }
    }
    forall s | s in a ensures a[s] == b[s] {
      HeldByBoth(db, a, b, s);
    }
  }

  lemma HeldByBoth(db: Store, a: Ledger, b: Ledger, s: int)
    requires IsHeld(db, a) && IsHeld(db, b) && s in a
    ensures s in b && a[s] == b[s]
  {
    var key := Key(a[s].sequenceNumber);
    AllKeysHavePrefix();
    assert key in db && db[key] == a[s] && HasPrefix(key);
  }

  /** Storing an entry under its key. */
  lemma LedgerGrows(db: Store, key: string, e: LoggedEntry)
    requires WellFormed(db[key := e]) && key !in db && HasPrefix(key)
    ensures WellFormed(db) && e.sequenceNumber !in LedgerOf(db)
    ensures LedgerOf(db[key := e]) == LedgerOf(db)[e.sequenceNumber := e]
  {
    WithoutOneEntry(db, key, e);
    LedgerIsHeld(db);
    HeldGrows(db, LedgerOf(db), e);
    HeldIsLedger(db[key := e], LedgerOf(db)[e.sequenceNumber := e]);
  }

  lemma WithoutOneEntry(db: Store, key: string, e: LoggedEntry)
    requires WellFormed(db[key := e]) && key !in db && HasPrefix(key)
    ensures WellFormed(db) && key == Key(e.sequenceNumber)
  {
    var db' := db[key := e];
    assert key in db' && db'[key] == e;
    forall k | k in db && HasPrefix(k) ensures 0 <= db[k].sequenceNumber && k == Key(db[k].sequenceNumber) {
      assert k in db' && db'[k] == db[k];
    }
  }

  /** Entries are all that matters. */
  lemma LedgerOfPart(db: Store, part: Store)
    requires WellFormed(db)
    requires forall k :: k in part ==> k in db && part[k] == db[k]
    ensures WellFormed(part)
    ensures (forall k :: k in db && HasPrefix(k) ==> k in part) ==> LedgerOf(part) == LedgerOf(db)
    ensures (forall k :: k in part ==> !HasPrefix(k)) ==> LedgerOf(part) == map[]
  {
    assert WellFormed(part);
    if forall k :: k in db && HasPrefix(k) ==> k in part {
      LedgerIsHeld(db);
      HeldByPart(db, part, LedgerOf(db));
      HeldIsLedger(part, LedgerOf(db));
    }
    if forall k :: k in part ==> !HasPrefix(k) {
      HeldIsLedger(part, map[]);
    }
  }

  lemma HeldByPart(db: Store, part: Store, ledger: Ledger)
    requires IsHeld(db, ledger) && forall k :: k in part ==> k in db && part[k] == db[k]
    requires forall k :: k in db && HasPrefix(k) ==> k in part
    ensures IsHeld(part, ledger)
  {
    AllKeysHavePrefix();
  }

  /** One more number for a hash. */
  lemma LeadsMore(ledger: Ledger, ids: map<string, int>, s: int, e: LoggedEntry, least: int)
    requires Leads(ledger, ids) && s !in ledger
    requires least == if e.hash in ids && ids[e.hash] < s then ids[e.hash] else s
    ensures Leads(ledger[s := e], ids[e.hash := least])
  {
    var ledger', ids' := ledger[s := e], ids[e.hash := least];
    forall t | t in ledger' ensures ledger'[t].hash in ids' && ids'[ledger'[t].hash] <= t {
      if t != s {
        assert ledger[t].hash in ids;
      }
    }
    forall h | h in ids' ensures ids'[h] in ledger' && ledger'[ids'[h]].hash == h {
      if h in ids {
        assert ids[h] in ledger && ledger[ids[h]].hash == h;
      }
    }
  }

  class LeveldbDatabase {
    var db: Store
    var contiguousSize: int
    var sparseEntries: set<int>
    var idByHash: map<string, int>

    /** The index is that of the stored entries. */
    ghost predicate Valid()
      reads this
    {
      WellFormed(db) && IsIndex(LedgerOf(db), contiguousSize, sparseEntries, idByHash)
    }

    /** False where the CHECK aborts. */
    method InsertEntryMapping(sequenceNumber: int64, hash: string, ghost ledger: Ledger, ghost e: LoggedEntry)
        returns (ok: bool)
      requires e.hash == hash
      modifies this`contiguousSize, this`sparseEntries, this`idByHash
      ensures old(IsIndex(ledger, contiguousSize, sparseEntries, idByHash)) && sequenceNumber !in ledger ==>
                ok && IsIndex(ledger[sequenceNumber := e], contiguousSize, sparseEntries, idByHash)
    {
      MapHash(sequenceNumber, hash, ledger, e);
      ok := AssignNumber(sequenceNumber, ledger, e);
    }

    method MapHash(sequenceNumber: int64, hash: string, ghost ledger: Ledger, ghost e: LoggedEntry)
      requires e.hash == hash
      modifies this`idByHash
      ensures old(Leads(ledger, idByHash)) && sequenceNumber !in ledger ==> Leads(ledger[sequenceNumber := e], idByHash)
    {
      ghost var before := idByHash;
      if hash !in idByHash {
        idByHash := idByHash[hash := sequenceNumber];
      } else {
        idByHash := idByHash[hash := if sequenceNumber < idByHash[hash] then sequenceNumber else idByHash[hash]];
      }
      if Leads(ledger, before) && sequenceNumber !in ledger {
        LeadsMore(ledger, before, sequenceNumber, e, idByHash[hash]);
      }
    }

    method AssignNumber(sequenceNumber: int64, ghost ledger: Ledger, ghost e: LoggedEntry) returns (ok: bool)
      modifies this`contiguousSize, this`sparseEntries
      ensures old(Splits(ledger, contiguousSize, sparseEntries) && contiguousSize !in ledger) && sequenceNumber !in ledger ==>
                var ledger' := ledger[sequenceNumber := e];
                ok && Splits(ledger', contiguousSize, sparseEntries) && contiguousSize !in ledger'
    {
      if sequenceNumber == contiguousSize {
        contiguousSize := contiguousSize + 1;
        while contiguousSize in sparseEntries
          invariant old(Splits(ledger, contiguousSize, sparseEntries)) && sequenceNumber !in ledger ==>
                      Splits(ledger[sequenceNumber := e], contiguousSize, sparseEntries)
          decreases |sparseEntries|
        {
          sparseEntries := sparseEntries - {contiguousSize};
          contiguousSize := contiguousSize + 1;
        }
      } else {
        if sequenceNumber in sparseEntries {
          return false;
        }
        sparseEntries := sparseEntries + {sequenceNumber};
      }
      return true;
    }

    /** Where the loop of BuildIndex is: the entries before the iterator are indexed. */
    ghost predicate Built(it: Option<string>)
      reads this
    {
      && (it.Some? ==> it.value in db && FromOn(it.value, ENTRY_PREFIX, false))
      && Decodes(Upto(db, it))
      && (WellFormed(db) ==>
            var part := Upto(db, it);
            WellFormed(part) && IsIndex(LedgerOf(part), contiguousSize, sparseEntries, idByHash))
    }

    /** False where a CHECK aborts. */
    method BuildIndex() returns (ok: bool)
      requires contiguousSize == 0 && sparseEntries == {} && idByHash == map[]
      modifies this`contiguousSize, this`sparseEntries, this`idByHash
      ensures WellFormed(db) ==> ok && Valid()
      ensures ok ==> Decodes(db)
    {
      var it := FirstKey(db, ENTRY_PREFIX, false);
      NothingBuilt(it);
      while it.Some? && HasPrefix(it.value)
        invariant Built(it)
        decreases |db.Keys - Upto(db, it).Keys|
      {
        ok, it := BuildNext(it.value);
        if !ok {
          return;
        }
      }
      AllBuilt(it);
      return true;
    }

    lemma NothingBuilt(it: Option<string>)
      requires contiguousSize == 0 && sparseEntries == {} && idByHash == map[]
      requires IsFirst(db, ENTRY_PREFIX, false, it)
      ensures Built(it)
    {
      NoEntriesBefore(db, it);
      if WellFormed(db) {
        LedgerOfPart(db, Upto(db, it));
      }
    }

    lemma AllBuilt(it: Option<string>)
      requires Built(it) && (it.Some? ==> !HasPrefix(it.value))
      ensures Decodes(db)
      ensures WellFormed(db) ==> Valid()
    {
      if it.Some? {
        NoEntriesAfter(db, it.value);
      }
      if WellFormed(db) {
        LedgerOfPart(db, Upto(db, it));
      }
    }

    /** One round of the loop. */
    method BuildNext(key: string) returns (ok: bool, it: Option<string>)
      requires Built(Some(key)) && HasPrefix(key)
      modifies this`contiguousSize, this`sparseEntries, this`idByHash
      ensures WellFormed(db) ==> ok
      ensures ok ==> Built(it) && key !in Upto(db, Some(key)) && Upto(db, it) == Upto(db, Some(key))[key := db[key]]
    {
      it := None;
      var number := KeyToIndex(key);
      var logged := db[key];
      ghost var part := Upto(db, Some(key));
      BeforeTotal(key, key);
      if WellFormed(db) {
        WellFormedDecodes(db);
      }
      if number != Some(logged.sequenceNumber) {
        return false, it;
      }
      it := FirstKey(db, key, true);
      NextPlace(db, key, it);
      ghost var more := Upto(db, it);
      ghost var ledger := if WellFormed(db) then LedgerOf(part) else map[];
      if WellFormed(db) {
        LedgerOfPart(db, more);
        LedgerGrows(part, key, logged);
      }
      ok := InsertEntryMapping(logged.sequenceNumber, logged.hash, ledger, logged);
      if it.Some? && key != ENTRY_PREFIX {
        BeforeTransitive(ENTRY_PREFIX, key, it.value);
      }
    }

    constructor (db: Store)
      ensures this.db == db && contiguousSize == 0 && sparseEntries == {} && idByHash == map[]
    {
      this.db := db;
      contiguousSize, sparseEntries, idByHash := 0, {}, map[];
    }

    /** The index is that of a ledger that the store holds. */
    ghost predicate Keeps(ledger: Ledger)
      reads this
    {
      IsHeld(db, ledger) && IsIndex(ledger, contiguousSize, sparseEntries, idByHash)
    }

    /** Whatever the number, the entry is stored if its key is free, and the index follows. */
    method CreateSequencedEntry(logged: LoggedEntry, ghost ledger: Ledger) returns (r: WriteResult)
      requires Keeps(ledger)
      modifies this
      ensures db == StoreAfter(old(db), logged) && r == StoreAnswer(old(db), logged)
      ensures Keeps(if Key(logged.sequenceNumber) in old(db) then ledger else ledger[logged.sequenceNumber := logged])
    {
      var key := IndexToKey(logged.sequenceNumber);
      if key !in db {
        HeldGrows(db, ledger, logged);
        r := AddEntry(key, logged, ledger);
      } else {
        r := if db[key] == logged then OK else SEQUENCE_NUMBER_ALREADY_IN_USE;
      }
    }

    method AddEntry(key: string, logged: LoggedEntry, ghost ledger: Ledger) returns (r: WriteResult)
      requires logged.sequenceNumber !in ledger && IsIndex(ledger, contiguousSize, sparseEntries, idByHash)
      modifies this
      ensures r == OK && db == old(db)[key := logged]
      ensures IsIndex(ledger[logged.sequenceNumber := logged], contiguousSize, sparseEntries, idByHash)
    {
      db := db[key := logged];
      var ok := InsertEntryMapping(logged.sequenceNumber, logged.hash, ledger, logged);
      r := if ok then OK else Aborted;
    }

    method LookupByHash(hash: string) returns (r: LookupResult)
      requires Valid()
      ensures match r
              case Found(e) =>
                && e.hash == hash && e.sequenceNumber in LedgerOf(db) && LedgerOf(db)[e.sequenceNumber] == e
                && forall s :: s in LedgerOf(db) && LedgerOf(db)[s].hash == hash ==> e.sequenceNumber <= s
              case NotFound => forall s :: s in LedgerOf(db) ==> LedgerOf(db)[s].hash != hash
              case CheckFailed => false
    {
      if hash !in idByHash {
        return NotFound;
      }
      assert idByHash[hash] in LedgerOf(db);
      var key := IndexToKey(idByHash[hash]);
      if key !in db {
        return NotFound;
      }
      if db[key].hash != hash {
        return CheckFailed;
      }
      return Found(db[key]);
    }

    method LookupByIndex(sequenceNumber: int64) returns (r: LookupResult)
      requires Valid()
      ensures 0 <= sequenceNumber ==>
                r == if sequenceNumber in LedgerOf(db) then Found(LedgerOf(db)[sequenceNumber]) else NotFound
      ensures sequenceNumber < 0 ==> r == if 0 in LedgerOf(db) then CheckFailed else NotFound
    {
      var key := IndexToKey(sequenceNumber);
      assert sequenceNumber < 0 ==> key == Key(0);
      if key !in db {
        return NotFound;
      }
      if db[key].sequenceNumber != sequenceNumber {
        return CheckFailed;
      }
      return Found(db[key]);
    }
  }

  datatype WriteResult = OK | SEQUENCE_NUMBER_ALREADY_IN_USE | Aborted

  datatype LookupResult = Found(entry: LoggedEntry) | NotFound | CheckFailed

  /** The store after an entry was written, and the answer. */
  function StoreAfter(db: Store, e: LoggedEntry): Store {
    if Key(e.sequenceNumber) in db then db else db[Key(e.sequenceNumber) := e]
  }

  function StoreAnswer(db: Store, e: LoggedEntry): WriteResult {
    var key := Key(e.sequenceNumber);
    if key in db && db[key] != e then SEQUENCE_NUMBER_ALREADY_IN_USE else OK
  }

  /** A number has the first entry written with it; of an entry with a negative number nothing is kept. */
  function Written(ledger: Ledger, e: LoggedEntry): Ledger {
    if e.sequenceNumber < 0 || e.sequenceNumber in ledger then ledger else ledger[e.sequenceNumber := e]
  }

  /** What a write does to the ledger of a well-formed store. */
  lemma WriteIsLedgerWrite(db: Store, e: LoggedEntry)
    requires WellFormed(db)
    ensures 0 <= e.sequenceNumber ==>
              WellFormed(StoreAfter(db, e)) && LedgerOf(StoreAfter(db, e)) == Written(LedgerOf(db), e)
    ensures 0 <= e.sequenceNumber ==>
              var s, ledger := e.sequenceNumber, LedgerOf(db);
              StoreAnswer(db, e) == if s in ledger && ledger[s] != e then SEQUENCE_NUMBER_ALREADY_IN_USE else OK
  {
    if 0 <= e.sequenceNumber {
      LedgerIsHeld(db);
      HeldAfter(db, LedgerOf(db), e);
      HeldIsLedger(StoreAfter(db, e), Written(LedgerOf(db), e));
    }
  }

  /** A negative number takes the key of 0: harmless if that is taken, fatal to the store if not. */
  lemma NegativeWrite(db: Store, e: LoggedEntry)
    requires WellFormed(db) && e.sequenceNumber < 0
    ensures 0 in LedgerOf(db) ==> StoreAfter(db, e) == db && StoreAnswer(db, e) == SEQUENCE_NUMBER_ALREADY_IN_USE
    ensures 0 !in LedgerOf(db) ==> !Decodes(StoreAfter(db, e)) && StoreAnswer(db, e) == OK
  {
    AllKeysHavePrefix();
    var zero: int64 := 0;
    assert zero in LedgerOf(db) <==> Key(zero) in db;
    KeyRoundTrip(e.sequenceNumber);
  }

  lemma HeldAfter(db: Store, ledger: Ledger, e: LoggedEntry)
    requires WellFormed(db) && IsHeld(db, ledger) && (0 <= e.sequenceNumber || Key(0) in db)
    ensures WellFormed(StoreAfter(db, e)) && IsHeld(StoreAfter(db, e), Written(ledger, e))
    ensures 0 <= e.sequenceNumber ==> (Key(e.sequenceNumber) in db <==> e.sequenceNumber in ledger)
    ensures e.sequenceNumber in ledger ==> ledger[e.sequenceNumber] == db[Key(e.sequenceNumber)]
  {
    if Key(e.sequenceNumber) !in db {
      HeldGrows(db, ledger, e);
    } else if 0 <= e.sequenceNumber {
      NumberOfKey(db, e.sequenceNumber);
    }
  }

  lemma NumberOfKey(db: Store, s: int64)
    requires WellFormed(db) && Key(s) in db && 0 <= s
    ensures HasPrefix(Key(s)) && db[Key(s)].sequenceNumber == s
  {
    AllKeysHavePrefix();
    assert HasPrefix(Key(s));
    KeyRoundTrip(s);
    KeyRoundTrip(db[Key(s)].sequenceNumber);
  }

  // ------------------------------------------------------------------------ whole runs

  /** The store after entries were written one after another. */
  function StoreAll(db: Store, entries: seq<LoggedEntry>): Store {
    if entries == [] then db else StoreAfter(StoreAll(db, entries[..|entries| - 1]), entries[|entries| - 1])
  }

  function AllWritten(ledger: Ledger, entries: seq<LoggedEntry>): Ledger {
    if entries == [] then ledger
    else Written(AllWritten(ledger, entries[..|entries| - 1]), entries[|entries| - 1])
  }

  /** Entry i is the first with the number s. */
  predicate IsFirstWriter(entries: seq<LoggedEntry>, i: nat, s: int) {
    i < |entries| && entries[i].sequenceNumber == s && forall j :: 0 <= j < i ==> entries[j].sequenceNumber != s
  }

  /** What is kept are the first entries of the numbers that are not negative. */
  lemma {:induction false} FirstWriterStays(entries: seq<LoggedEntry>, i: nat, s: int)
    requires IsFirstWriter(entries, i, s) && 0 <= s
    ensures s in AllWritten(map[], entries) && AllWritten(map[], entries)[s] == entries[i]
    decreases |entries|
  {
    var last := |entries| - 1;
    if i == last {
      OnlyWrittenNumbers(entries[..last], s);
    } else {
      FirstWriterStays(entries[..last], i, s);
    }
  }

  lemma {:induction false} OnlyWrittenNumbers(entries: seq<LoggedEntry>, s: int)
    requires forall i :: 0 <= i < |entries| ==> s < 0 || entries[i].sequenceNumber != s
    ensures s !in AllWritten(map[], entries)
  {
    if entries != [] {
      OnlyWrittenNumbers(entries[..|entries| - 1], s);
    }
  }

  /** No negative number comes before the first entry numbered 0. */
  predicate Harmless(entries: seq<LoggedEntry>) {
    forall i :: 0 <= i < |entries| && entries[i].sequenceNumber < 0 ==> HasZero(entries[..i])
  }

  predicate HasZero(entries: seq<LoggedEntry>) {
    exists i :: 0 <= i < |entries| && entries[i].sequenceNumber == 0
  }

  /** Exactly the harmless runs on a new store leave one that can be opened again; its ledger then
      holds what was written. */
  lemma RunOfWrites(entries: seq<LoggedEntry>)
    ensures WellFormed(StoreAll(map[], entries)) <==> Harmless(entries)
    ensures Decodes(StoreAll(map[], entries)) <==> Harmless(entries)
    ensures Harmless(entries) ==> LedgerOf(StoreAll(map[], entries)) == AllWritten(map[], entries)
  {
    var db := StoreAll(map[], entries);
    if Harmless(entries) {
      HarmlessRun(entries);
      WellFormedDecodes(db);
      HeldIsLedger(db, AllWritten(map[], entries));
    } else {
      HarmfulRun(entries);
      AllKeysHavePrefix();
      KeyRoundTrip(0);
    }
  }

  lemma {:induction false} HarmlessRun(entries: seq<LoggedEntry>)
    requires Harmless(entries)
    ensures WellFormed(StoreAll(map[], entries)) && IsHeld(StoreAll(map[], entries), AllWritten(map[], entries))
  {
    if entries != [] {
      var last := |entries| - 1;
      var front := entries[..last];
      HarmlessFront(entries, last);
      HarmlessRun(front);
      if entries[last].sequenceNumber < 0 {
        ZeroIsTaken(front);
      }
      HeldAfter(StoreAll(map[], front), AllWritten(map[], front), entries[last]);
    }
  }

  lemma HarmlessFront(entries: seq<LoggedEntry>, n: nat)
    requires Harmless(entries) && n <= |entries|
    ensures Harmless(entries[..n])
  {
    forall i | 0 <= i < n && entries[..n][i].sequenceNumber < 0 ensures HasZero(entries[..n][..i]) {
      assert entries[..n][..i] == entries[..i];
    }
  }

  lemma {:induction false} ZeroIsTaken(entries: seq<LoggedEntry>)
    requires HasZero(entries)
    ensures Key(0) in StoreAll(map[], entries)
  {
    var last := |entries| - 1;
    if entries[last].sequenceNumber != 0 {
      var i :| 0 <= i < |entries| && entries[i].sequenceNumber == 0;
      assert entries[..last][i] == entries[i];
      ZeroIsTaken(entries[..last]);
    }
  }

  /** A negative number has taken the key of 0, for good. */
  lemma {:induction false} HarmfulRun(entries: seq<LoggedEntry>)
    requires !Harmless(entries)
    ensures Key(0) in StoreAll(map[], entries) && StoreAll(map[], entries)[Key(0)].sequenceNumber < 0
  {
    var last := |entries| - 1;
    var front := entries[..last];
    if Harmless(front) {
      LastIsHarm(entries, last);
      HarmlessWithoutZero(front);
      ZeroIsFree(front);
    } else {
      HarmfulRun(front);
    }
  }

  lemma LastIsHarm(entries: seq<LoggedEntry>, last: nat)
    requires |entries| == last + 1 && Harmless(entries[..last]) && !Harmless(entries)
    ensures entries[last].sequenceNumber < 0 && !HasZero(entries[..last])
  {
    var i :| 0 <= i < |entries| && entries[i].sequenceNumber < 0 && !HasZero(entries[..i]);
    forall k | 0 <= k < last ensures entries[..last][..k] == entries[..k] && entries[..last][k] == entries[k] {
    }
  }

  lemma HarmlessWithoutZero(entries: seq<LoggedEntry>)
    requires Harmless(entries) && !HasZero(entries)
    ensures forall i :: 0 <= i < |entries| ==> 0 < entries[i].sequenceNumber
  {
    forall i | 0 <= i < |entries| ensures 0 < entries[i].sequenceNumber {
      assert HasZero(entries[..i]) ==> HasZero(entries) by {
        assert forall k :: 0 <= k < i ==> entries[..i][k] == entries[k];
      }
    }
  }

  lemma {:induction false} ZeroIsFree(entries: seq<LoggedEntry>)
    requires forall i :: 0 <= i < |entries| ==> 0 < entries[i].sequenceNumber
    ensures Key(0) !in StoreAll(map[], entries)
  {
    if entries != [] {
      var last := |entries| - 1;
      ZeroIsFree(entries[..last]);
      KeyRoundTrip(0);
      KeyRoundTrip(entries[last].sequenceNumber);
    }
  }

  method Open(db: Store) returns (d: LeveldbDatabase, ok: bool)
    ensures fresh(d) && d.db == db
    ensures WellFormed(db) ==> ok && d.Valid()
    ensures ok ==> Decodes(db)
  {
    d := new LeveldbDatabase(db);
    ok := d.BuildIndex();
  }

  method WriteAll(d: LeveldbDatabase, entries: seq<LoggedEntry>, ghost ledger: Ledger) returns (ghost ledger': Ledger)
    requires d.Keeps(ledger)
    modifies d
    ensures d.Keeps(ledger') && d.db == StoreAll(old(d.db), entries)
  {
    ledger' := ledger;
    for i := 0 to |entries|
      invariant d.Keeps(ledger') && d.db == StoreAll(old(d.db), entries[..i])
    {
      assert entries[..i + 1][..i] == entries[..i];
      ledger' := WriteOne(d, entries[i], ledger');
    }
    assert entries[..|entries|] == entries;
  }

  method WriteOne(d: LeveldbDatabase, e: LoggedEntry, ghost ledger: Ledger) returns (ghost ledger': Ledger)
    requires d.Keeps(ledger)
    modifies d
    ensures d.Keeps(ledger') && d.db == StoreAfter(old(d.db), e)
  {
    ledger' := if Key(e.sequenceNumber) in d.db then ledger else ledger[e.sequenceNumber := e];
    var _ := d.CreateSequencedEntry(e, ledger);
  }

  /** A new database, and some writes to it. */
  method WriteNew(entries: seq<LoggedEntry>) returns (d: LeveldbDatabase)
    ensures d.db == StoreAll(map[], entries) && (WellFormed(d.db) ==> d.Valid())
  {
    var ok;
    d, ok := Open(map[]);
    HeldIsLedger(map[], map[]);
    ghost var ledger := WriteAll(d, entries, map[]);
    if WellFormed(d.db) {
      HeldIsLedger(d.db, ledger);
    }
  }

  /** After any writes to a new database, a restart succeeds exactly when they were harmless, and
      then builds the index that was kept. */
  method WriteAndRestart(entries: seq<LoggedEntry>) returns (d: LeveldbDatabase, again: LeveldbDatabase, ok: bool)
    ensures ok <==> Harmless(entries)
    ensures d.db == again.db == StoreAll(map[], entries)
    ensures ok ==> d.Valid() && again.Valid() && LedgerOf(d.db) == AllWritten(map[], entries)
    ensures ok ==> again.contiguousSize == d.contiguousSize
    ensures ok ==> again.sparseEntries == d.sparseEntries && again.idByHash == d.idByHash
  {
    d := WriteNew(entries);
    again, ok := Open(d.db);
    RunOfWrites(entries);
    if ok {
      IndexIsUnique(LedgerOf(d.db), d.contiguousSize, d.sparseEntries, d.idByHash,
                    again.contiguousSize, again.sparseEntries, again.idByHash);
    }
  }

  /** One entry with a negative number, and the database cannot be opened again. */
  method NegativeNumberIsFatal(logged: LoggedEntry) returns (d: LeveldbDatabase, again: LeveldbDatabase, ok: bool)
    requires logged.sequenceNumber < 0
    ensures d.db == map[Key(0) := logged] && !ok
  {
    assert [logged][..0] == [];
    assert StoreAll(map[], []) == map[];
    d, again, ok := WriteAndRestart([logged]);
    assert [logged][0] == logged && !HasZero([logged][..0]);
  }

  // ------------------------------------------------------------------------------ scanning

  /** LeveldbDatabase::Iterator, over the store as it was when the scan began. */
  class Iterator {
    const db: Store
    var it: Option<string>

    constructor (db: Store, startIndex: int64)
      ensures this.db == db && IsFirst(db, Key(startIndex), false, it)
    {
      this.db := db;
      it := None;
      new;
      var key := IndexToKey(startIndex);
      it := FirstKey(db, key, false);
    }

    /** Nothing where GetNextEntry returns false; CheckFailed where it aborts. */
    method GetNextEntry() returns (r: LookupResult)
      requires it.Some? ==> it.value in db
      modifies this
      ensures it.Some? ==> it.value in db
      ensures old(it).None? || !HasPrefix(old(it).value) ==> r == NotFound && it == old(it)
      ensures old(it).Some? && HasPrefix(old(it).value) ==>
                var e := db[old(it).value];
                if Index(old(it).value) == Some(e.sequenceNumber)
                then r == Found(e) && IsFirst(db, old(it).value, true, it)
                else r == CheckFailed
    {
      if it == None || !HasPrefix(it.value) {
        return NotFound;
      }
      var number := KeyToIndex(it.value);
      var entry := db[it.value];
      if number != Some(entry.sequenceNumber) {
        return CheckFailed;
      }
      it := FirstKey(db, it.value, true);
      return Found(entry);
    }
  }

  /** The entries between `from` and the place of an iterator, and no others. */
  ghost predicate Scanned(db: Store, from: string, it: Option<string>, entries: seq<LoggedEntry>) {
    && (it.Some? ==> it.value in db && FromOn(it.value, from, false))
    && Increasing(entries)
    && (forall k :: k in db && HasPrefix(k) && FromOn(k, from, false) && (it.None? || Before(k, it.value)) ==>
          db[k] in entries)
    && (forall i :: 0 <= i < |entries| ==> IsStored(db, from, it, entries[i]))
  }

  ghost predicate IsStored(db: Store, from: string, it: Option<string>, e: LoggedEntry) {
    var k := Key(e.sequenceNumber);
    0 <= e.sequenceNumber && k in db && db[k] == e && FromOn(k, from, false) && (it.Some? ==> Before(k, it.value))
  }

  ghost predicate Increasing(entries: seq<LoggedEntry>) {
    forall i, j :: 0 <= i < j < |entries| ==> entries[i].sequenceNumber < entries[j].sequenceNumber
  }

  lemma ScanStarts(db: Store, from: string, it: Option<string>)
    requires IsFirst(db, from, false, it)
    ensures Scanned(db, from, it, [])
  {
    forall k | k in db && FromOn(k, from, false) ensures it.Some? && !Before(k, it.value) {
    }
  }

  lemma ScanGoesOn(db: Store, from: string, key: string, next: Option<string>, entries: seq<LoggedEntry>)
    requires WellFormed(db) && key in db && HasPrefix(key)
    requires Scanned(db, from, Some(key), entries) && IsFirst(db, key, true, next)
    ensures Scanned(db, from, next, entries + [db[key]])
    ensures key !in Upto(db, Some(key)) && Upto(db, next) == Upto(db, Some(key))[key := db[key]]
  {
    NextPlace(db, key, next);
    BeforeTotal(key, key);
    var e, all := db[key], entries + [db[key]];
    assert key == Key(e.sequenceNumber);
    forall k | k in db && HasPrefix(k) && FromOn(k, from, false) && (next.None? || Before(k, next.value))
      ensures db[k] in all
    {
      BeforeTotal(k, key);
      assert db[k] in entries || k == key;
      assert all[|entries|] == e;
    }
    if next.Some? && Before(from, key) {
      BeforeTransitive(from, key, next.value);
    }
    forall i | 0 <= i < |all| ensures IsStored(db, from, next, all[i]) {
      if i < |entries| {
        assert IsStored(db, from, Some(key), entries[i]);
        if next.Some? {
          BeforeTransitive(Key(entries[i].sequenceNumber), key, next.value);
        }
      }
    }
    forall i | 0 <= i < |entries| ensures entries[i].sequenceNumber < e.sequenceNumber {
      assert IsStored(db, from, Some(key), entries[i]);
      KeysInOrder(entries[i].sequenceNumber, e.sequenceNumber);
    }
  }

  /** What a whole scan gives: the entries from its start on, by number. */
  ghost predicate IsScan(ledger: Ledger, start: int, entries: seq<LoggedEntry>) {
    && Increasing(entries)
    && (forall s :: s in ledger && start <= s ==> ledger[s] in entries)
    && (forall i :: 0 <= i < |entries| ==>
          var s := entries[i].sequenceNumber; start <= s && s in ledger && ledger[s] == entries[i])
  }

  lemma ScanEnds(db: Store, start: int64, it: Option<string>, entries: seq<LoggedEntry>)
    requires WellFormed(db) && Scanned(db, Key(start), it, entries)
    requires it.Some? ==> !HasPrefix(it.value)
    ensures IsScan(LedgerOf(db), start, entries)
  {
    var from: int64 := if start < 0 then 0 else start;
    assert Key(start) == Key(from);
    AllKeysHavePrefix();
    KeysDiffer();
    KeyIsAfterPrefix(start);
    if it.Some? {
      BeforeTransitive(ENTRY_PREFIX, Key(start), it.value);
      NoEntriesAfter(db, it.value);
    }
    forall s | s in LedgerOf(db) && start <= s ensures LedgerOf(db)[s] in entries {
      var s': int64 := s;
      KeysInOrder(from, s');
      assert Key(s') in db;
    }
    forall i | 0 <= i < |entries|
      ensures var s := entries[i].sequenceNumber; start <= s && s in LedgerOf(db) && LedgerOf(db)[s] == entries[i]
    {
      assert IsStored(db, Key(start), it, entries[i]);
      KeysInOrder(from, entries[i].sequenceNumber);
    }
  }

  lemma KeyIsAfterPrefix(s: int64)
    ensures Before(ENTRY_PREFIX, Key(s))
  {
    PrefixComesFirst(ENTRY_PREFIX, Key(s));
    BeforeTotal(ENTRY_PREFIX, Key(s));
  }

  /** A whole scan: every entry from startIndex on, once, in the order of numbers. */
  method Scan(d: LeveldbDatabase, startIndex: int64) returns (entries: seq<LoggedEntry>, r: LookupResult)
    requires d.Valid()
    ensures r == NotFound && IsScan(LedgerOf(d.db), startIndex, entries)
  {
    var scan := new Iterator(d.db, startIndex);
    ghost var end;
    entries, r, end := ScanOn(scan, Key(startIndex));
    ScanEnds(d.db, startIndex, end, entries);
  }

  method ScanOn(scan: Iterator, ghost from: string)
      returns (entries: seq<LoggedEntry>, r: LookupResult, ghost end: Option<string>)
    requires WellFormed(scan.db) && IsFirst(scan.db, from, false, scan.it)
    modifies scan
    ensures r == NotFound && Scanned(scan.db, from, end, entries) && (end.Some? ==> !HasPrefix(end.value))
  {
    ghost var db := scan.db;
    entries := [];
    ScanStarts(db, from, scan.it);
    WellFormedDecodes(db);
    while true
      invariant Scanned(db, from, scan.it, entries)
      decreases |db.Keys - Upto(db, scan.it).Keys|
    {
      end := scan.it;
      r := scan.GetNextEntry();
      if !r.Found? {
        return;
      }
      ScanGoesOn(db, from, end.value, scan.it, entries);
      entries := entries + [r.entry];
    }
  }
}
