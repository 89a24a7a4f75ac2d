/** Printing and parsing of integers: base/strings/numbers.cc, and ConsumeLeadingDigits of
    base/strings/str_util.cc. */
module Numbers {
  import opened Bytes
  import opened Arithmetic
  import opened Digits

  const INT32_MAX := 0x7fff_ffff
  const UINT32_MAX := 0xffff_ffff
  const INT64_MIN: int64 := -0x8000_0000_0000_0000
  const INT64_MAX: int64 := 0x7fff_ffff_ffff_ffff
  const UINT64_MAX: uint64 := 0xffff_ffff_ffff_ffff
  const UINT32_RANGE := 0x1_0000_0000
  const UINT64_RANGE := 0x1_0000_0000_0000_0000

  /** isspace, in the C locale. */
  predicate IsSpace(c: char) {
    c == ' ' || '\t' <= c <= '\r'
  }

  function SkipSpaces(s: string): (r: string)
    ensures |r| <= |s| && (r != "" ==> !IsSpace(r[0]))
  {
    if s != "" && IsSpace(s[0]) then SkipSpaces(s[1..]) else s
  }

  // --------------------------------------------------------------- what a numeral is

  /** A minus sign is taken only where `signed`. */
  function Negative(s: string, signed: bool): bool {
    var rest := SkipSpaces(s);
    signed && rest != "" && rest[0] == '-'
  }

  /** What follows spaces and sign. */
  function Body(s: string, signed: bool): string {
    var rest := SkipSpaces(s);
    if Negative(s, signed) then rest[1..] else rest
  }

  /** Spaces, a sign where allowed, digits, spaces. */
  predicate IsNumeral(s: string, signed: bool) {
    var body := Body(s, signed);
    LeadingDigits(body) > 0 && SkipSpaces(body[LeadingDigits(body)..]) == ""
  }

  /** The value of the digits. */
  function Value(s: string, signed: bool): int {
    var body := Body(s, signed);
    var v := Decimal(body[..LeadingDigits(body)]);
    if Negative(s, signed) then 0 - v else v
  }

  function DigitOf(c: char): nat
    requires IsNum(c)
  {
    c as int - '0' as int
  }

  lemma DecimalSnoc(s: string, c: char)
    requires IsNum(c) && forall i :: 0 <= i < |s| ==> IsNum(s[i])
    ensures forall i :: 0 <= i < |s + [c]| ==> IsNum((s + [c])[i])
    ensures Decimal(s + [c]) == 10 * Decimal(s) + DigitOf(c)
  {
    assert (s + [c])[..|s|] == s;
  }

  lemma OneMoreDigit(body: string, n: nat)
    requires n < LeadingDigits(body)
    ensures IsNum(body[n]) && Decimal(body[..n + 1]) == 10 * Decimal(body[..n]) + DigitOf(body[n])
  {
    assert body[..n] + [body[n]] == body[..n + 1];
    DecimalSnoc(body[..n], body[n]);
  }

  /** A number does not shrink as digits are read. */
  lemma SoFarIsLess(body: string, n: nat)
    requires n <= LeadingDigits(body)
    ensures Decimal(body[..n]) <= Decimal(body[..LeadingDigits(body)])
  {
    var k := LeadingDigits(body);
    assert body[..k] == body[..n] + body[n..k];
    DecimalGrows(body[..n], body[n..k]);
  }

  lemma DigitsEnd(body: string, n: nat)
    requires n <= LeadingDigits(body) && (n == |body| || !IsNum(body[n]))
    ensures n == LeadingDigits(body)
  {
  }

  /** Blank, tab, newline, vertical tab, form feed and return. */
  predicate IsBlank(c: char) { c as int in {9, 10, 11, 12, 13, 32} }

  predicate AreBlanks(s: string) { forall i :: 0 <= i < |s| ==> IsBlank(s[i]) }

  predicate AreDigits(s: string) { forall i :: 0 <= i < |s| ==> 48 <= s[i] as int <= 57 }

  /** Blanks up to a, a minus sign up to b if one is there and allowed, digits up to c, blanks. */
  predicate IsSpelled(s: string, signed: bool, a: nat, b: nat, c: nat) {
    && a <= b < c <= |s|
    && AreBlanks(s[..a]) && AreDigits(s[b..c]) && AreBlanks(s[c..])
    && (b == a || (b == a + 1 && signed && s[a] as int == 45))
  }

  lemma {:induction false} SkipTo(s: string, a: nat)
    requires a <= |s| && AreBlanks(s[..a]) && (a < |s| ==> !IsBlank(s[a]))
    ensures SkipSpaces(s) == s[a..]
  {
    if a > 0 {
      assert IsBlank(s[..a][0]);
      assert s[1..][..a - 1] == s[..a][1..];
      SkipTo(s[1..], a - 1);
    }
  }

  lemma {:induction false} SkippedTo(s: string) returns (a: nat)
    ensures a <= |s| && SkipSpaces(s) == s[a..] && AreBlanks(s[..a])
  {
    if s != "" && IsSpace(s[0]) {
      var k := SkippedTo(s[1..]);
      a := k + 1;
      assert forall i :: 0 < i < a ==> s[..a][i] == s[1..][..k][i - 1];
    } else {
      a := 0;
    }
  }

  /** A text that is so spelled is a numeral of the value of its digits. */
  lemma SpelledIsNumeral(s: string, signed: bool, a: nat, b: nat, c: nat)
    requires IsSpelled(s, signed, a, b, c)
    ensures AreNums(s[b..c])
    ensures IsNumeral(s, signed) && Value(s, signed) == if a < b then 0 - Decimal(s[b..c]) else Decimal(s[b..c])
  {
    BodyIs(s, signed, a, b, c);
    DigitsUpTo(s, b, c);
    BodyIsNumber(s, signed, s[b..], s[b..c], s[c..]);
  }

  lemma BodyIs(s: string, signed: bool, a: nat, b: nat, c: nat)
    requires IsSpelled(s, signed, a, b, c)
    ensures Body(s, signed) == s[b..] && (Negative(s, signed) <==> a < b)
  {
    assert s[b] == s[b..c][0];
    SkipTo(s, a);
  }

  lemma BodyIsNumber(s: string, signed: bool, body: string, digits: string, rest: string)
    requires Body(s, signed) == body == digits + rest && LeadingDigits(body) == |digits| > 0 && AreBlanks(rest)
    ensures AreNums(digits) && IsNumeral(s, signed)
    ensures Value(s, signed) == if Negative(s, signed) then 0 - Decimal(digits) else Decimal(digits)
  {
    assert body[..|digits|] == digits && body[|digits|..] == rest;
    SkipTo(rest, |rest|);
  }

  predicate AreNums(s: string) { forall i :: 0 <= i < |s| ==> IsNum(s[i]) }

  lemma DigitsUpTo(s: string, b: nat, c: nat)
    requires b < c <= |s| && AreDigits(s[b..c]) && AreBlanks(s[c..])
    ensures LeadingDigits(s[b..]) == c - b
  {
    assert forall i :: 0 <= i < c - b ==> s[b..][i] == s[b..c][i];
    if c < |s| {
      assert s[b..][c - b] == s[c..][0];
    }
  }

  /** ... and every numeral is so spelled. */
  lemma NumeralIsSpelled(s: string, signed: bool) returns (a: nat, b: nat, c: nat)
    requires IsNumeral(s, signed)
    ensures IsSpelled(s, signed, a, b, c)
  {
    a := SkippedTo(s);
    b := if Negative(s, signed) then a + 1 else a;
    var body := Body(s, signed);
    assert body == s[b..];
    var n := LeadingDigits(body);
    c := b + n;
    assert body[n..] == s[c..];
    var d := SkippedTo(s[c..]);
    assert s[c..][..d] == s[c..];
    assert forall i :: 0 <= i < n ==> s[b..c][i] == body[i];
  }

  // ------------------------------------------------------------------------- parsing

  /** C++ division, which truncates. */
  function Quotient(a: int, b: int): int
    requires 0 < b
  {
    if a >= 0 then a / b else -(-a / b)
  }

  /** The loop of safe_strto64 for numbers that are not negative, and that of safe_strtou64: no
      product or sum leaves 0..limit. */
  method ReadUp(body: string, limit: uint64) returns (ok: bool, result: uint64, left: string)
    requires body != "" && IsNum(body[0]) && 9 <= limit
    ensures ok <==> Decimal(body[..LeadingDigits(body)]) <= limit
    ensures ok ==> result == Decimal(body[..LeadingDigits(body)]) && left == body[LeadingDigits(body)..]
    ensures result <= limit
  {
    result, left := 0, body;
    ghost var n := 0;
    while true
      invariant n < LeadingDigits(body) && left == body[n..] && result == Decimal(body[..n]) <= limit
      decreases |left|
    {
      var digit := DigitOf(left[0]);
      OneMoreDigit(body, n);
      if (limit - digit) / 10 < result {
        SoFarIsLess(body, n + 1);
        return false, result, left;
      }
      assert result * 10 <= limit;
      result := result * 10 + digit;
      left := left[1..];
      n := n + 1;
      if left == "" || !IsNum(left[0]) {
        DigitsEnd(body, n);
        return true, result, left;
      }
    }
  }

  /** The loop of safe_strto64 for negative numbers: no product or difference leaves int64. */
  method ReadDown(body: string) returns (ok: bool, result: int64, left: string)
    requires body != "" && IsNum(body[0])
    ensures ok <==> 0 - Decimal(body[..LeadingDigits(body)]) >= INT64_MIN
    ensures ok ==> result == 0 - Decimal(body[..LeadingDigits(body)]) && left == body[LeadingDigits(body)..]
  {
    result, left := 0, body;
    ghost var n := 0;
    while true
      invariant n < LeadingDigits(body) && left == body[n..] && result == 0 - Decimal(body[..n]) >= INT64_MIN
      decreases |left|
    {
      var digit := DigitOf(left[0]);
      OneMoreDigit(body, n);
      if Quotient(INT64_MIN + digit, 10) > result {
        SoFarIsLess(body, n + 1);
        return false, result, left;
      }
      assert result * 10 >= INT64_MIN;
      result := result * 10 - digit;
      left := left[1..];
      n := n + 1;
      if left == "" || !IsNum(left[0]) {
        DigitsEnd(body, n);
        return true, result, left;
      }
    }
  }

  method SafeStrto64(str: string) returns (ok: bool, value: int64)
    ensures ok <==> IsNumeral(str, true) && -0x8000_0000_0000_0000 <= Value(str, true) <= 0x7fff_ffff_ffff_ffff
    ensures ok ==> value == Value(str, true)
  {
    value := 0;
    var s := SkipSpaces(str);
    var negative := s != "" && s[0] == '-';
    if negative {
      s := s[1..];
    }
    if s == "" || !IsNum(s[0]) {
      return false, value;
    }
    if negative {
      ok, value, s := ReadDown(s);
    } else {
      var result;
      ok, result, s := ReadUp(s, INT64_MAX);
      value := result;
    }
    ok := ok && SkipSpaces(s) == "";
  }

  method SafeStrtou64(str: string) returns (ok: bool, value: uint64)
    ensures ok <==> IsNumeral(str, false) && Value(str, false) <= 0xffff_ffff_ffff_ffff
    ensures ok ==> value == Value(str, false)
  {
    var s := SkipSpaces(str);
    if s == "" || !IsNum(s[0]) {
      return false, 0;
    }
    ok, value, s := ReadUp(s, UINT64_MAX);
    ok := ok && SkipSpaces(s) == "";
  }

  /** The loop of the 32-bit parsers: the result is checked after each digit, and fits int64. */
  method ReadSmall(body: string, limit: int64) returns (ok: bool, result: int64, left: string)
    requires body != "" && IsNum(body[0]) && 9 <= limit <= UINT32_MAX
    ensures ok <==> Decimal(body[..LeadingDigits(body)]) <= limit
    ensures ok ==> result == Decimal(body[..LeadingDigits(body)]) && left == body[LeadingDigits(body)..]
  {
    result, left := 0, body;
    ghost var n := 0;
    while true
      invariant n < LeadingDigits(body) && left == body[n..] && 0 <= result == Decimal(body[..n]) <= limit
      decreases |left|
    {
      OneMoreDigit(body, n);
      result := result * 10 + DigitOf(left[0]);
      if result > limit {
        SoFarIsLess(body, n + 1);
        return false, result, left;
      }
      left := left[1..];
      n := n + 1;
      if left == "" || !IsNum(left[0]) {
        DigitsEnd(body, n);
        return true, result, left;
      }
    }
  }

  method SafeStrto32(str: string) returns (ok: bool, value: int64)
    ensures ok <==> IsNumeral(str, true) && -0x8000_0000 <= Value(str, true) <= 0x7fff_ffff
    ensures ok ==> value == Value(str, true)
  {
    value := 0;
    var s := SkipSpaces(str);
    var negative := s != "" && s[0] == '-';
    var vmax: int64 := if negative then INT32_MAX + 1 else INT32_MAX;
    if negative {
      s := s[1..];
    }
    if s == "" || !IsNum(s[0]) {
      return false, value;
    }
    var result;
    ok, result, s := ReadSmall(s, vmax);
    ok := ok && SkipSpaces(s) == "";
    if ok {
      value := if negative then -result else result;
    }
  }

  method SafeStrtou32(str: string) returns (ok: bool, value: int64)
    ensures ok <==> IsNumeral(str, false) && Value(str, false) <= 0xffff_ffff
    ensures ok ==> value == Value(str, false)
  {
    var s := SkipSpaces(str);
    if s == "" || !IsNum(s[0]) {
      return false, 0;
    }
    ok, value, s := ReadSmall(s, UINT32_MAX);
    ok := ok && SkipSpaces(s) == "";
  }

  // ------------------------------------------------------------------------- printing

  function DigitChar(d: nat): char
    requires d < 10
  {
    ('0' as int + d) as char
  }

  /** The digits of n, without leading zeros. */
  function Numeral(n: nat): (r: string)
    ensures r != "" && forall i :: 0 <= i < |r| ==> IsNum(r[i])
  {
    if n < 10 then [DigitChar(n)] else Numeral(n / 10) + [DigitChar(n % 10)]
  }

  function Printed(v: int): string {
    if v < 0 then "-" + Numeral(0 - v) else Numeral(v)
  }

  function Reversed(s: string): string {
    if s == "" then "" else [s[|s| - 1]] + Reversed(s[..|s| - 1])
  }

  lemma {:induction false} ReversedAt(s: string)
    ensures |Reversed(s)| == |s| && forall i :: 0 <= i < |s| ==> Reversed(s)[i] == s[|s| - 1 - i]
  {
    if s != "" {
      ReversedAt(s[..|s| - 1]);
    }
  }

  /** std::reverse. */
  method Reverse(buffer: array<char>, start: nat, end: nat)
    requires start <= end <= buffer.Length
    modifies buffer
    ensures buffer[start..end] == Reversed(old(buffer[start..end]))
    ensures forall k :: 0 <= k < buffer.Length && !(start <= k < end) ==> buffer[k] == old(buffer[k])
  {
    var lo: nat, hi: nat := start, end;
    ghost var before := buffer[..];
    while lo + 1 < hi
      invariant Turned(buffer[..], before, start, end, lo, hi)
    {
      hi := hi - 1;
      buffer[lo], buffer[hi] := buffer[hi], buffer[lo];
      lo := lo + 1;
    }
    ReversedAt(before[start..end]);
    AllTurned(buffer[..], before, start, end, lo, hi);
  }

  /** Outside lo..hi the places from start to end have changed sides. */
  ghost predicate Turned(now: string, before: string, start: nat, end: nat, lo: nat, hi: nat) {
    && |now| == |before| && start <= lo <= hi + 1 && hi <= end <= |now| && lo - start == end - hi
    && (forall k :: 0 <= k < |now| && (k < start || lo <= k < hi || end <= k) ==> now[k] == before[k])
    && (forall k :: start <= k < lo || hi <= k < end ==> now[k] == before[start + end - 1 - k])
  }

  lemma AllTurned(now: string, before: string, start: nat, end: nat, lo: nat, hi: nat)
    requires Turned(now, before, start, end, lo, hi) && hi <= lo + 1 && start <= end
    ensures forall k :: 0 <= k < end - start ==> now[start..end][k] == before[start..end][end - start - 1 - k]
    ensures forall k :: 0 <= k < |now| && !(start <= k < end) ==> now[k] == before[k]
  {
  }

  /** FastUInt64ToBufferLeft, and FastUInt32ToBufferLeft: the digits and a NUL. */
  method FastUIntToBufferLeft(i: uint64, buffer: array<char>, start: nat) returns (end: nat)
    requires start + |Numeral(i)| < buffer.Length
    modifies buffer
    ensures end == start + |Numeral(i)| && buffer[start..end] == Numeral(i) && buffer[end] == '\0'
    ensures forall k :: 0 <= k < buffer.Length && !(start <= k <= end) ==> buffer[k] == old(buffer[k])
  {
    end := PutDigits(i, buffer, start);
    buffer[end] := '\0';
    Reverse(buffer, start, end);
    ReversedTwice(Numeral(i));
  }

  lemma ReversedTwice(s: string)
    ensures Reversed(Reversed(s)) == s
  {
    ReversedAt(s);
    ReversedAt(Reversed(s));
  }

  /** The loop, lowest digit first. */
  method PutDigits(i: uint64, buffer: array<char>, start: nat) returns (end: nat)
    requires start + |Numeral(i)| < buffer.Length
    modifies buffer
    ensures end == start + |Numeral(i)| && buffer[start..end] == Reversed(Numeral(i))
    ensures forall k :: 0 <= k < buffer.Length && !(start <= k < end) ==> buffer[k] == old(buffer[k])
  {
    var left: nat := i;
    end := start;
    var more := true;
    while more
      invariant DigitsPut(i, left, more, buffer, start, end)
      invariant forall k :: 0 <= k < buffer.Length && !(start <= k < end) ==> buffer[k] == old(buffer[k])
      decreases more, left
    {
      end := PutDigit(i, left, buffer, start, end);
      left := left / 10;
      more := left > 0;
    }
  }

  /** Where the loop is: the low digits of i are in the buffer, those of left are not. */
  ghost predicate DigitsPut(i: nat, left: nat, more: bool, buffer: array<char>, start: nat, end: nat)
    reads buffer
  {
    && start <= end <= buffer.Length && start + |Numeral(i)| < buffer.Length
    && end + (if more then |Numeral(left)| else 0) == start + |Numeral(i)|
    && Reversed(Numeral(i)) == buffer[start..end] + if more then Reversed(Numeral(left)) else ""
  }

  lemma OneMorePut(all: string, done: string, digit: char, rest: string)
    requires all == done + ([digit] + rest)
    ensures all == (done + [digit]) + rest
  {
  }

  method PutDigit(ghost i: nat, left: nat, buffer: array<char>, start: nat, end: nat) returns (next: nat)
    requires DigitsPut(i, left, true, buffer, start, end)
    modifies buffer
    ensures next == end + 1 && DigitsPut(i, left / 10, left / 10 > 0, buffer, start, next)
    ensures forall k :: 0 <= k < buffer.Length && k != end ==> buffer[k] == old(buffer[k])
  {
    LastDigit(left);
    var digit := DigitChar(left % 10);
    OneMorePut(Reversed(Numeral(i)), buffer[start..end], digit, if left / 10 > 0 then Reversed(Numeral(left / 10)) else "");
    ghost var done := buffer[start..end];
    buffer[end] := digit;
    next := end + 1;
    assert buffer[start..next] == done + [digit];
  }

  lemma LastDigit(n: nat)
    ensures Reversed(Numeral(n)) == [DigitChar(n % 10)] + if n < 10 then "" else Reversed(Numeral(n / 10))
    ensures n >= 10 ==> |Numeral(n)| == 1 + |Numeral(n / 10)|
  {
    if n >= 10 {
      var front := Numeral(n / 10);
      assert Numeral(n)[..|front|] == front;
    } else {
      assert [DigitChar(n)][..0] == "";
    }
  }

  method FastInt32ToBufferLeft(i: int32, buffer: array<char>) returns (end: nat)
    requires |Printed(i)| < buffer.Length
    modifies buffer
    ensures IsPrinted(i, buffer, end)
    ensures forall k :: end < k < buffer.Length ==> buffer[k] == old(buffer[k])
  {
    end := FastIntToBufferLeft(i, UINT32_RANGE, buffer);
  }

  method FastInt64ToBufferLeft(i: int64, buffer: array<char>) returns (end: nat)
    requires |Printed(i)| < buffer.Length
    modifies buffer
    ensures IsPrinted(i, buffer, end)
    ensures forall k :: end < k < buffer.Length ==> buffer[k] == old(buffer[k])
  {
    end := FastIntToBufferLeft(i, UINT64_RANGE, buffer);
  }

  /** The number and a NUL; `end` is at the NUL. */
  ghost predicate IsPrinted(i: int, buffer: array<char>, end: nat)
    reads buffer
  {
    end < buffer.Length && buffer[..end] == Printed(i) && buffer[end] == '\0'
  }

  /** The body of both: u is `i` converted to the unsigned type of that range, and its negation
      is modulo the range. */
  method FastIntToBufferLeft(i: int, range: int, buffer: array<char>) returns (end: nat)
    requires range <= UINT64_RANGE && -range <= 2 * i < range
    requires |Printed(i)| < buffer.Length
    modifies buffer
    ensures IsPrinted(i, buffer, end)
    ensures forall k :: end < k < buffer.Length ==> buffer[k] == old(buffer[k])
  {
    var u: int, start := Unsigned(i, range), 0;
    if i < 0 {
      buffer[0] := '-';
      start := 1;
      u := Unsigned(0 - u, range);
    }
    ModularNegation(i, range);
    end := FastUIntToBufferLeft(u, buffer, start);
    assert buffer[..end] == buffer[..start] + buffer[start..end];
  }

  /** Conversion to the unsigned type of that range. */
  function Unsigned(v: int, range: int): (u: nat)
    requires 0 < range
    ensures u < range
  {
    v % range
  }

  lemma ModularNegation(i: int, range: int)
    requires -range <= 2 * i < range
    ensures if i < 0 then Unsigned(0 - Unsigned(i, range), range) == 0 - i else Unsigned(i, range) == i
  {
    if i < 0 {
      DivModIs(i, range, -1, range + i);
      if i + range != 0 {
        DivModIs(0 - (range + i), range, -1, 0 - i);
      }
    } else {
      DivModIs(i, range, 0, i);
    }
  }

  // ------------------------------------------------------------------------- round trip

  lemma {:induction false} NumeralIsDecimal(n: nat)
    ensures Decimal(Numeral(n)) == n
  {
    if n >= 10 {
      NumeralIsDecimal(n / 10);
      DecimalSnoc(Numeral(n / 10), DigitChar(n % 10));
    } else {
      assert [DigitChar(n)][..0] == "";
    }
  }

  /** A numeral that is printed has no zero in front, unless it is that of 0. */
  lemma {:induction false} NoZeroInFront(n: nat)
    ensures Numeral(n)[0] == '0' <==> n == 0
    ensures |Numeral(n)| == 1 <==> n < 10
  {
    if n >= 10 {
      NoZeroInFront(n / 10);
    }
  }

  lemma PrintedHasSign(n: nat)
    requires 0 < n
    ensures Printed(0 - n) == [45 as char] + Printed(n)
  {
  }

  /** Parsing what was printed gives the number back, for every number and either parser. */
  lemma PrintedIsParsed(v: int, signed: bool)
    requires signed || 0 <= v
    ensures IsNumeral(Printed(v), signed) && Value(Printed(v), signed) == v
  {
    var digits := Numeral(if v < 0 then 0 - v else v);
    NumeralIsDecimal(if v < 0 then 0 - v else v);
    DigitsOf(digits, "");
    assert digits + "" == digits;
    assert digits[..|digits|] == digits;
    assert Body(Printed(v), signed) == digits;
  }

  // --------------------------------------------------------------- ConsumeLeadingDigits

  /** The test for overflow: the wrapped product and sum, divided by 8, is below the number
      before exactly when they do not fit. */
  lemma OverflowTest(v: uint64, digit: nat)
    requires digit < 10
    ensures (v * 10 + digit) % UINT64_RANGE / 8 < v <==> UINT64_MAX < v * 10 + digit
  {
    var whole := v * 10 + digit;
    var k := whole / UINT64_RANGE;
    assert whole == UINT64_RANGE * k + whole % UINT64_RANGE;
    assert k <= 9;
  }

  method ConsumeLeadingDigits(s: string) returns (ok: bool, val: uint64, left: string)
    ensures ok <==> LeadingDigits(s) > 0 && Decimal(s[..LeadingDigits(s)]) <= 0xffff_ffff_ffff_ffff
    ensures ok ==> val == Decimal(s[..LeadingDigits(s)]) && left == s[LeadingDigits(s)..]
    ensures !ok ==> left == s
  {
    var p := 0;
    val := 0;
    while p < |s|
      invariant p <= LeadingDigits(s) && val == Decimal(s[..p])
    {
      if !IsNum(s[p]) {
        break;
      }
      MoreDigits(s, p);
      OneMoreDigit(s, p);
      var newV := (val * 10 + DigitOf(s[p])) % UINT64_RANGE;
      OverflowTest(val, DigitOf(s[p]));
      if newV / 8 < val {
        SoFarIsLess(s, p + 1);
        return false, val, s;
      }
      val := newV;
      p := p + 1;
    }
    DigitsEnd(s, p);
    ok := p > 0;
    left := s[p..];
  }

  lemma MoreDigits(s: string, p: nat)
    requires p <= LeadingDigits(s) && p < |s| && IsNum(s[p])
    ensures p < LeadingDigits(s)
  {
  }
}
