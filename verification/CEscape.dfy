/** CEscape and CUnescape of base/strings/str_util.cc, in the C locale.  The destination of
    CUnescapeInternal is an array as long as the source: one of its own or the source itself. */
module CEscape {
  import opened Bytes
  import opened Options

  const BACKSLASH: byte := 92
  const UINT32_RANGE := 0x1_0000_0000

  function Code(c: char): byte
    requires c < 256 as char
  {
    c as int
  }

  predicate IsPrint(c: byte) { 32 <= c < 127 }

  predicate IsOctal(c: byte) { 48 <= c < 56 }

  predicate IsHex(c: byte) { 48 <= c < 58 || 97 <= c < 103 || 65 <= c < 71 }

  /** hex_digit_to_int, for hexadecimal digits. */
  function HexValue(c: byte): (v: nat)
    requires IsHex(c)
    ensures v < 16
  {
    (if c > 57 then c + 9 else c) % 16
  }

  // -------------------------------------------------------------------------- escaping

  function EscapedByte(c: byte): seq<byte> {
    if c == 10 then [BACKSLASH, Code('n')]
    else if c == 13 then [BACKSLASH, Code('r')]
    else if c == 9 then [BACKSLASH, Code('t')]
    else if c == 34 || c == 39 || c == BACKSLASH then [BACKSLASH, c]
    else if c >= 128 || !IsPrint(c) then [BACKSLASH, 48 + c / 64, 48 + c % 64 / 8, 48 + c % 8]
    else [c]
  }

  function Escaped(src: seq<byte>): seq<byte> {
    if src == [] then [] else EscapedByte(src[0]) + Escaped(src[1..])
  }

  method Escape(src: seq<byte>) returns (dest: seq<byte>)
    ensures dest == Escaped(src)
  {
    dest := [];
    for i := 0 to |src|
      invariant dest + Escaped(src[i..]) == Escaped(src)
    {
      EscapedFrom(src, i, dest);
      dest := AppendEscaped(dest, src[i]);
    }
  }

  lemma EscapedFrom(src: seq<byte>, i: nat, dest: seq<byte>)
    requires i < |src|
    ensures dest + Escaped(src[i..]) == (dest + EscapedByte(src[i])) + Escaped(src[i + 1..])
  {
    var e, rest := EscapedByte(src[i]), Escaped(src[i + 1..]);
    assert src[i..][1..] == src[i + 1..];
    assert Escaped(src[i..]) == e + rest;
    assert dest + (e + rest) == (dest + e) + rest;
  }

  /** The switch of CEscape. */
  method AppendEscaped(dest: seq<byte>, c: byte) returns (r: seq<byte>)
    ensures r == dest + EscapedByte(c)
  {
    r := dest;
    if c == 10 {
      r := r + [BACKSLASH, Code('n')];
    } else if c == 13 {
      r := r + [BACKSLASH, Code('r')];
    } else if c == 9 {
      r := r + [BACKSLASH, Code('t')];
    } else if c == 34 || c == 39 || c == BACKSLASH {
      r := r + [BACKSLASH, c];
    } else if c >= 128 || !IsPrint(c) {
      r := r + [BACKSLASH];
      r := r + [48 + c / 64];
      r := r + [48 + c % 64 / 8];
      r := r + [48 + c % 8];
    } else {
      r := r + [c];
    }
  }

  // ------------------------------------------------------------------------ unescaping

  datatype Error =
    | EndsWithBackslash | ExceedsByte | EndsWithX | NoHexDigit | UnknownEscape(c: byte)

  /** One byte and how much of the source gives it. */
  datatype Step = Emit(b: byte, used: nat) | Fail(error: Error)

  /** The escapes of one letter. */
  function Letter(c: byte): Option<byte> {
    if c == Code('a') then Some(7)
    else if c == Code('b') then Some(8)
    else if c == Code('f') then Some(12)
    else if c == Code('n') then Some(10)
    else if c == Code('r') then Some(13)
    else if c == Code('t') then Some(9)
    else if c == Code('v') then Some(11)
    else if c == BACKSLASH || c == Code('?') || c == 39 || c == 34 then Some(c)
    else None
  }

  /** The first so many octal digits, up to max. */
  function OctalDigits(s: seq<byte>, max: nat): (n: nat)
    ensures n <= max && n <= |s| && forall i :: 0 <= i < n ==> IsOctal(s[i])
  {
    if max == 0 || s == [] || !IsOctal(s[0]) then 0 else 1 + OctalDigits(s[1..], max - 1)
  }

  function Octal(s: seq<byte>): nat
    requires forall i :: 0 <= i < |s| ==> IsOctal(s[i])
  {
    if s == [] then 0
    else
      var last := s[|s| - 1];
      assert IsOctal(last);
      8 * Octal(s[..|s| - 1]) + (last - 48)
  }

  function HexDigits(s: seq<byte>): (n: nat)
    ensures n <= |s| && forall i :: 0 <= i < n ==> IsHex(s[i])
    ensures n < |s| ==> !IsHex(s[n])
  {
    if s == [] || !IsHex(s[0]) then 0 else 1 + HexDigits(s[1..])
  }

  function Hex(s: seq<byte>): nat
    requires forall i :: 0 <= i < |s| ==> IsHex(s[i])
  {
    if s == [] then 0
    else
      var last := s[|s| - 1];
      assert IsHex(last);
      16 * Hex(s[..|s| - 1]) + HexValue(last)
  }

  /** The first byte that the source stands for. */
  function Next(s: seq<byte>): (r: Step)
    requires s != []
    ensures r.Emit? ==> 0 < r.used <= |s|
  {
    if s[0] != BACKSLASH then Emit(s[0], 1)
    else if |s| == 1 then Fail(EndsWithBackslash)
    else if Letter(s[1]).Some? then Emit(Letter(s[1]).value, 2)
    else if IsOctal(s[1]) then
      var n := OctalDigits(s[1..], 3);
      var v := Octal(s[1..][..n]);
      if v < 256 then Emit(v, 1 + n) else Fail(ExceedsByte)
    else if s[1] == Code('x') || s[1] == Code('X') then
      if |s| == 2 then Fail(EndsWithX)
      else if !IsHex(s[2]) then Fail(NoHexDigit)
      else
        var n := HexDigits(s[2..]);
        var v := Hex(s[2..][..n]) % UINT32_RANGE;
        if v < 256 then Emit(v, 2 + n) else Fail(ExceedsByte)
    else Fail(UnknownEscape(s[1]))
  }

  datatype Result = Ok(bytes: seq<byte>) | Bad(error: Error)

  function Unescaped(s: seq<byte>): Result
    decreases |s|
  {
    if s == [] then Ok([])
    else match Next(s)
      case Fail(error) => Bad(error)
      case Emit(b, used) =>
        match Unescaped(s[used..])
        case Ok(bytes) => Ok([b] + bytes)
        case bad => bad
  }

  function Prepend(bytes: seq<byte>, r: Result): Result {
    match r
    case Ok(more) => Ok(bytes + more)
    case bad => bad
  }

  /** Of the source, p bytes are read and `out` is what they stand for. */
  ghost predicate Along(source: seq<byte>, p: nat, out: seq<byte>) {
    && |out| <= p <= |source|
    && forall u {:trigger Look(u)} :: Look(u) ==> Unescaped(source) == Prepend(out, Unescaped(source[p..]))
  }

  // Look is true; a proof says Look(0) where it needs what is under it.
  predicate Look(u: int) { true }

  /** What is read at p. */
  ghost predicate IsStep(source: seq<byte>, p: nat, step: Step) {
    && p < |source| && (step.Emit? ==> 0 < step.used <= |source| - p)
    && forall u {:trigger Look(u)} :: Look(u) ==> step == Next(source[p..])
  }

  lemma AlongGoesOn(source: seq<byte>, p: nat, out: seq<byte>, step: Step)
    requires Along(source, p, out) && IsStep(source, p, step) && step.Emit?
    ensures Along(source, p + step.used, out + [step.b])
  {
    assert Look(0);
    var s := source[p..];
    assert s[step.used..] == source[p + step.used..];
    PrependOne(out, step.b, Unescaped(s[step.used..]));
  }

  lemma PrependOne(out: seq<byte>, b: byte, r: Result)
    ensures Prepend(out, Prepend([b], r)) == Prepend(out + [b], r)
  {
    if r.Ok? {
      assert out + ([b] + r.bytes) == (out + [b]) + r.bytes;
    }
  }

  lemma AlongFails(source: seq<byte>, p: nat, out: seq<byte>, step: Step)
    requires Along(source, p, out) && IsStep(source, p, step) && step.Fail?
    ensures Unescaped(source) == Bad(step.error)
  {
    assert Look(0);
  }

  lemma AlongEnds(source: seq<byte>, out: seq<byte>)
    requires Along(source, |source|, out)
    ensures Unescaped(source) == Ok(out)
  {
    assert Look(0);
    assert source[|source|..] == [];
  }

  datatype Outcome = Length(n: nat) | Wrong(error: Error)

  /** CUnescapeInternal, also where source and destination are the same. */
  method UnescapeInternal(src: array<byte>, dest: array<byte>) returns (r: Outcome)
    requires src.Length <= dest.Length
    modifies dest
    ensures match Unescaped(old(src[..]))
            case Ok(bytes) => r == Length(|bytes|) && |bytes| <= src.Length && dest[..|bytes|] == bytes
            case Bad(error) => r == Wrong(error)
    ensures dest[src.Length..] == old(dest[src.Length..])
  {
    var p := SkipPlain(src, dest);
    r := UnescapeFrom(src[..], src, dest, p);
  }

  /** The loop of CUnescapeInternal. */
  method UnescapeFrom(ghost source: seq<byte>, src: array<byte>, dest: array<byte>, p0: nat) returns (r: Outcome)
    requires Going(source, src, dest, p0, p0) && src.Length <= dest.Length
    modifies dest
    ensures match Unescaped(source)
            case Ok(bytes) => r == Length(|bytes|) && |bytes| <= src.Length && dest[..|bytes|] == bytes
            case Bad(error) => r == Wrong(error)
    ensures dest[src.Length..] == old(dest[src.Length..])
  {
    var p, d := p0, p0;
    while p < src.Length
      invariant Going(source, src, dest, p, d) && dest[src.Length..] == old(dest[src.Length..])
      decreases src.Length - p
    {
      var error;
      p, d, error := UnescapeOne(source, src, dest, p, d);
      if error.Some? {
        return Wrong(error.value);
      }
    }
    assert Look(0);
    AlongEnds(source, dest[..d]);
    return Length(d);
  }

  /** One round of the loop. */
  method UnescapeOne(ghost source: seq<byte>, src: array<byte>, dest: array<byte>, p: nat, d: nat)
      returns (p': nat, d': nat, error: Option<Error>)
    requires Going(source, src, dest, p, d) && p < src.Length <= dest.Length
    modifies dest
    ensures error.None? ==> p < p' && Going(source, src, dest, p', d')
    ensures error.Some? ==> Unescaped(source) == Bad(error.value)
    ensures dest[src.Length..] == old(dest[src.Length..])
  {
    var step := ReadAt(source, src, dest, p, d);
    if step.Fail? {
      assert Look(0);
      AlongFails(source, p, dest[..d], step);
      return p, d, Some(step.error);
    }
    p', d', error := p + step.used, d + 1, None;
    Put(source, src, dest, p, d, step, p');
  }

  method ReadAt(ghost source: seq<byte>, src: array<byte>, ghost dest: array<byte>, p: nat, ghost d: nat)
      returns (step: Step)
    requires Going(source, src, dest, p, d) && p < src.Length
    ensures IsStep(source, p, step)
  {
    assert Look(0);
    step := ReadOne(src, p);
  }

  /** Where the loop is: the source from p on is still what it was. */
  ghost predicate Going(source: seq<byte>, src: array<byte>, dest: array<byte>, p: nat, d: nat)
    reads src, dest
  {
    && d <= p <= src.Length == |source| && d <= dest.Length
    && forall u {:trigger Look(u)} :: Look(u) ==> src[p..] == source[p..] && Along(source, p, dest[..d])
  }

  /** Where the source is the destination, what has no escapes is in its place already. */
  method SkipPlain(src: array<byte>, dest: array<byte>) returns (p: nat)
    requires src.Length <= dest.Length
    ensures p <= src.Length && (p > 0 ==> src == dest) && Along(src[..], p, dest[..p])
  {
    p := 0;
    while src == dest && p < src.Length && src[p] != BACKSLASH
      invariant p <= src.Length && (p > 0 ==> src == dest) && Along(src[..], p, src[..p])
    {
      AlongGoesOn(src[..], p, src[..p], Emit(src[p], 1));
      assert src[..p] + [src[p]] == src[..p + 1];
      p := p + 1;
    }
    assert p == 0 ==> src[..0] == dest[..0];
  }

  /** `*d++ = b`: what is still to be read stays. */
  method Put(ghost source: seq<byte>, src: array<byte>, dest: array<byte>, ghost p: nat, d: nat, step: Step, ghost p': nat)
    requires Going(source, src, dest, p, d) && src.Length <= dest.Length && step.Emit? && IsStep(source, p, step)
    requires p' == p + step.used
    modifies dest
    ensures Going(source, src, dest, p', d + 1)
    ensures dest[src.Length..] == old(dest[src.Length..])
  {
    assert Look(0);
    AlongGoesOn(source, p, dest[..d], step);
    LaterPart(src[..], source, p, p');
    Store(src, dest, d, p', step.b);
  }

  lemma LaterPart(s: seq<byte>, t: seq<byte>, p: nat, next: nat)
    requires p <= next <= |s| == |t| && s[p..] == t[p..]
    ensures s[next..] == t[next..]
  {
    assert s[next..] == s[p..][next - p..];
    assert t[next..] == t[p..][next - p..];
  }

  method Store(src: array<byte>, dest: array<byte>, d: nat, ghost next: nat, b: byte)
    requires d < next <= src.Length <= dest.Length
    modifies dest
    ensures src[next..] == old(src[next..]) && dest[..d + 1] == old(dest[..d]) + [b]
    ensures dest[src.Length..] == old(dest[src.Length..])
  {
    dest[d] := b;
  }

  /** CUnescape: the destination is as long as the source, and cut to what was written. */
  method Unescape(source: seq<byte>) returns (r: Result)
    ensures r == Unescaped(source)
  {
    var src := new byte[|source|](i requires 0 <= i < |source| => source[i]);
    var dest := new byte[|source|];
    assert src[..] == source;
    var outcome := UnescapeInternal(src, dest);
    match outcome {
      case Length(n) => r := Ok(dest[..n]);
      case Wrong(error) => r := Bad(error);
    }
  }

  /** What the body of the loop reads at p. */
  method ReadOne(src: array<byte>, p: nat) returns (r: Step)
    requires p < src.Length
    ensures r == Next(src[p..])
  {
    var s := src[p..];
    if s[0] != BACKSLASH {
      return Emit(s[0], 1);
    }
    if |s| == 1 {
      return Fail(EndsWithBackslash);
    }
    if Letter(s[1]).Some? {
      return Emit(Letter(s[1]).value, 2);
    } else if IsOctal(s[1]) {
      r := ReadOctal(s);
    } else if s[1] == Code('x') || s[1] == Code('X') {
      if |s| == 2 {
        return Fail(EndsWithX);
      } else if !IsHex(s[2]) {
        return Fail(NoHexDigit);
      }
      r := ReadHex(s);
    } else {
      return Fail(UnknownEscape(s[1]));
    }
  }

  method ReadOctal(s: seq<byte>) returns (r: Step)
    requires |s| > 1 && s[0] == BACKSLASH && IsOctal(s[1])
    ensures r == Next(s)
  {
    var t := s[1..];
    var ch: nat, n := t[0] - 48, 1;
    OctalOne(t);
    if n < |t| && IsOctal(t[n]) {
      OctalMore(t, n);
      ch, n := ch * 8 + (t[n] - 48), n + 1;
      if n < |t| && IsOctal(t[n]) {
        OctalMore(t, n);
        ch, n := ch * 8 + (t[n] - 48), n + 1;
      }
    }
    OctalStops(t, n);
    return if ch > 0xff then Fail(ExceedsByte) else Emit(ch, 1 + n);
  }

  lemma OctalOne(t: seq<byte>)
    requires t != [] && IsOctal(t[0])
    ensures Octal(t[..1]) == t[0] - 48
  {
    assert t[..1][..0] == [];
  }

  lemma OctalMore(t: seq<byte>, n: nat)
    requires n < |t| && forall i :: 0 <= i <= n ==> IsOctal(t[i])
    ensures Octal(t[..n + 1]) == 8 * Octal(t[..n]) + (t[n] - 48)
  {
    assert t[..n + 1][..n] == t[..n];
  }

  lemma {:induction false} OctalRun(t: seq<byte>, n: nat, max: nat)
    requires n <= |t| && n <= max && forall i :: 0 <= i < n ==> IsOctal(t[i])
    requires n == max || n == |t| || !IsOctal(t[n])
    ensures OctalDigits(t, max) == n
  {
    if n > 0 {
      assert forall i :: 0 <= i < n - 1 ==> t[1..][i] == t[i + 1];
      OctalRun(t[1..], n - 1, max - 1);
    }
  }

  lemma OctalStops(t: seq<byte>, n: nat)
    requires 0 < n <= 3 && n <= |t| && (forall i :: 0 <= i < n ==> IsOctal(t[i])) && (n == 3 || n == |t| || !IsOctal(t[n]))
    ensures OctalDigits(t, 3) == n
  {
    OctalRun(t, n, 3);
  }

  method ReadHex(s: seq<byte>) returns (r: Step)
    requires |s| > 2 && s[0] == BACKSLASH && (s[1] == Code('x') || s[1] == Code('X')) && IsHex(s[2])
    ensures r == Next(s)
  {
    var t := s[2..];
    var ch: nat, n := 0, 0;
    while n < |t| && IsHex(t[n])
      invariant n <= |t| && n <= HexDigits(t) && ch == Hex(t[..n]) % UINT32_RANGE
    {
      HexGoesOn(t, n);
      HexWraps(Hex(t[..n]), HexValue(t[n]));
      assert t[..n + 1][..n] == t[..n];
      ch := (ch * 16 + HexValue(t[n])) % UINT32_RANGE;
      n := n + 1;
    }
    HexStops(t, n);
    return if ch > 0xff then Fail(ExceedsByte) else Emit(ch, 2 + n);
  }

  lemma HexWraps(v: nat, digit: nat)
    ensures (v % UINT32_RANGE * 16 + digit) % UINT32_RANGE == (16 * v + digit) % UINT32_RANGE
  {
  }

  lemma HexGoesOn(t: seq<byte>, n: nat)
    requires n < |t| && n <= HexDigits(t) && IsHex(t[n])
    ensures n + 1 <= HexDigits(t)
  {
  }

  lemma HexStops(t: seq<byte>, n: nat)
    requires n <= |t| && n <= HexDigits(t) && (n < |t| ==> !IsHex(t[n]))
    ensures n == HexDigits(t)
  {
  }

  // ------------------------------------------------------------------------------- laws

  lemma OctalOfThree(a: byte, b: byte, c: byte)
    requires IsOctal(a) && IsOctal(b) && IsOctal(c)
    ensures Octal([a, b, c]) == 64 * (a - 48) + 8 * (b - 48) + (c - 48)
  {
    assert [a, b, c][..2] == [a, b] && [a, b][..1] == [a] && [a][..0] == [];
    assert Octal([a]) == a - 48;
    assert Octal([a, b]) == 8 * Octal([a]) + (b - 48);
  }

  /** What follows an escaped byte is never read as part of it. */
  lemma EscapedIsRead(c: byte, rest: seq<byte>)
    ensures Next(EscapedByte(c) + rest) == Emit(c, |EscapedByte(c)|)
  {
    var s := EscapedByte(c) + rest;
    if |EscapedByte(c)| == 4 {
      OctalIsRead(c, rest, s);
    }
  }

  lemma OctalIsRead(c: byte, rest: seq<byte>, s: seq<byte>)
    requires |EscapedByte(c)| == 4 && s == EscapedByte(c) + rest
    ensures Next(s) == Emit(c, 4)
  {
    var t := s[1..];
    assert t == [48 + c / 64, 48 + c % 64 / 8, 48 + c % 8] + rest;
    OctalStops(t, 3);
    assert t[..3] == [48 + c / 64, 48 + c % 64 / 8, 48 + c % 8];
    OctalOfThree(48 + c / 64, 48 + c % 64 / 8, 48 + c % 8);
  }

  /** Unescaping undoes escaping, for every string of bytes. */
  lemma {:induction false} UnescapeUndoesEscape(s: seq<byte>)
    ensures Unescaped(Escaped(s)) == Ok(s)
  {
    if s != [] {
      var e, rest := EscapedByte(s[0]), Escaped(s[1..]);
      UnescapeUndoesEscape(s[1..]);
      EscapedIsRead(s[0], rest);
      assert (e + rest)[|e|..] == rest;
      assert [s[0]] + s[1..] == s;
    }
  }

  /** An escaped string is printable and at most four times as long. */
  lemma {:induction false} EscapedIsPrintable(s: seq<byte>)
    ensures forall i :: 0 <= i < |Escaped(s)| ==> IsPrint(Escaped(s)[i])
    ensures |s| <= |Escaped(s)| <= 4 * |s|
  {
    if s != [] {
      EscapedIsPrintable(s[1..]);
    }
  }

  /** Unescaping never lengthens. */
  lemma {:induction false} UnescapedIsNoLonger(s: seq<byte>)
    ensures Unescaped(s).Ok? ==> |Unescaped(s).bytes| <= |s|
    decreases |s|
  {
    if s != [] && Next(s).Emit? {
      UnescapedIsNoLonger(s[Next(s).used..]);
    }
  }

  lemma OnlyOne(s: seq<byte>)
    requires s != []
    ensures Next(s).Emit? && Next(s).used == |s| ==> Unescaped(s) == Ok([Next(s).b])
    ensures Next(s).Fail? ==> Unescaped(s) == Bad(Next(s).error)
  {
    assert s[|s|..] == [];
    assert Unescaped([]) == Ok([]);
  }

  /** The check that a hexadecimal escape is a byte sees the number only modulo 2^32. */
  lemma HexCheck(digits: seq<byte>)
    requires digits != [] && forall i :: 0 <= i < |digits| ==> IsHex(digits[i])
    ensures Unescaped([BACKSLASH, Code('x')] + digits) ==
            var v := Hex(digits) % UINT32_RANGE; if v < 256 then Ok([v]) else Bad(ExceedsByte)
  {
    var s := [BACKSLASH, Code('x')] + digits;
    NextOfHex(s, digits);
    OnlyOne(s);
  }

  /** So it accepts just the bytes as long as the number is below 2^32, or is not one of the
      first 256 of its round. */
  lemma HexCheckIsRight(s: seq<byte>, digits: seq<byte>)
    requires digits != [] && forall i :: 0 <= i < |digits| ==> IsHex(digits[i])
    requires s == [BACKSLASH, Code('x')] + digits
    ensures (Unescaped(s).Ok? <==> Hex(digits) < 256) <==>
            (Hex(digits) < UINT32_RANGE || 256 <= Hex(digits) % UINT32_RANGE)
  {
    NextOfHex(s, digits);
    OnlyOne(s);
    Rounds(Hex(digits));
  }

  lemma Rounds(v: nat)
    ensures (v % UINT32_RANGE < 256 <==> v < 256) <==> (v < UINT32_RANGE || 256 <= v % UINT32_RANGE)
  {
  }

  lemma NextOfHex(s: seq<byte>, digits: seq<byte>)
    requires digits != [] && forall i :: 0 <= i < |digits| ==> IsHex(digits[i])
    requires s == [BACKSLASH, Code('x')] + digits
    ensures Next(s) == var v := Hex(digits) % UINT32_RANGE; if v < 256 then Emit(v, |s|) else Fail(ExceedsByte)
  {
    assert s[2..] == digits;
    AllHex(digits);
    assert digits[..|digits|] == digits;
  }

  lemma {:induction false} AllHex(t: seq<byte>)
    requires forall i :: 0 <= i < |t| ==> IsHex(t[i])
    ensures HexDigits(t) == |t|
  {
    if t != [] {
      AllHex(t[1..]);
    }
  }

  /** The nine digits of 2^32 + 0x41 are read as one byte. */
  lemma TooManyHexDigits(digits: seq<byte>)
    requires digits == [49, 48, 48, 48, 48, 48, 48, 52, 49]
    ensures Unescaped([BACKSLASH, Code('x')] + digits) == Ok([0x41])
  {
    HexOfNine(digits);
    HexCheck(digits);
  }

  lemma HexOfNine(digits: seq<byte>)
    requires digits == [49, 48, 48, 48, 48, 48, 48, 52, 49]
    ensures forall i :: 0 <= i < |digits| ==> IsHex(digits[i])
    ensures Hex(digits) == 0x1_0000_0041
  {
    var s1: seq<byte> := [49];
    var s2, s3 := s1 + [48], s1 + [48] + [48];
    HexOfSnoc([], 49);
    assert [] + [49] == s1;
    HexOfSnoc(s1, 48);
    HexOfSnoc(s2, 48);
    var s4 := s3 + [48];
    HexOfSnoc(s3, 48);
    var s5 := s4 + [48];
    HexOfSnoc(s4, 48);
    var s6 := s5 + [48];
    HexOfSnoc(s5, 48);
    var s7 := s6 + [48];
    HexOfSnoc(s6, 48);
    var s8 := s7 + [52];
    HexOfSnoc(s7, 52);
    var s9 := s8 + [49];
    HexOfSnoc(s8, 49);
    assert Hex(s9) == 0x1_0000_0041;
    assert s9 == digits;
  }

  lemma HexOfSnoc(s: seq<byte>, c: byte)
    requires IsHex(c) && forall i :: 0 <= i < |s| ==> IsHex(s[i])
    ensures forall i :: 0 <= i < |s + [c]| ==> IsHex((s + [c])[i])
    ensures Hex(s + [c]) == 16 * Hex(s) + HexValue(c)
  {
    assert (s + [c])[..|s|] == s;
  }

  // ------------------------------------------------------------------- escapes, one by one

  /** The escapes of one letter: \a \b \f \n \r \t \v \\ \? \' and \". */
  lemma LettersAreRead(x: byte)
    ensures x == 97 ==> Unescaped([92, x]) == Ok([7])
    ensures x == 98 ==> Unescaped([92, x]) == Ok([8])
    ensures x == 102 ==> Unescaped([92, x]) == Ok([12])
    ensures x == 110 ==> Unescaped([92, x]) == Ok([10])
    ensures x == 114 ==> Unescaped([92, x]) == Ok([13])
    ensures x == 116 ==> Unescaped([92, x]) == Ok([9])
    ensures x == 118 ==> Unescaped([92, x]) == Ok([11])
    ensures x == 92 || x == 63 || x == 39 || x == 34 ==> Unescaped([92, x]) == Ok([x])
  {
    OnlyOne([92, x]);
  }

  /** A byte without a backslash stands for itself. */
  lemma PlainIsRead(x: byte, rest: seq<byte>)
    requires x != 92
    ensures Unescaped([x] + rest) == Prepend([x], Unescaped(rest))
  {
    assert ([x] + rest)[1..] == rest;
  }

  /** A backslash before any other byte that begins no number is refused, and so is one at the end. */
  lemma UnknownIsRefused(x: byte, rest: seq<byte>)
    requires x !in {97, 98, 102, 110, 114, 116, 118, 92, 63, 39, 34} && !(48 <= x < 56) && x != 120 && x != 88
    ensures Unescaped([92, x] + rest) == Bad(UnknownEscape(x)) && Unescaped([92]) == Bad(EndsWithBackslash)
  {
  }

  /** One to three octal digits, with what is not one behind them or after three. */
  lemma OctalsAreRead(d: seq<byte>, rest: seq<byte>, s: seq<byte>)
    requires 1 <= |d| <= 3 && (forall i :: 0 <= i < |d| ==> 48 <= d[i] < 56) && s == [92] + (d + rest)
    requires |d| < 3 && rest != [] ==> !(48 <= rest[0] < 56)
    ensures var v := OctalValue(d); Unescaped(s) == if v < 256 then Prepend([v], Unescaped(rest)) else Bad(ExceedsByte)
  {
    var t := s[1..];
    assert t == d + rest;
    OctalsStop(d, rest, 3);
    OctalIsValue(d);
    assert t[..|d|] == d && s[1 + |d|..] == rest;
  }

  function OctalValue(d: seq<byte>): nat
    requires 1 <= |d| <= 3 && forall i :: 0 <= i < |d| ==> 48 <= d[i] < 56
  {
    var x: nat := d[0] - 48;
    if |d| == 1 then x
    else
      var y: nat := d[1] - 48;
      if |d| == 2 then 8 * x + y
      else
        var z: nat := d[2] - 48;
        64 * x + 8 * y + z
  }

  lemma OctalIsValue(d: seq<byte>)
    requires 1 <= |d| <= 3 && forall i :: 0 <= i < |d| ==> 48 <= d[i] < 56
    ensures Octal(d) == OctalValue(d)
  {
    assert Octal(d[..|d| - 1][..0]) == 0;
    if |d| > 1 {
      var front := d[..|d| - 1];
      assert front[..|front| - 1] == d[..|d| - 2];
      if |d| > 2 {
        assert d[..1][..0] == [];
      }
    }
  }

  lemma {:induction false} OctalsStop(d: seq<byte>, rest: seq<byte>, max: nat)
    requires |d| <= max && forall i :: 0 <= i < |d| ==> IsOctal(d[i])
    requires |d| < max && rest != [] ==> !IsOctal(rest[0])
    ensures OctalDigits(d + rest, max) == |d|
  {
    if d == [] {
      assert d + rest == rest;
    } else {
      assert (d + rest)[1..] == d[1..] + rest;
      OctalsStop(d[1..], rest, max - 1);
    }
  }

  /** The value of a hexadecimal digit of either case. */
  function DigitValue(c: byte): nat
    requires 48 <= c <= 57 || 65 <= c <= 70 || 97 <= c <= 102
  {
    var v: int := c;
    if c <= 57 then v - 48 else if c <= 70 then v - 55 else v - 87
  }

  /** \x or \X with one or two hexadecimal digits. */
  lemma HexIsRead(x: byte, h: byte, l: byte, s: seq<byte>)
    requires x == 120 || x == 88
    requires 48 <= h <= 57 || 65 <= h <= 70 || 97 <= h <= 102
    requires 48 <= l <= 57 || 65 <= l <= 70 || 97 <= l <= 102
    ensures s == [92, x, l] ==> Unescaped(s) == Ok([DigitValue(l)])
    ensures s == [92, x, h, l] ==> Unescaped(s) == Ok([16 * DigitValue(h) + DigitValue(l)])
  {
    if s == [92, x, l] {
      HexOfOne(l);
      OnlyHex(s, [l]);
    }
    if s == [92, x, h, l] {
      HexOfTwo(h, l);
      OnlyHex(s, [h, l]);
    }
  }

  lemma HexOfOne(l: byte)
    requires IsHex(l)
    ensures Hex([l]) == DigitValue(l)
  {
    assert [l][..0] == [];
  }

  lemma HexOfTwo(h: byte, l: byte)
    requires IsHex(h) && IsHex(l)
    ensures Hex([h, l]) == 16 * DigitValue(h) + DigitValue(l)
  {
    HexOfOne(h);
    assert [h, l][..1] == [h];
  }

  lemma OnlyHex(s: seq<byte>, digits: seq<byte>)
    requires digits != [] && (forall i :: 0 <= i < |digits| ==> IsHex(digits[i])) && Hex(digits) < 256
    requires |s| == 2 + |digits| && s[0] == 92 && (s[1] == 120 || s[1] == 88) && s[2..] == digits
    ensures Unescaped(s) == Ok([Hex(digits)])
  {
    NextIsHex(s, digits);
    OnlyOne(s);
  }

  lemma NextIsHex(s: seq<byte>, digits: seq<byte>)
    requires digits != [] && (forall i :: 0 <= i < |digits| ==> IsHex(digits[i])) && Hex(digits) < 256
    requires |s| == 2 + |digits| && s[0] == 92 && (s[1] == 120 || s[1] == 88) && s[2..] == digits
    ensures Next(s) == Emit(Hex(digits), |s|)
  {
    AllHex(digits);
    assert digits[..|digits|] == digits;
  }

  /** \x with nothing, or no hexadecimal digit, behind it is refused. */
  lemma HexNeedsDigit(x: byte, c: byte, rest: seq<byte>)
    requires (x == 120 || x == 88) && !(48 <= c <= 57 || 65 <= c <= 70 || 97 <= c <= 102)
    ensures Unescaped([92, x]) == Bad(EndsWithX) && Unescaped([92, x, c] + rest) == Bad(NoHexDigit)
  {
  }

  /** What CEscape writes for one byte: itself if it is printable and no quote or backslash, a letter
      for newline, return and tab, a backslash before quotes and itself, and else three octal digits. */
  lemma EscapesAre(c: byte)
    ensures Escaped([c]) ==
            if c == 10 then [92, 110]
            else if c == 13 then [92, 114]
            else if c == 9 then [92, 116]
            else if c in {34, 39, 92} then [92, c]
            else if 32 <= c <= 126 then [c]
            else [92, 48 + c / 64, 48 + c / 8 % 8, 48 + c % 8]
  {
    assert [c][1..] == [];
    assert Escaped([c]) == EscapedByte(c) + [];
    MiddleDigit(c);
  }

  lemma MiddleDigit(c: nat)
    ensures c % 64 / 8 == c / 8 % 8
  {
  }
}
