/** Which size lines the chunked decoder takes and which it refuses, on the bytes alone. */
module HttpBodyLines {
  import opened Bytes
  import opened HttpBody
  import opened HttpBodyLaws

  /** What the decoder takes for a digit: the bytes from 128 on as well ... */
  predicate IsSizeDigit(b: byte) { IsHexDigit(b) || 128 <= b }

  /** ... and these for zeros. */
  function AsHex(s: seq<byte>): (r: seq<byte>)
    requires forall i :: 0 <= i < |s| ==> IsSizeDigit(s[i])
    ensures |r| == |s| && forall i :: 0 <= i < |r| ==> IsHexDigit(r[i]) && r[i] == if s[i] < 128 then s[i] else 48
  {
    if s == [] then []
    else
      var last := s[|s| - 1];
      assert IsSizeDigit(last);
      AsHex(s[..|s| - 1]) + [if last < 128 then last else 48]
  }

  function DigitCount(w: seq<byte>): (k: nat)
    ensures k <= |w| && (forall i :: 0 <= i < k ==> IsSizeDigit(w[i])) && (k < |w| ==> !IsSizeDigit(w[k]))
  {
    if w == [] || !IsSizeDigit(w[0]) then 0 else 1 + DigitCount(w[1..])
  }

  /** The value of the digits that w begins with. */
  function LineValue(w: seq<byte>): nat {
    HexValue(0, AsHex(w[..DigitCount(w)]))
  }

  /** At least one digit, and then nothing, a ';' or a ' '. */
  predicate IsWellBegun(w: seq<byte>) {
    var k := DigitCount(w);
    0 < k && (k == |w| || w[k] == 59 || w[k] == 32)
  }

  // ---------------------------------------------------------------------------- digits

  lemma HighStep(c: Core, b: byte)
    requires c.Running() && (c.state.ChunkSizeStart? || c.state.ChunkSize?) && 128 <= b
    ensures Step(c, b) == Step(c, 48)
  {
  }

  lemma AfterDigit(c: Core, b: byte)
    requires c.Running() && (c.state.ChunkSizeStart? || c.state.ChunkSize?) && IsHexDigit(b)
    ensures var s := Step(c, b).core; s.errno.Ok? ==> s.Running() && s.state.ChunkSize?
  {
  }

  lemma {:induction false} HighBytesAreZeros(c: Core, s: seq<byte>)
    requires c.Running() && (c.state.ChunkSizeStart? || c.state.ChunkSize?)
    requires forall i :: 0 <= i < |s| ==> IsSizeDigit(s[i])
    ensures Run(c, s) == Run(c, AsHex(s))
    decreases s
  {
    if s != [] {
      var h := AsHex(s);
      if 128 <= s[0] {
        HighStep(c, s[0]);
      }
      RunUnfolds(c, s);
      RunUnfolds(c, h);
      AfterDigit(c, h[0]);
      if Step(c, s[0]).core.errno.Ok? {
        HighBytesAreZeros(Step(c, s[0]).core, s[1..]);
        assert h[1..] == AsHex(s[1..]);
      }
    }
  }

  /** The digits of a line are read as their value, or refused exactly if that is too large. */
  lemma DigitsRun(c: Core, s: seq<byte>)
    requires c.Running() && c.state.ChunkSizeStart? && c.chunked && s != []
    requires forall i :: 0 <= i < |s| ==> IsSizeDigit(s[i])
    ensures
      var v := HexValue(0, AsHex(s));
      if v <= INT64_MAX
      then Run(c, s) == Outcome(c.(state := ChunkSize, contentLength := v, nread := c.nread + |s|), [], |s|)
      else Run(c, s).core.errno == HugeChunkSize
  {
    var h := AsHex(s);
    HighBytesAreZeros(c, s);
    HexRun(c, h);
  }

  lemma HexRun(c: Core, h: seq<byte>)
    requires c.Running() && c.state.ChunkSizeStart? && c.chunked && h != []
    requires forall i :: 0 <= i < |h| ==> IsHexDigit(h[i])
    ensures
      var v := HexValue(0, h);
      if v <= INT64_MAX
      then Run(c, h) == Outcome(c.(state := ChunkSize, contentLength := v, nread := c.nread + |h|), [], |h|)
      else Run(c, h).core.errno == HugeChunkSize
  {
    RunUnfolds(c, h);
    SizeDigits(Step(c, h[0]).core, h[1..]);
  }

  /** A byte that is no digit, where a size line begins. */
  lemma NoDigitFirst(c: Core, b: byte, rest: seq<byte>)
    requires c.Running() && c.state.ChunkSizeStart? && !IsSizeDigit(b)
    ensures Run(c, [b] + rest) == Outcome(c.Failed(InvalidChunkSize), [], 0)
  {
    RunUnfolds(c, [b] + rest);
  }

  /** ... and behind the digits. */
  lemma NoDigitNext(c: Core, b: byte, rest: seq<byte>)
    requires c.Running() && c.state.ChunkSize? && !IsSizeDigit(b) && b != 13 && b != 59 && b != 32
    ensures Run(c, [b] + rest) == Outcome(c.Failed(InvalidChunkSize), [], 0)
  {
    RunUnfolds(c, [b] + rest);
  }

  // ----------------------------------------------------------------------------- lines

  /** Digits, possibly none, and a byte that may not stand there: the run stops at it. */
  lemma BadDigitIsRefused(c: Core, digits: seq<byte>, b: byte, rest: seq<byte>)
    requires c.Running() && c.state.ChunkSizeStart? && c.chunked
    requires (forall i :: 0 <= i < |digits| ==> IsSizeDigit(digits[i])) && HexValue(0, AsHex(digits)) <= 0x7fff_ffff_ffff_ffff
    requires b < 128 && !IsHexDigit(b) && (digits == [] || (b != 13 && b != 59 && b != 32))
    ensures
      var r := Run(c, digits + ([b] + rest));
      r.core.errno == InvalidChunkSize && r.consumed == |digits| && r.events == []
  {
    if digits == [] {
      assert digits + ([b] + rest) == [b] + rest;
      NoDigitFirst(c, b, rest);
    } else {
      var m := c.(state := ChunkSize, contentLength := HexValue(0, AsHex(digits)), nread := c.nread + |digits|);
      DigitsRun(c, digits);
      NoDigitNext(m, b, rest);
      RunThen(c, digits, m, [], [b] + rest);
    }
  }

  lemma HugeIsRefused(c: Core, digits: seq<byte>, rest: seq<byte>)
    requires c.Running() && c.state.ChunkSizeStart? && c.chunked && digits != []
    requires (forall i :: 0 <= i < |digits| ==> IsSizeDigit(digits[i])) && 0x7fff_ffff_ffff_ffff < HexValue(0, AsHex(digits))
    ensures Run(c, digits + rest).core.errno == HugeChunkSize
  {
    DigitsRun(c, digits);
    RunConcat(c, digits, rest);
    RunFailed(c, digits);
  }

  lemma BehindDigits(m: Core, n: nat, ext: seq<byte>, rest: seq<byte>, x: byte)
    requires m.Running() && m.state.ChunkSize? && n == m.contentLength && CR !in ext && rest == (ext + [CR]) + [x]
    requires ext != [] ==> ext[0] == ';' as int || ext[0] == ' ' as int
    ensures Run(m, rest) == Outcome(AfterSizeLine(m, n, |rest|), [OnChunkHeader(n)], |rest|)
  {
    var a := m.(state := ChunkSizeAlmostDone, nread := m.nread + |ext| + 1);
    ExtensionAndCr(m, ext);
    LfByte(a, n, x);
    RunThen(m, ext + [CR], a, [], [x]);
  }

  lemma WellBegunIsTaken(c: Core, digits: seq<byte>, rest: seq<byte>, ext: seq<byte>, x: byte)
    requires c.Running() && c.state.ChunkSizeStart? && c.chunked && digits != [] && CR !in ext && rest == (ext + [CR]) + [x]
    requires (forall i :: 0 <= i < |digits| ==> IsSizeDigit(digits[i])) && HexValue(0, AsHex(digits)) <= INT64_MAX
    requires ext != [] ==> ext[0] == ';' as int || ext[0] == ' ' as int
    ensures
      var v, len := HexValue(0, AsHex(digits)), |digits + rest|;
      Run(c, digits + rest) == Outcome(AfterSizeLine(c, v, len), [OnChunkHeader(v)], len)
  {
    var v := HexValue(0, AsHex(digits));
    var m := c.(state := ChunkSize, contentLength := v, nread := c.nread + |digits|);
    DigitsRun(c, digits);
    BehindDigits(m, v, ext, rest, x);
    LineAfterDigits(c, m, v, |digits|, |rest|);
    ThenLine(c, digits, m, rest, AfterSizeLine(m, v, |rest|), [OnChunkHeader(v)]);
  }

  lemma LineAfterDigits(c: Core, m: Core, v: nat, k: nat, len: nat)
    requires m == c.(state := ChunkSize, contentLength := v, nread := c.nread + k)
    ensures AfterSizeLine(m, v, len) == AfterSizeLine(c, v, k + len)
  {
  }

  lemma ThenLine(c: Core, a: seq<byte>, m: Core, b: seq<byte>, d: Core, e: seq<Event>)
    requires Run(c, a) == Outcome(m, [], |a|) && Run(m, b) == Outcome(d, e, |b|)
    ensures Run(c, a + b) == Outcome(d, e, |a + b|)
  {
    RunThen(c, a, m, [], b);
  }

  /** The outcome of a line of digits and a rest, up to its CR and one byte more. */
  ghost predicate IsDecided(c: Core, r: Outcome, v: nat, wellBegun: bool, k: nat, len: nat) {
    if 0x7fff_ffff_ffff_ffff < v then r.core.errno == HugeChunkSize
    else if !wellBegun then r.core.errno == InvalidChunkSize && r.consumed == k && r.events == []
    else if v == 0 then
      r == Outcome(c.(state := HeaderFieldStart, contentLength := 0, trailing := true, nread := c.nread + len),
                   [OnChunkHeader(0)], len)
    else r == Outcome(c.(state := State.ChunkData, contentLength := v, nread := 0), [OnChunkHeader(v)], len)
  }

  /** What becomes of a line w, its CR and one byte more, whatever its bytes: too large, refused at
      the first byte that may not stand there, or taken as a chunk of its value. */
  lemma LineDecided(c: Core, w: seq<byte>, x: byte, line: seq<byte>)
    requires c.Running() && c.state.ChunkSizeStart? && c.chunked && 13 !in w && line == w + [13, x]
    ensures IsDecided(c, Run(c, line), LineValue(w), IsWellBegun(w), DigitCount(w), |line|)
  {
    var k := DigitCount(w);
    var digits, ext := w[..k], w[k..];
    var rest := (ext + [CR]) + [x];
    LineParts(w, digits, ext, rest, x, line);
    PartsDecided(c, digits, ext, rest, x);
  }

  lemma LineParts(w: seq<byte>, digits: seq<byte>, ext: seq<byte>, rest: seq<byte>, x: byte, line: seq<byte>)
    requires w == digits + ext && rest == (ext + [CR]) + [x] && line == w + [13, x]
    ensures line == digits + rest
  {
  }

  lemma PartsDecided(c: Core, digits: seq<byte>, ext: seq<byte>, rest: seq<byte>, x: byte)
    requires c.Running() && c.state.ChunkSizeStart? && c.chunked && CR !in ext && rest == (ext + [CR]) + [x]
    requires (forall i :: 0 <= i < |digits| ==> IsSizeDigit(digits[i])) && (ext != [] ==> !IsSizeDigit(ext[0]))
    ensures
      var wellBegun := digits != [] && (ext == [] || ext[0] == 59 || ext[0] == 32);
      IsDecided(c, Run(c, digits + rest), HexValue(0, AsHex(digits)), wellBegun, |digits|, |digits + rest|)
  {
    var v := HexValue(0, AsHex(digits));
    if INT64_MAX < v {
      HugeIsRefused(c, digits, rest);
    } else if digits != [] && (ext == [] || ext[0] == 59 || ext[0] == 32) {
      WellBegunIsTaken(c, digits, rest, ext, x);
    } else {
      assert rest == [rest[0]] + rest[1..];
      BadDigitIsRefused(c, digits, rest[0], rest[1..]);
    }
  }

  // ------------------------------------------------------------ against the standard

  /** The line is consumed and gives a chunk of n bytes. */
  ghost predicate IsTaken(c: Core, line: seq<byte>, n: nat) {
    var r := Run(c, line);
    r.core.errno.Ok? && r.consumed == |line| && r.events == [OnChunkHeader(n)]
  }

  /** A size line of value n: w, up to its k-th byte its digits. */
  ghost predicate IsLine(w: seq<byte>, n: nat) {
    exists k :: 0 <= k <= |w| && IsSizeLine(w[..k], w[k..], n)
  }

  lemma LineHasItsDigits(w: seq<byte>, k: nat, n: nat)
    requires k <= |w| && IsSizeLine(w[..k], w[k..], n)
    ensures k == DigitCount(w) && LineValue(w) == n && IsWellBegun(w) && forall i :: 0 <= i < k ==> w[i] < 128
  {
    forall i | 0 <= i < k ensures IsHexDigit(w[i]) {
      assert w[i] == w[..k][i];
    }
    if k < |w| {
      assert w[k] == w[k..][0];
    }
    assert AsHex(w[..k]) == w[..k];
  }

  /** A line without bytes from 128 on is taken exactly if it is a size line by section 3.6.1 of
      RFC 2616 and not too large. */
  lemma TakenLinesAreLines(c: Core, w: seq<byte>, x: byte, line: seq<byte>, n: nat)
    requires c.Running() && c.state.ChunkSizeStart? && c.chunked && 13 !in w && line == w + [13, x]
    requires forall i :: 0 <= i < |w| ==> w[i] < 128
    ensures IsTaken(c, line, n) <==> n <= 0x7fff_ffff_ffff_ffff && IsLine(w, n)
  {
    LineDecided(c, w, x, line);
    if IsLine(w, n) {
      var k :| 0 <= k <= |w| && IsSizeLine(w[..k], w[k..], n);
      LineHasItsDigits(w, k, n);
    }
    if IsTaken(c, line, n) {
      WellBegunIsLine(w);
    }
  }

  lemma WellBegunIsLine(w: seq<byte>)
    requires 13 !in w && IsWellBegun(w) && forall i :: 0 <= i < DigitCount(w) ==> w[i] < 128
    ensures IsLine(w, LineValue(w))
  {
    var k := DigitCount(w);
    assert AsHex(w[..k]) == w[..k];
    assert IsSizeLine(w[..k], w[k..], LineValue(w));
  }

  /** A line that is taken is one by the standard exactly if none of its digits is a byte from 128
      on: such a byte passes for a zero. */
  lemma HighBytesPass(c: Core, w: seq<byte>, x: byte, line: seq<byte>, n: nat)
    requires c.Running() && c.state.ChunkSizeStart? && c.chunked && 13 !in w && line == w + [13, x] && IsTaken(c, line, n)
    ensures IsLine(w, n) <==> forall i :: 0 <= i < DigitCount(w) ==> w[i] < 128
  {
    LineDecided(c, w, x, line);
    if IsLine(w, n) {
      var k :| 0 <= k <= |w| && IsSizeLine(w[..k], w[k..], n);
      LineHasItsDigits(w, k, n);
    }
    if forall i :: 0 <= i < DigitCount(w) ==> w[i] < 128 {
      WellBegunIsLine(w);
    }
  }

  /** ... as the byte 200 does in the line of bytes 49, 200: a chunk of 16. */
  lemma HighBytePasses(c: Core)
    requires c.Running() && c.state.ChunkSizeStart? && c.chunked
    ensures IsTaken(c, [49, 200, 13, 10], 16) && !IsLine([49, 200], 16)
  {
    var w: seq<byte>, line: seq<byte> := [49, 200], [49, 200, 13, 10];
    CountOfTwo(w);
    LineDecided(c, w, 10, line);
    HighBytesPass(c, w, 10, line, 16);
  }

  lemma CountOfTwo(w: seq<byte>)
    requires w == [49, 200]
    ensures DigitCount(w) == 2 && LineValue(w) == 16 && w[1] == 200
  {
    assert w[1..] == [200] && w[1..][1..] == [];
    assert DigitCount(w[1..]) == 1;
    var h := AsHex(w[..2]);
    assert h == [49, 48] && h[1..] == [48] && h[1..][1..] == [];
    assert HexValue(1, h[1..]) == HexValue(16, []) == 16;
  }

  /** The limit for header bytes: 80 KB, counted modulo 2^32. */
  lemma HeaderLimit(c: Core, size: seq<byte>, ext: seq<byte>, n: nat)
    requires c.Running() && c.state.ChunkSizeStart? && c.chunked
    requires IsSizeLine(size, ext, n) && n <= 0x7fff_ffff_ffff_ffff && ext != []
    ensures ExecuteOnce(c, size + ext).core.errno ==
            if 81920 < (c.nread + |size| + |ext|) % 0x1_0000_0000 then HeaderOverflow else Ok
  {
    LineBeforeCr(c, size, ext, n);
  }
}
