/** What the body decoder does over whole streams: the way a stream is cut into
    buffers, and the chunked coding of section 3.6.1 of RFC 2616. */
module HttpBodyLaws {
  import opened Bytes
  import opened HttpBody

  // ------------------------------------------------------------ split invariance

  /** A buffer that ends here in a header state with the counter over the limit. */
  predicate OverflowsAt(c: Core, data: seq<byte>) {
    var r := Run(c, data);
    r.consumed == |data| && r.core.Overflowing()
  }

  /** No boundary between two pieces falls where the counter is over the limit. */
  predicate QuietBoundaries(c: Core, pieces: seq<seq<byte>>)
    decreases |pieces|
  {
    |pieces| <= 1 ||
    (!OverflowsAt(c, pieces[0]) && QuietBoundaries(c, [pieces[0] + pieces[1]] + pieces[2..]))
  }

  /** Equal up to the 32-bit wrap of the counter. */
  predicate Agree(a: Core, b: Core) {
    a == b.(nread := a.nread) && a.nread % UINT32_RANGE == b.nread % UINT32_RANGE
  }

  lemma StepAgrees(a: Core, b: Core, x: byte)
    requires Agree(a, b) && a.Running()
    ensures
      var s, t := Step(a, x), Step(b, x);
      Agree(s.core, t.core) && s.events == t.events && s.consumed == t.consumed
  {
    if a.state.ChunkSizeStart? || a.state.ChunkSize? {
      SizeStepAgrees(a, b, x);
    } else if a.state.ChunkParameters? || a.state.ChunkSizeAlmostDone? {
      LineStepAgrees(a, b, x);
    } else {
      BodyStepAgrees(a, b, x);
    }
  }

  lemma SizeStepAgrees(a: Core, b: Core, x: byte)
    requires Agree(a, b) && a.Running() && (a.state.ChunkSizeStart? || a.state.ChunkSize?)
    ensures
      var s, t := Step(a, x), Step(b, x);
      Agree(s.core, t.core) && s.events == t.events && s.consumed == t.consumed
  {
  }

  lemma LineStepAgrees(a: Core, b: Core, x: byte)
    requires Agree(a, b) && a.Running() && (a.state.ChunkParameters? || a.state.ChunkSizeAlmostDone?)
    ensures
      var s, t := Step(a, x), Step(b, x);
      Agree(s.core, t.core) && s.events == t.events && s.consumed == t.consumed
  {
  }

  lemma BodyStepAgrees(a: Core, b: Core, x: byte)
    requires Agree(a, b) && a.Running() && !a.state.ParsingHeader()
    ensures
      var s, t := Step(a, x), Step(b, x);
      Agree(s.core, t.core) && s.events == t.events && s.consumed == t.consumed
  {
  }

  lemma {:induction false} RunAgrees(a: Core, b: Core, data: seq<byte>)
    requires Agree(a, b)
    ensures
      var s, t := Run(a, data), Run(b, data);
      Agree(s.core, t.core) && s.events == t.events && s.consumed == t.consumed
    decreases data
  {
    if data != [] && a.Running() {
      StepAgrees(a, b, data[0]);
      RunUnfolds(a, data);
      RunUnfolds(b, data);
      RunAgrees(Step(a, data[0]).core, Step(b, data[0]).core, data[1..]);
    }
  }

  lemma {:induction false} RunErrors(c: Core, data: seq<byte>)
    requires c.errno.Ok?
    ensures var e := Run(c, data).core.errno; e.Ok? || e.InvalidChunkSize? || e.HugeChunkSize?
    ensures var r := Run(c, data); r.consumed < |data| ==> !r.core.Running()
    decreases data
  {
    if data != [] && c.Running() {
      RunUnfolds(c, data);
      var s := Step(c, data[0]);
      if s.core.errno.Ok? {
        RunErrors(s.core, data[1..]);
      }
    }
  }

  /** Two calls are one call on the joined buffer, unless the first ends in an overflow. */
  lemma TwoCallsAreOne(c: Core, a: seq<byte>, b: seq<byte>)
    requires c.Running() && a != [] && b != [] && !OverflowsAt(c, a)
    ensures
      var s := ExecuteOnce(c, a);
      var t := ExecuteOnce(s.core, b);
      ExecuteOnce(c, a + b) ==
        if s.core.Running() then Outcome(t.core, s.events + t.events, s.consumed + t.consumed) else s
  {
    var r := Run(c, a);
    RunConcat(c, a, b);
    RunErrors(c, a);
    RunFailed(c, a);
    if r.consumed == |a| {
      RunAgrees(r.core, r.core.Wrapped(), b);
      if !r.core.Running() {
        assert Run(r.core, b) == Outcome(r.core, [], 0);
        assert r.events + [] == r.events;
      }
    }
  }

  lemma ExecuteAllMerge(c: Core, a: seq<byte>, b: seq<byte>, rest: seq<seq<byte>>)
    requires c.Running() && a != [] && b != [] && !OverflowsAt(c, a)
    ensures ExecuteAll(c, [a, b] + rest) == ExecuteAll(c, [a + b] + rest)
  {
    TwoCallsAreOne(c, a, b);
    var s := ExecuteOnce(c, a);
    assert ([a, b] + rest)[1..] == [b] + rest;
    assert ([b] + rest)[1..] == rest && ([a + b] + rest)[1..] == rest;
    if s.core.Running() {
      var t := ExecuteOnce(s.core, b);
      var r := ExecuteAll(t.core, rest);
      assert s.events + (t.events + r.events) == (s.events + t.events) + r.events;
    } else {
      assert ExecuteAll(s.core, [b] + rest) == Outcome(s.core, [], 0) == ExecuteAll(s.core, rest);
    }
  }

  /** A stream fed in pieces gives what it gives in one call exactly when no boundary
      falls where the header counter is over the limit. */
  lemma {:induction false} SplitInvariance(c: Core, pieces: seq<seq<byte>>)
    requires c.Running() && pieces != [] && forall i :: 0 <= i < |pieces| ==> pieces[i] != []
    ensures ExecuteAll(c, pieces) == ExecuteOnce(c, Flat(pieces)) <==> QuietBoundaries(c, pieces)
    decreases |pieces|
  {
    var a := pieces[0];
    if |pieces| == 1 {
      var s := ExecuteOnce(c, a);
      assert pieces[1..] == [] && Flat([]) == [];
      assert a + [] == a && s.events + [] == s.events;
    } else if OverflowsAt(c, a) {
      var rest := Flat(pieces[1..]);
      assert ExecuteAll(ExecuteOnce(c, a).core, pieces[1..]).consumed == 0;
      RunConcat(c, a, rest);
      RunErrors(Run(c, a).core, rest);
      FlatNonEmpty(pieces[1..]);
    } else {
      var b, rest := pieces[1], pieces[2..];
      assert pieces == [a, b] + rest;
      ExecuteAllMerge(c, a, b, rest);
      FlatMerge(a, b, rest);
      SplitInvariance(c, [a + b] + rest);
    }
  }

  /** The boundaries, one by one: what comes before each of them. */
  lemma {:induction false} QuietMeans(c: Core, pieces: seq<seq<byte>>)
    ensures QuietBoundaries(c, pieces) <==> forall i :: 0 < i < |pieces| ==> !OverflowsAt(c, Flat(pieces[..i]))
    decreases |pieces|
  {
    if |pieces| > 1 {
      var a, b, rest := pieces[0], pieces[1], pieces[2..];
      var merged := [a + b] + rest;
      assert Flat(pieces[..1]) == a by {
        assert pieces[..1][1..] == [] && Flat([]) == [] && a + [] == a;
      }
      QuietMeans(c, merged);
      forall i | 0 < i < |merged| ensures Flat(merged[..i]) == Flat(pieces[..i + 1]) {
        assert merged[..i] == [a + b] + rest[..i - 1];
        assert pieces[..i + 1] == [a, b] + rest[..i - 1];
        FlatMerge(a, b, rest[..i - 1]);
      }
      assert forall j :: 1 < j < |pieces| ==> Flat(merged[..j - 1]) == Flat(pieces[..j]);
    }
  }

  lemma FlatNonEmpty(pieces: seq<seq<byte>>)
    requires pieces != [] && pieces[0] != []
    ensures Flat(pieces) != []
  {
  }

  lemma FlatMerge(a: seq<byte>, b: seq<byte>, rest: seq<seq<byte>>)
    ensures Flat([a, b] + rest) == Flat([a + b] + rest)
  {
    assert ([a, b] + rest)[1..] == [b] + rest;
    assert ([b] + rest)[1..] == rest && ([a + b] + rest)[1..] == rest;
  }

  // -------------------------------------------------------------- chunked coding

  /** A chunk on the wire: its size in hexadecimal (either case, any leading zeros), its
      extension (empty, or begun by ';' or ' ' and free of CR), and its bytes. */
  datatype Chunk = Chunk(size: seq<byte>, extension: seq<byte>, data: seq<byte>)

  predicate IsHexDigit(b: byte) { 48 <= b <= 57 || 65 <= b <= 70 || 97 <= b <= 102 }

  function HexValue(acc: nat, digits: seq<byte>): (v: nat)
    requires forall i :: 0 <= i < |digits| ==> IsHexDigit(digits[i])
    ensures acc <= v
    decreases digits
  {
    if digits == [] then acc
    else
      assert IsHexDigit(digits[0]);
      HexValue(acc * 16 + DigitValue(digits[0]), digits[1..])
  }

  /** 0 to 9, and 10 to 15 for A to F and a to f. */
  function DigitValue(b: byte): (v: nat)
    requires IsHexDigit(b)
    ensures v < 16 && v == Unhex(b)
  {
    if b < 65 then b - 48 else 10 + (b - 65) % 32
  }

  predicate IsSizeLine(size: seq<byte>, extension: seq<byte>, n: nat) {
    && size != []
    && (forall i :: 0 <= i < |size| ==> IsHexDigit(size[i]))
    && HexValue(0, size) == n
    && CR !in extension
    && (extension != [] ==> extension[0] == ';' as int || extension[0] == ' ' as int)
  }

  predicate IsChunk(k: Chunk) {
    0 < |k.data| <= INT64_MAX && IsSizeLine(k.size, k.extension, |k.data|)
  }

  function SizeLine(size: seq<byte>, extension: seq<byte>): seq<byte> { size + extension + [CR, LF] }

  function EncodeChunk(k: Chunk): seq<byte> { SizeLine(k.size, k.extension) + (k.data + [CR, LF]) }

  function EncodeChunks(ks: seq<Chunk>): seq<byte> {
    if ks == [] then [] else EncodeChunk(ks[0]) + EncodeChunks(ks[1..])
  }

  function ChunkEvents(k: Chunk): seq<Event> {
    [OnChunkHeader(|k.data|)] + Bodies(k.data) + [OnChunkComplete]
  }

  function ChunksEvents(ks: seq<Chunk>): seq<Event> {
    if ks == [] then [] else ChunkEvents(ks[0]) + ChunksEvents(ks[1..])
  }

  lemma RunThen(c: Core, a: seq<byte>, m: Core, e: seq<Event>, b: seq<byte>)
    requires Run(c, a) == Outcome(m, e, |a|)
    ensures var t := Run(m, b); Run(c, a + b) == Outcome(t.core, e + t.events, |a| + t.consumed)
  {
    RunConcat(c, a, b);
  }

  /** The size is refused exactly when it is over INT64_MAX. */
  lemma {:induction false} SizeDigits(c: Core, digits: seq<byte>)
    requires c.Valid() && c.Running() && c.state.ChunkSize?
    requires forall i :: 0 <= i < |digits| ==> IsHexDigit(digits[i])
    ensures
      var v := HexValue(c.contentLength, digits);
      if v <= INT64_MAX
      then Run(c, digits) == Outcome(c.(contentLength := v, nread := c.nread + |digits|), [], |digits|)
      else Run(c, digits).core.errno == HugeChunkSize
    decreases digits
  {
    if digits != [] {
      var u := Unhex(digits[0]);
      var s := Step(c, digits[0]);
      RunUnfolds(c, digits);
      assert c.contentLength * 16 + u <= INT64_MAX <==> c.contentLength <= (INT64_MAX - u) / 16;
      if c.contentLength * 16 + u <= INT64_MAX {
        SizeDigits(s.core, digits[1..]);
      }
    }
  }

  lemma {:induction false} ParameterBytes(c: Core, ext: seq<byte>)
    requires c.Running() && c.state.ChunkParameters? && CR !in ext
    ensures Run(c, ext) == Outcome(c.(nread := c.nread + |ext|), [], |ext|)
    decreases ext
  {
    if ext != [] {
      RunUnfolds(c, ext);
      assert ext[0] != CR;
      ParameterBytes(Step(c, ext[0]).core, ext[1..]);
    }
  }

  lemma RunByte(c: Core, b: byte)
    requires c.Running() && Step(c, b).core.errno.Ok?
    ensures Run(c, [b]) == Outcome(Step(c, b).core, Step(c, b).events, 1)
  {
    RunUnfolds(c, [b]);
    assert [b][1..] == [];
  }

  lemma CrByte(c: Core)
    requires c.Running() && (c.state.ChunkSize? || c.state.ChunkParameters?)
    ensures Run(c, [CR]) == Outcome(c.(state := ChunkSizeAlmostDone, nread := c.nread + 1), [], 1)
  {
    RunByte(c, CR);
  }

  /** An extension that has begun is skipped byte by byte. */
  lemma ExtensionBytes(c: Core, ext: seq<byte>)
    requires c.Running() && c.state.ChunkSize? && CR !in ext
    requires ext != [] && (ext[0] == ';' as int || ext[0] == ' ' as int)
    ensures Run(c, ext) == Outcome(c.(state := ChunkParameters, nread := c.nread + |ext|), [], |ext|)
  {
    var m := c.(state := ChunkParameters, nread := c.nread + 1);
    ExtensionStarts(c, ext[0]);
    RunUnfolds(c, ext);
    ParameterBytes(m, ext[1..]);
  }

  lemma ExtensionStarts(c: Core, b: byte)
    requires c.Running() && c.state.ChunkSize? && (b == ';' as int || b == ' ' as int)
    ensures Step(c, b) == Outcome(c.(state := ChunkParameters, nread := c.nread + 1), [], 1)
  {
  }

  /** After the digits: the extension, up to the CR that ends it. */
  lemma ExtensionAndCr(c: Core, ext: seq<byte>)
    requires c.Running() && c.state.ChunkSize? && CR !in ext
    requires ext != [] ==> ext[0] == ';' as int || ext[0] == ' ' as int
    ensures
      Run(c, ext + [CR]) ==
      Outcome(c.(state := ChunkSizeAlmostDone, nread := c.nread + |ext| + 1), [], |ext| + 1)
  {
    if ext == [] {
      assert ext + [CR] == [CR];
      CrByte(c);
    } else {
      var m := c.(state := ChunkParameters, nread := c.nread + |ext|);
      ExtensionBytes(c, ext);
      ThenCr(c, ext, m);
    }
  }

  lemma ThenCr(c: Core, s: seq<byte>, m: Core)
    requires Run(c, s) == Outcome(m, [], |s|) && m.Running() && (m.state.ChunkSize? || m.state.ChunkParameters?)
    ensures Run(c, s + [CR]) == Outcome(m.(state := ChunkSizeAlmostDone, nread := m.nread + 1), [], |s| + 1)
  {
    CrByte(m);
    RunThen(c, s, m, [], [CR]);
  }

  /** What a size line of value n leaves behind. */
  function AfterSizeLine(c: Core, n: nat, len: nat): Core {
    if n == 0 then c.(state := HeaderFieldStart, contentLength := 0, trailing := true, nread := c.nread + len)
    else c.(state := State.ChunkData, contentLength := n, nread := 0)
  }

  lemma SizeRun(c: Core, size: seq<byte>)
    requires c.Running() && c.state.ChunkSizeStart? && c.chunked && size != []
    requires (forall i :: 0 <= i < |size| ==> IsHexDigit(size[i])) && HexValue(0, size) <= INT64_MAX
    ensures
      Run(c, size) ==
      Outcome(c.(state := ChunkSize, contentLength := HexValue(0, size), nread := c.nread + |size|), [], |size|)
  {
    SizeDigits(Step(c, size[0]).core, size[1..]);
    RunUnfolds(c, size);
  }

  lemma SizeLineRun(c: Core, size: seq<byte>, ext: seq<byte>, n: nat)
    requires c.Running() && c.state.ChunkSizeStart? && c.chunked
    requires IsSizeLine(size, ext, n) && n <= INT64_MAX
    ensures
      var line := SizeLine(size, ext);
      Run(c, line) == Outcome(AfterSizeLine(c, n, |line|), [OnChunkHeader(n)], |line|)
  {
    var line := size + (ext + [CR]);
    var a := c.(state := ChunkSizeAlmostDone, contentLength := n, nread := c.nread + |line|);
    LineUpToCr(c, size, ext, n);
    LfByte(a, n, LF);
    RunThen(c, line, a, [], [LF]);
    assert line + [LF] == SizeLine(size, ext);
  }

  /** The byte behind the CR is not looked at. */
  lemma LfByte(c: Core, n: nat, x: byte)
    requires c.Running() && c.state.ChunkSizeAlmostDone? && c.contentLength == n
    ensures Run(c, [x]) == Outcome(AfterSizeLine(c, n, 1), [OnChunkHeader(n)], 1)
  {
    RunByte(c, x);
  }

  lemma LineUpToCr(c: Core, size: seq<byte>, ext: seq<byte>, n: nat)
    requires c.Running() && c.state.ChunkSizeStart? && c.chunked
    requires IsSizeLine(size, ext, n) && n <= INT64_MAX
    ensures
      var line := size + (ext + [CR]);
      var a := c.(state := ChunkSizeAlmostDone, contentLength := n, nread := c.nread + |line|);
      Run(c, line) == Outcome(a, [], |line|)
  {
    var m := c.(state := ChunkSize, contentLength := n, nread := c.nread + |size|);
    SizeRun(c, size);
    ExtensionAndCr(m, ext);
    RunThen(c, size, m, [], ext + [CR]);
  }

  /** Any two bytes end the data of a chunk: they are not looked at. */
  lemma DataEnd(c: Core, x: byte, y: byte)
    requires c.Running() && c.state.ChunkDataAlmostDone?
    ensures Run(c, [x, y]) == Outcome(c.(state := ChunkSizeStart, nread := 1), [OnChunkComplete], 2)
  {
    var m := c.(state := ChunkDataDone, nread := 0);
    assert [x, y] == [x] + [y];
    RunByte(c, x);
    RunByte(m, y);
    RunThen(c, [x], m, [], [y]);
  }

  lemma ChunkRun(c: Core, k: Chunk)
    requires c.Running() && c.state.ChunkSizeStart? && c.chunked && IsChunk(k)
    ensures Run(c, EncodeChunk(k)) == Outcome(c.(contentLength := 0, nread := 1), ChunkEvents(k), |EncodeChunk(k)|)
  {
    var line := SizeLine(k.size, k.extension);
    SizeLineRun(c, k.size, k.extension, |k.data|);
    var d := AfterSizeLine(c, |k.data|, |line|);
    var e := AfterBody(d, |k.data|);
    BulkStep(d, k.data);
    assert BodyEvents(d, k.data) == Bodies(k.data);
    DataEnd(e, CR, LF);
    RunThen(d, k.data, e, Bodies(k.data), [CR, LF]);
    RunThen(c, line, d, [OnChunkHeader(|k.data|)], k.data + [CR, LF]);
    assert [OnChunkHeader(|k.data|)] + (Bodies(k.data) + [OnChunkComplete]) == ChunkEvents(k);
  }

  lemma {:induction false} ChunksRun(c: Core, ks: seq<Chunk>)
    requires c.Running() && c.state.ChunkSizeStart? && c.chunked
    requires forall i :: 0 <= i < |ks| ==> IsChunk(ks[i])
    ensures
      Run(c, EncodeChunks(ks)) ==
      Outcome(if ks == [] then c else c.(contentLength := 0, nread := 1), ChunksEvents(ks), |EncodeChunks(ks)|)
    decreases |ks|
  {
    if ks != [] {
      var m := c.(contentLength := 0, nread := 1);
      ChunkRun(c, ks[0]);
      ChunksRun(m, ks[1..]);
      RunThen(c, EncodeChunk(ks[0]), m, ChunkEvents(ks[0]), EncodeChunks(ks[1..]));
    }
  }

  /** Every list of non-empty chunks, followed by a last chunk of size 0, decodes to its
      chunks and leaves the decoder at the trailers. */
  lemma ChunkedRoundTrip(c: Core, ks: seq<Chunk>, size: seq<byte>, ext: seq<byte>)
    requires c.Running() && c.state.ChunkSizeStart? && c.chunked
    requires forall i :: 0 <= i < |ks| ==> IsChunk(ks[i])
    requires IsSizeLine(size, ext, 0)
    ensures
      var last := SizeLine(size, ext);
      var counted := |last| + if ks == [] then c.nread else 1;
      Run(c, EncodeChunks(ks) + last) == Outcome(
        c.(state := HeaderFieldStart, contentLength := 0, trailing := true, nread := counted),
        ChunksEvents(ks) + [OnChunkHeader(0)],
        |EncodeChunks(ks)| + |last|)
  {
    var m := if ks == [] then c else c.(contentLength := 0, nread := 1);
    ChunksRun(c, ks);
    SizeLineRun(m, size, ext, 0);
    RunThen(c, EncodeChunks(ks), m, ChunksEvents(ks), SizeLine(size, ext));
  }

  /** The body bytes among the events of a run. */
  function BodyOf(es: seq<Event>): seq<byte> {
    if es == [] then [] else BodyOf(es[..|es| - 1]) + (if es[|es| - 1].OnBody? then es[|es| - 1].bytes else [])
  }

  function Payload(ks: seq<Chunk>): seq<byte> {
    if ks == [] then [] else ks[0].data + Payload(ks[1..])
  }

  lemma {:induction false} BodyOfConcat(a: seq<Event>, b: seq<Event>)
    ensures BodyOf(a + b) == BodyOf(a) + BodyOf(b)
  {
    if b == [] {
      assert a + b == a;
    } else {
      assert (a + b)[..|a + b| - 1] == a + b[..|b| - 1];
      BodyOfConcat(a, b[..|b| - 1]);
    }
  }

  lemma {:induction false} BodyOfBodies(s: seq<byte>)
    ensures BodyOf(Bodies(s)) == s
  {
    if s != [] {
      var n := |s| - 1;
      assert Bodies(s)[..n] == Bodies(s[..n]);
      BodyOfBodies(s[..n]);
      assert s[..n] + [s[n]] == s;
    }
  }

  lemma BodyOfChunk(k: Chunk)
    ensures BodyOf(ChunkEvents(k)) == k.data
  {
    BodyOfConcat([OnChunkHeader(|k.data|)] + Bodies(k.data), [OnChunkComplete]);
    BodyOfConcat([OnChunkHeader(|k.data|)], Bodies(k.data));
    BodyOfBodies(k.data);
  }

  lemma {:induction false} BodyOfChunks(ks: seq<Chunk>)
    ensures BodyOf(ChunksEvents(ks)) == Payload(ks)
  {
    if ks != [] {
      BodyOfChunk(ks[0]);
      BodyOfConcat(ChunkEvents(ks[0]), ChunksEvents(ks[1..]));
      BodyOfChunks(ks[1..]);
    }
  }

  /** The boundaries do matter: a size line with an extension longer than the header
      limit is taken in one buffer and refused when it is cut before its CR. */
  lemma LongExtension(c: Core, size: seq<byte>, ext: seq<byte>, n: nat)
    requires c.Running() && c.state.ChunkSizeStart? && c.chunked
    requires IsSizeLine(size, ext, n) && 0 < n <= INT64_MAX
    requires ext != [] && MAX_HEADER_SIZE < c.nread + |size| + |ext| < UINT32_RANGE
    ensures ExecuteAll(c, [size + ext, [CR, LF]]).core.errno == HeaderOverflow
    ensures ExecuteOnce(c, size + ext + [CR, LF]).core.errno == Ok
  {
    LineBeforeCr(c, size, ext, n);
    var r := ExecuteOnce(c, size + ext);
    assert r.core.errno == HeaderOverflow;
    AllOfTwo(c, size + ext, [CR, LF]);
    assert ExecuteOnce(c, size + ext + [CR, LF]).core.errno == Ok by {
      SizeLineRun(c, size, ext, n);
    }
  }

  lemma LineBeforeCr(c: Core, size: seq<byte>, ext: seq<byte>, n: nat)
    requires c.Running() && c.state.ChunkSizeStart? && c.chunked
    requires IsSizeLine(size, ext, n) && n <= INT64_MAX && ext != []
    ensures
      Run(c, size + ext) ==
      Outcome(c.(state := ChunkParameters, contentLength := n, nread := c.nread + |size + ext|), [], |size + ext|)
  {
    var m := c.(state := ChunkSize, contentLength := n, nread := c.nread + |size|);
    SizeRun(c, size);
    ExtensionBytes(m, ext);
    RunThen(c, size, m, [], ext);
  }

  /** A call that fails is the last one. */
  lemma AllOfTwo(c: Core, a: seq<byte>, b: seq<byte>)
    requires c.Running() && !ExecuteOnce(c, a).core.Running()
    ensures ExecuteAll(c, [a, b]).core == ExecuteOnce(c, a).core
  {
    var s := ExecuteOnce(c, a).core;
    assert [a, b][1..] == [b];
    assert ExecuteAll(s, [b]) == Outcome(s, [], 0);
  }

  /** ... as with the size line "1;xxx...x" of a fresh decoder. */
  lemma LongExtensionExists()
    ensures exists c: Core, a, b ::
      c.Valid() && c.Running() && ExecuteAll(c, [a, b]) != ExecuteOnce(c, a + b)
  {
    var c := Core(ChunkSizeStart, 0, true, false, 0, Ok);
    var size, ext := OneWithExtension(MAX_HEADER_SIZE);
    LongExtension(c, size, ext, 1);
    assert ExecuteAll(c, [size + ext, [CR, LF]]) != ExecuteOnce(c, size + ext + [CR, LF]);
  }

  lemma OneWithExtension(len: nat) returns (size: seq<byte>, ext: seq<byte>)
    ensures IsSizeLine(size, ext, 1) && |size| == 1 && |ext| == len + 1
  {
    size, ext := [49], [';' as int] + seq(len, _ => 'x' as int);
    assert HexValue(0, size) == HexValue(1, size[1..]) == 1;
  }
}
