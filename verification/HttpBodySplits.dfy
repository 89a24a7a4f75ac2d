/** Where an encoded body may be cut into calls.  The overflow of header bytes is looked at only
    where a buffer ends, and what counts there are the bytes of the size line that it ends in. */
module HttpBodySplits {
  import opened Bytes
  import opened HttpBody
  import opened HttpBodyLaws

  /** Chunks and a last size line of value 0. */
  predicate IsStream(ks: seq<Chunk>, size: seq<byte>, ext: seq<byte>) {
    (forall i :: 0 <= i < |ks| ==> IsChunk(ks[i])) && IsSizeLine(size, ext, 0)
  }

  function Stream(ks: seq<Chunk>, size: seq<byte>, ext: seq<byte>): seq<byte> {
    EncodeChunks(ks) + SizeLine(size, ext)
  }

  /** How many bytes of the size line that position q is in come before it, with those counted
      before the stream or before the line began; none in a chunk's bytes. */
  function HeaderBytes(n: nat, ks: seq<Chunk>, size: seq<byte>, ext: seq<byte>, q: nat): nat
    decreases |ks|
  {
    if ks == [] then n + q
    else
      var line, chunk := |SizeLine(ks[0].size, ks[0].extension)|, |EncodeChunk(ks[0])|;
      if q < line then n + q
      else if q < chunk then 0
      else HeaderBytes(1, ks[1..], size, ext, q - chunk)
  }

  /** A decoder that has read q bytes and counts n of them. */
  ghost predicate IsAt(r: Outcome, q: nat, n: nat) {
    r.consumed == q && r.core.errno.Ok? && (if r.core.state.ParsingHeader() then r.core.nread else 0) == n
  }

  lemma {:induction false} HexValuePrefix(acc: nat, digits: seq<byte>, q: nat)
    requires q <= |digits| && forall i :: 0 <= i < |digits| ==> IsHexDigit(digits[i])
    ensures HexValue(acc, digits[..q]) <= HexValue(acc, digits)
    decreases q
  {
    if q > 0 {
      assert IsHexDigit(digits[0]);
      assert digits[..q][1..] == digits[1..][..q - 1];
      HexValuePrefix(acc * 16 + DigitValue(digits[0]), digits[1..], q - 1);
    }
  }

  /** Inside a size line. */
  lemma LineCount(c: Core, size: seq<byte>, ext: seq<byte>, n: nat, q: nat)
    requires c.Running() && c.state.ChunkSizeStart? && c.chunked
    requires IsSizeLine(size, ext, n) && n <= INT64_MAX && q < |SizeLine(size, ext)|
    ensures IsAt(Run(c, SizeLine(size, ext)[..q]), q, c.nread + q)
  {
    var line := SizeLine(size, ext);
    if q == 0 {
      assert line[..q] == [];
    } else if q <= |size| {
      assert line[..q] == size[..q];
      HexValuePrefix(0, size, q);
      SizeRun(c, size[..q]);
    } else {
      var m := c.(state := ChunkSize, contentLength := n, nread := c.nread + |size|);
      var k := q - |size|;
      SizeRun(c, size);
      if k <= |ext| {
        assert line[..q] == size + ext[..k];
        ExtensionBytes(m, ext[..k]);
        RunThen(c, size, m, [], ext[..k]);
      } else {
        assert line[..q] == size + (ext + [CR]);
        ExtensionAndCr(m, ext);
        RunThen(c, size, m, [], ext + [CR]);
      }
    }
  }

  /** Inside the bytes of a chunk and the CRLF behind them. */
  lemma DataCount(c: Core, data: seq<byte>, q: nat)
    requires c.Running() && c.state.ChunkData? && 0 < |data| == c.contentLength && q < |data| + 2
    ensures IsAt(Run(c, (data + [CR, LF])[..q]), q, 0)
  {
    if q == 0 {
      assert (data + [CR, LF])[..q] == [];
    } else if q <= |data| {
      assert (data + [CR, LF])[..q] == data[..q];
      BulkStep(c, data[..q]);
    } else {
      var m := AfterBody(c, |data|);
      assert (data + [CR, LF])[..q] == data + [CR];
      BulkStep(c, data);
      RunByte(m, CR);
      RunThen(c, data, m, BodyEvents(c, data), [CR]);
    }
  }

  /** Inside one chunk. */
  lemma ChunkCount(c: Core, k: Chunk, q: nat)
    requires c.Running() && c.state.ChunkSizeStart? && c.chunked && IsChunk(k) && q < |EncodeChunk(k)|
    ensures var line := |SizeLine(k.size, k.extension)|;
            IsAt(Run(c, EncodeChunk(k)[..q]), q, if q < line then c.nread + q else 0)
  {
    var line := SizeLine(k.size, k.extension);
    var data := k.data + [CR, LF];
    if q < |line| {
      assert EncodeChunk(k)[..q] == line[..q];
      LineCount(c, k.size, k.extension, |k.data|, q);
    } else {
      assert EncodeChunk(k)[..q] == line + data[..q - |line|];
      BehindLine(c, k, q - |line|);
    }
  }

  lemma BehindLine(c: Core, k: Chunk, q: nat)
    requires c.Running() && c.state.ChunkSizeStart? && c.chunked && IsChunk(k) && q < |k.data| + 2
    ensures var line := SizeLine(k.size, k.extension);
            IsAt(Run(c, line + (k.data + [CR, LF])[..q]), |line| + q, 0)
  {
    var line := SizeLine(k.size, k.extension);
    var d := AfterSizeLine(c, |k.data|, |line|);
    SizeLineRun(c, k.size, k.extension, |k.data|);
    DataCount(d, k.data, q);
    RunThen(c, line, d, [OnChunkHeader(|k.data|)], (k.data + [CR, LF])[..q]);
  }

  /** At every position of the stream the decoder counts what is told by the bytes alone. */
  lemma {:induction false} CountAt(c: Core, ks: seq<Chunk>, size: seq<byte>, ext: seq<byte>, q: nat)
    requires c.Running() && c.state.ChunkSizeStart? && c.chunked && IsStream(ks, size, ext)
    requires q <= |Stream(ks, size, ext)|
    ensures IsAt(Run(c, Stream(ks, size, ext)[..q]), q, HeaderBytes(c.nread, ks, size, ext, q))
    decreases |ks|
  {
    if ks == [] {
      CountInLast(c, size, ext, q);
    } else {
      var chunk, rest := EncodeChunk(ks[0]), Stream(ks[1..], size, ext);
      assert Stream(ks, size, ext) == chunk + rest;
      if q < |chunk| {
        assert Stream(ks, size, ext)[..q] == chunk[..q];
        ChunkCount(c, ks[0], q);
      } else {
        var m, q' := c.(contentLength := 0, nread := 1), q - |chunk|;
        var n := HeaderBytes(1, ks[1..], size, ext, q');
        assert Stream(ks, size, ext)[..q] == chunk + rest[..q'];
        CountAt(m, ks[1..], size, ext, q');
        BehindChunk(c, m, ks[0], rest[..q'], n);
      }
    }
  }

  lemma CountInLast(c: Core, size: seq<byte>, ext: seq<byte>, q: nat)
    requires c.Running() && c.state.ChunkSizeStart? && c.chunked && IsSizeLine(size, ext, 0)
    requires q <= |SizeLine(size, ext)|
    ensures IsAt(Run(c, Stream([], size, ext)[..q]), q, c.nread + q)
  {
    assert Stream([], size, ext) == SizeLine(size, ext);
    if q < |SizeLine(size, ext)| {
      LineCount(c, size, ext, 0, q);
    } else {
      assert Stream([], size, ext)[..q] == SizeLine(size, ext);
      SizeLineRun(c, size, ext, 0);
    }
  }

  lemma BehindChunk(c: Core, m: Core, k: Chunk, more: seq<byte>, n: nat)
    requires c.Running() && c.state.ChunkSizeStart? && c.chunked && IsChunk(k)
    requires m == c.(contentLength := 0, nread := 1) && IsAt(Run(m, more), |more|, n)
    ensures IsAt(Run(c, EncodeChunk(k) + more), |EncodeChunk(k)| + |more|, n)
  {
    ChunkRun(c, k);
    RunThen(c, EncodeChunk(k), m, ChunkEvents(k), more);
  }

  // ------------------------------------------------------------------ which cuts agree

  /** Calls on non-empty pieces of s. */
  ghost predicate IsSplit(pieces: seq<seq<byte>>, s: seq<byte>) {
    pieces != [] && (forall i :: 0 <= i < |pieces| ==> pieces[i] != []) && Flat(pieces) == s
  }

  /** Where piece i begins. */
  function Boundary(pieces: seq<seq<byte>>, i: nat): nat
    requires i <= |pieces|
  {
    |Flat(pieces[..i])|
  }

  lemma {:induction false} FlatIsPrefix(pieces: seq<seq<byte>>, i: nat)
    requires i <= |pieces|
    ensures Boundary(pieces, i) <= |Flat(pieces)| && Flat(pieces[..i]) == Flat(pieces)[..Boundary(pieces, i)]
  {
    if i > 0 {
      assert pieces[..i][1..] == pieces[1..][..i - 1];
      FlatIsPrefix(pieces[1..], i - 1);
    }
  }

  /** The call that ends at q fails: too many bytes of a size line are counted. */
  lemma NoisyAt(c: Core, ks: seq<Chunk>, size: seq<byte>, ext: seq<byte>, q: nat)
    requires c.Running() && c.state.ChunkSizeStart? && c.chunked && IsStream(ks, size, ext)
    requires q <= |Stream(ks, size, ext)|
    ensures OverflowsAt(c, Stream(ks, size, ext)[..q]) <==>
            MAX_HEADER_SIZE < HeaderBytes(c.nread, ks, size, ext, q) % UINT32_RANGE
  {
    CountAt(c, ks, size, ext, q);
  }

  /** One way to cut an encoded stream gives what one call gives exactly if no cut lies more
      than MAX_HEADER_SIZE counted bytes into a size line (the counter being of 32 bits). */
  lemma EncodedSplit(c: Core, ks: seq<Chunk>, size: seq<byte>, ext: seq<byte>, pieces: seq<seq<byte>>)
    requires c.Running() && c.state.ChunkSizeStart? && c.chunked && IsStream(ks, size, ext)
    requires IsSplit(pieces, Stream(ks, size, ext))
    ensures ExecuteAll(c, pieces) == ExecuteOnce(c, Stream(ks, size, ext)) <==>
            forall i :: 0 < i < |pieces| ==>
              HeaderBytes(c.nread, ks, size, ext, Boundary(pieces, i)) % UINT32_RANGE <= MAX_HEADER_SIZE
  {
    SplitInvariance(c, pieces);
    QuietMeans(c, pieces);
    forall i | 0 < i < |pieces|
      ensures OverflowsAt(c, Flat(pieces[..i])) <==>
              MAX_HEADER_SIZE < HeaderBytes(c.nread, ks, size, ext, Boundary(pieces, i)) % UINT32_RANGE
    {
      FlatIsPrefix(pieces, i);
      NoisyAt(c, ks, size, ext, Boundary(pieces, i));
    }
  }

  /** Every size line stays within the limit up to its last byte. */
  predicate LinesShort(n: nat, ks: seq<Chunk>, size: seq<byte>, ext: seq<byte>)
    decreases |ks|
  {
    if ks == [] then n + |SizeLine(size, ext)| - 1 <= MAX_HEADER_SIZE
    else
      && n + |SizeLine(ks[0].size, ks[0].extension)| - 1 <= MAX_HEADER_SIZE
      && LinesShort(1, ks[1..], size, ext)
  }

  lemma {:induction false} ShortLinesCount(n: nat, ks: seq<Chunk>, size: seq<byte>, ext: seq<byte>, q: nat)
    requires LinesShort(n, ks, size, ext) && q < |Stream(ks, size, ext)|
    ensures HeaderBytes(n, ks, size, ext, q) <= MAX_HEADER_SIZE
    decreases |ks|
  {
    if ks != [] && |EncodeChunk(ks[0])| <= q {
      ShortLinesCount(1, ks[1..], size, ext, q - |EncodeChunk(ks[0])|);
    }
  }

  /** In a line that is too long there is a place where the count is just over the limit. */
  lemma {:induction false} LongLineCount(n: nat, ks: seq<Chunk>, size: seq<byte>, ext: seq<byte>) returns (q: nat)
    requires !LinesShort(n, ks, size, ext) && n <= MAX_HEADER_SIZE
    ensures 0 < q < |Stream(ks, size, ext)| && HeaderBytes(n, ks, size, ext, q) == MAX_HEADER_SIZE + 1
    decreases |ks|
  {
    q := MAX_HEADER_SIZE + 1 - n;
    if ks != [] && n + |SizeLine(ks[0].size, ks[0].extension)| - 1 <= MAX_HEADER_SIZE {
      var rest := LongLineCount(1, ks[1..], size, ext);
      q := |EncodeChunk(ks[0])| + rest;
    }
  }

  /** However s is cut into calls, the outcome is that of one call. */
  ghost predicate EverySplitIsOneCall(c: Core, s: seq<byte>)
    requires c.Running()
  {
    forall pieces :: IsSplit(pieces, s) ==> ExecuteAll(c, pieces) == ExecuteOnce(c, s)
  }

  /** Every way to cut an encoded stream gives what one call gives exactly if every size line,
      with what was counted before it, stays within MAX_HEADER_SIZE up to its last byte.  No call
      that succeeds leaves more counted. */
  lemma EverySplitAgrees(c: Core, ks: seq<Chunk>, size: seq<byte>, ext: seq<byte>)
    requires c.Running() && c.state.ChunkSizeStart? && c.chunked && IsStream(ks, size, ext)
    requires c.nread <= MAX_HEADER_SIZE
    ensures EverySplitIsOneCall(c, Stream(ks, size, ext)) <==> LinesShort(c.nread, ks, size, ext)
  {
    var stream := Stream(ks, size, ext);
    if LinesShort(c.nread, ks, size, ext) {
      forall pieces | IsSplit(pieces, stream) ensures ExecuteAll(c, pieces) == ExecuteOnce(c, stream) {
        ShortLinesAgree(c, ks, size, ext, pieces);
      }
    } else {
      var pieces := LongLineDisagrees(c, ks, size, ext, stream);
    }
  }

  lemma LongLineDisagrees(c: Core, ks: seq<Chunk>, size: seq<byte>, ext: seq<byte>, stream: seq<byte>)
      returns (pieces: seq<seq<byte>>)
    requires c.Running() && c.state.ChunkSizeStart? && c.chunked && IsStream(ks, size, ext)
    requires c.nread <= MAX_HEADER_SIZE && !LinesShort(c.nread, ks, size, ext) && stream == Stream(ks, size, ext)
    ensures IsSplit(pieces, stream) && ExecuteAll(c, pieces) != ExecuteOnce(c, stream)
  {
    var q := LongLineCount(c.nread, ks, size, ext);
    pieces := CutInTwo(stream, q);
    EncodedSplit(c, ks, size, ext, pieces);
    assert HeaderBytes(c.nread, ks, size, ext, Boundary(pieces, 1)) == MAX_HEADER_SIZE + 1;
  }

  lemma CutInTwo(s: seq<byte>, q: nat) returns (pieces: seq<seq<byte>>)
    requires 0 < q < |s|
    ensures IsSplit(pieces, s) && |pieces| == 2 && Boundary(pieces, 1) == q
  {
    pieces := [s[..q], s[q..]];
    FlatOfTwo(s[..q], s[q..]);
    assert s[..q] + s[q..] == s;
  }

  lemma FlatOfTwo(a: seq<byte>, b: seq<byte>)
    ensures Flat([a]) == a && Flat([a, b]) == a + b && [a, b][..1] == [a]
  {
    var two, one, none: seq<seq<byte>> := [a, b], [b], [];
    assert two[1..] == one && one[1..] == none && [a][1..] == none;
    assert Flat(none) == [];
    assert b + [] == b && a + [] == a;
  }

  lemma ShortLinesAgree(c: Core, ks: seq<Chunk>, size: seq<byte>, ext: seq<byte>, pieces: seq<seq<byte>>)
    requires c.Running() && c.state.ChunkSizeStart? && c.chunked && IsStream(ks, size, ext)
    requires LinesShort(c.nread, ks, size, ext) && IsSplit(pieces, Stream(ks, size, ext))
    ensures ExecuteAll(c, pieces) == ExecuteOnce(c, Stream(ks, size, ext))
  {
    ShortAtBoundaries(c.nread, ks, size, ext, pieces);
    EncodedSplit(c, ks, size, ext, pieces);
  }

  lemma ShortAtBoundaries(n: nat, ks: seq<Chunk>, size: seq<byte>, ext: seq<byte>, pieces: seq<seq<byte>>)
    requires LinesShort(n, ks, size, ext) && IsSplit(pieces, Stream(ks, size, ext))
    ensures forall i :: 0 < i < |pieces| ==>
              HeaderBytes(n, ks, size, ext, Boundary(pieces, i)) % UINT32_RANGE <= MAX_HEADER_SIZE
  {
    forall i | 0 < i < |pieces|
      ensures HeaderBytes(n, ks, size, ext, Boundary(pieces, i)) % UINT32_RANGE <= MAX_HEADER_SIZE
    {
      InnerBoundary(pieces, i);
      ShortLinesCount(n, ks, size, ext, Boundary(pieces, i));
    }
  }

  lemma {:induction false} InnerBoundary(pieces: seq<seq<byte>>, i: nat)
    requires i < |pieces| && forall j :: 0 <= j < |pieces| ==> pieces[j] != []
    ensures Boundary(pieces, i) < |Flat(pieces)|
  {
    if i > 0 {
      assert pieces[..i][1..] == pieces[1..][..i - 1];
      InnerBoundary(pieces[1..], i - 1);
    } else {
      assert pieces[..0] == [];
    }
  }

  /** What is counted of the last size line when the stream ends. */
  function LastCount(n: nat, ks: seq<Chunk>, size: seq<byte>, ext: seq<byte>): nat {
    (if ks == [] then n else 1) + |SizeLine(size, ext)|
  }

  /** However a stream with short size lines is cut into calls, its chunks are delivered, whole
      and in order, and the decoder waits for the trailers, or has failed if the last line has
      just passed the limit. */
  lemma ChunkedStreamDelivered(c: Core, ks: seq<Chunk>, size: seq<byte>, ext: seq<byte>, pieces: seq<seq<byte>>)
    requires c.Running() && c.state.ChunkSizeStart? && c.chunked && IsStream(ks, size, ext)
    requires LinesShort(c.nread, ks, size, ext) && IsSplit(pieces, Stream(ks, size, ext))
    ensures
      var r := ExecuteAll(c, pieces);
      && BodyOf(r.events) == Payload(ks)
      && r.consumed == |Stream(ks, size, ext)|
      && r.core.state == HeaderFieldStart && r.core.trailing
      && (r.core.errno == Ok <==> LastCount(c.nread, ks, size, ext) % UINT32_RANGE <= MAX_HEADER_SIZE)
  {
    ShortLinesAgree(c, ks, size, ext, pieces);
    WholeStreamDelivered(c, ks, size, ext);
  }

  lemma WholeStreamDelivered(c: Core, ks: seq<Chunk>, size: seq<byte>, ext: seq<byte>)
    requires c.Running() && c.state.ChunkSizeStart? && c.chunked && IsStream(ks, size, ext)
    ensures
      var r := ExecuteOnce(c, Stream(ks, size, ext));
      && BodyOf(r.events) == Payload(ks)
      && r.consumed == |Stream(ks, size, ext)|
      && r.core.state == HeaderFieldStart && r.core.trailing
      && (r.core.errno == Ok <==> LastCount(c.nread, ks, size, ext) % UINT32_RANGE <= MAX_HEADER_SIZE)
  {
    ChunkedRoundTrip(c, ks, size, ext);
    PayloadOfEvents(ks);
    InTrailers(Run(c, Stream(ks, size, ext)), |Stream(ks, size, ext)|);
  }

  /** A call that ends in the trailers. */
  lemma InTrailers(run: Outcome, len: nat)
    requires run.consumed == len && run.core.errno.Ok? && run.core.state.HeaderFieldStart?
    ensures var r := AtReturn(run, len);
            && r.events == run.events && r.consumed == len
            && r.core.state == HeaderFieldStart && r.core.trailing == run.core.trailing
            && (r.core.errno == Ok <==> run.core.nread % UINT32_RANGE <= MAX_HEADER_SIZE)
  {
  }

  lemma PayloadOfEvents(ks: seq<Chunk>)
    ensures BodyOf(ChunksEvents(ks) + [OnChunkHeader(0)]) == Payload(ks)
  {
    BodyOfConcat(ChunksEvents(ks), [OnChunkHeader(0)]);
    BodyOfChunks(ks);
  }

  // -------------------------------------------------------------------- identity bodies

  /** A body that is not chunked has no size lines: nothing is counted before it ends. */
  lemma {:induction false} IdentityRun(c: Core, data: seq<byte>)
    requires c.Running() && (c.state.BodyIdentity? || c.state.BodyIdentityEof? || c.state.MessageDone?)
    ensures var r := Run(c, data).core;
            if r.state.NewMessage? then r.nread == 1 else r.state.BodyIdentity? || r.state.BodyIdentityEof? || r.state.MessageDone?
    decreases data
  {
    if data != [] {
      RunUnfolds(c, data);
      var s := Step(c, data[0]).core;
      if s.Running() {
        IdentityRun(s, data[1..]);
      } else {
        assert Run(s, data[1..]) == Outcome(s, [], 0);
      }
    }
  }

  /** However such a body is cut into calls, the outcome is that of one call. */
  lemma EveryIdentitySplitAgrees(c: Core, pieces: seq<seq<byte>>)
    requires c.Running() && (c.state.BodyIdentity? || c.state.BodyIdentityEof? || c.state.MessageDone?)
    requires IsSplit(pieces, Flat(pieces))
    ensures ExecuteAll(c, pieces) == ExecuteOnce(c, Flat(pieces))
  {
    IdentityIsQuiet(c, pieces);
    SplitInvariance(c, pieces);
  }

  lemma IdentityIsQuiet(c: Core, pieces: seq<seq<byte>>)
    requires c.Running() && (c.state.BodyIdentity? || c.state.BodyIdentityEof? || c.state.MessageDone?)
    ensures QuietBoundaries(c, pieces)
  {
    QuietMeans(c, pieces);
    forall i | 0 < i < |pieces| ensures !OverflowsAt(c, Flat(pieces[..i])) {
      IdentityIsQuietAt(c, Flat(pieces[..i]));
    }
  }

  lemma IdentityIsQuietAt(c: Core, data: seq<byte>)
    requires c.Running() && (c.state.BodyIdentity? || c.state.BodyIdentityEof? || c.state.MessageDone?)
    ensures !OverflowsAt(c, data)
  {
    IdentityRun(c, data);
  }

  /** A body of known length, or as much of it as there is: delivered byte for byte, and with its
      last byte the message is complete. */
  lemma IdentityDelivered(c: Core, pieces: seq<seq<byte>>, data: seq<byte>)
    requires c.Running() && c.state.BodyIdentity? && IsSplit(pieces, data) && 0 < |data| <= c.contentLength
    ensures
      var r := ExecuteAll(c, pieces);
      if |data| < c.contentLength
      then r == Outcome(c.(contentLength := c.contentLength - |data|, nread := 0), Bodies(data), |data|)
      else r == Outcome(c.(state := NewMessage, contentLength := 0, nread := 1), Bodies(data) + [OnMessageComplete], |data|)
  {
    EveryIdentitySplitAgrees(c, pieces);
    BulkStep(c, data);
  }

  /** A body that goes to the end of the stream. */
  lemma UntilEofDelivered(c: Core, pieces: seq<seq<byte>>, data: seq<byte>)
    requires c.Running() && c.state.BodyIdentityEof? && IsSplit(pieces, data) && data != []
    ensures ExecuteAll(c, pieces) == Outcome(c.(nread := 0), Bodies(data), |data|)
  {
    EveryIdentitySplitAgrees(c, pieces);
    BulkStep(c, data);
  }

  /** No body: the message is complete with the next byte. */
  lemma NoBodyDelivered(c: Core, b: byte)
    requires c.Running() && c.state.MessageDone?
    ensures ExecuteOnce(c, [b]) == Outcome(c.(state := NewMessage, nread := 1), [OnMessageComplete], 1)
  {
    RunByte(c, b);
  }
}
