/** base/io/buffered_inputstream.{h,cc}, over base/io/random_inputstream.{h,cc} with the
    SkipNBytes of base/io/inputstream_interface.cc: a read-ahead cache over a stream. */
module BufferedInputStream {
  import opened Bytes
  import opened FileCursor

  const MAX_SKIP_SIZE := 8 * 1024 * 1024

  class RandomAccessInputStream {
    const file: seq<byte>
    var pos: nat

    constructor (file: seq<byte>)
      ensures this.file == file && pos == 0
    {
      this.file := file;
      pos := 0;
    }

    method ReadNBytes(n: int) returns (s: Status, result: seq<byte>)
      modifies this
      ensures Reply(s, result, pos) == ReadN(file, old(pos), n)
    {
      if n < 0 {
        return InvalidArgument, [];
      }
      result := Grab(file, pos, n);
      pos := pos + |result|;
      if |result| < n {
        return OutOfRange, result;
      }
      return Ok, result;
    }

    /** InputStreamInterface::SkipNBytes, which this class inherits. */
    method SkipNBytes(n: int) returns (s: Status)
      modifies this
      ensures Reply(s, [], pos) == SkipN(file, old(pos), n)
    {
      if n < 0 {
        return InvalidArgument;
      }
      var left: nat := n;
      while left > 0
        invariant left <= n && pos == old(pos) + (n - left)
        invariant |Grab(file, old(pos), n - left)| == n - left
      {
        var some := if MAX_SKIP_SIZE < left then MAX_SKIP_SIZE else left;
        GrabSplits(file, old(pos), n - left, some);
        GrabSplits(file, old(pos), n - left, left);
        var unused;
        s, unused := ReadNBytes(some);
        if s != Ok {
          return;
        }
        left := left - some;
      }
      return Ok;
    }

    function Tell(): nat
      reads this
    {
      pos
    }

    method Reset() returns (s: Status)
      modifies this
      ensures pos == 0 && s == Ok
    {
      pos := 0;
      return Ok;
    }
  }

  class BufferedInputStream {
    const stream: RandomAccessInputStream
    const size: nat
    var buf: seq<byte>
    var pos: nat
    var limit: nat

    ghost predicate Valid()
      reads this, stream
    {
      && 0 < size
      && pos <= limit <= |buf| && limit <= stream.pos
      && buf[..limit] == Grab(stream.file, stream.pos - limit, limit)
    }

    constructor (stream: RandomAccessInputStream, bufferSize: nat)
      requires 0 < bufferSize
      ensures Valid() && this.stream == stream && Tell() == stream.pos
    {
      this.stream := stream;
      size := bufferSize;
      buf, pos, limit := [], 0, 0;
    }

    function Tell(): nat
      requires Valid()
      reads this, stream
    {
      stream.Tell() - (limit - pos)
    }

    method FillBuffer() returns (s: Status)
      requires Valid() && pos == limit
      modifies this, stream
      ensures Valid() && Tell() == old(Tell()) && pos == 0
      ensures limit == |Grab(stream.file, Tell(), size)|
      ensures s == StatusOf(limit, size)
    {
      s, buf := stream.ReadNBytes(size);
      pos := 0;
      limit := |buf|;
    }

    /** `c = buf_[pos_++]`, filling the buffer first if it is used up. */
    method NextByte(was: Status) returns (s: Status, b: byte, ended: bool)
      requires Valid()
      modifies this, stream
      ensures Valid() && ended == (|stream.file| <= old(Tell()))
      ensures ended ==> Tell() == old(Tell()) && s == OutOfRange
      ensures !ended ==> Tell() == old(Tell()) + 1 && b == stream.file[old(Tell())]
    {
      s, b, ended := was, 0, false;
      if pos == limit {
        s := FillBuffer();
        if limit == 0 {
          ended := true;
          return;
        }
      }
      GrabPart(stream.file, stream.pos - limit, limit, pos, 1);
      assert buf[..limit][pos] == buf[pos];
      b := buf[pos];
      pos := pos + 1;
    }

    method ReadLineHelper(includeEol: bool) returns (s: Status, result: seq<byte>)
      requires Valid()
      modifies this, stream
      ensures Valid()
      ensures Reply(s, result, Tell()) == FileCursor.ReadLine(stream.file, old(Tell()), includeEol)
    {
      result := [];
      s := Ok;
      ghost var c := Tell();
      LineStarts(stream.file, c);
      while true
        invariant Valid() && InLine(stream.file, c, Tell(), result)
        decreases |stream.file| - Tell()
      {
        ghost var t := Tell();
        var b, ended;
        s, b, ended := NextByte(s);
        if ended {
          LineFalls(stream.file, c, t, result);
          break;
        }
        LineGrows(stream.file, c, t, result);
        if b == NEWLINE {
          if includeEol {
            result := result + [b];
          }
          return Ok, result;
        }
        if b != RETURN {
          result := result + [b];
        }
      }
      if s == OutOfRange && result != [] {
        return Ok, result;
      }
    }

    /** Fills the buffer if it is used up; `ended` if there is nothing left to fill it with. */
    method BytesReady(was: Status) returns (s: Status, ended: bool)
      requires Valid() && (was == Ok || was == OutOfRange)
      modifies this, stream
      ensures Valid() && Tell() == old(Tell()) && (s == Ok || s == OutOfRange)
      ensures if ended then s == OutOfRange && |stream.file| <= Tell() else pos < limit
    {
      s, ended := was, false;
      if pos == limit {
        s := FillBuffer();
        ended := limit == 0;
      }
    }

    /** Copies what the buffer has, but no more than is wanted. */
    method CopyOut(most: nat) returns (bytes: seq<byte>)
      requires Valid() && pos < limit && 0 < most
      modifies this`pos
      ensures Valid() && 0 < |bytes| <= most
      ensures Tell() == old(Tell()) + |bytes| && bytes == Grab(stream.file, old(Tell()), |bytes|)
    {
      var k := if limit - pos < most then limit - pos else most;
      GrabPart(stream.file, stream.pos - limit, limit, pos, k);
      assert buf[..limit][pos..pos + k] == buf[pos..pos + k];
      bytes := buf[pos..pos + k];
      pos := pos + k;
    }

    /** *result is left as it was if n is negative. */
    method ReadNBytes(n: int, was: seq<byte>) returns (s: Status, result: seq<byte>)
      requires Valid()
      modifies this, stream
      ensures Valid()
      ensures Reply(s, if n < 0 then [] else result, Tell()) == ReadN(stream.file, old(Tell()), n)
      ensures n < 0 ==> result == was
    {
      if n < 0 {
        return InvalidArgument, was;
      }
      result := [];
      s := Ok;
      ghost var c := Tell();
      while |result| < n
        invariant Valid() && |result| <= n && Tell() == c + |result|
        invariant result == Grab(stream.file, c, |result|)
        invariant s == Ok || s == OutOfRange
      {
        var ended;
        s, ended := BytesReady(s);
        if ended {
          GrabEnds(stream.file, c, |result|, n);
          break;
        }
        var bytes := CopyOut(n - |result|);
        GrabMore(stream.file, c, |result|, |bytes|);
        result := result + bytes;
      }
      if s == OutOfRange && |result| == n {
        return Ok, result;
      }
    }

    method SkipNBytes(n: int) returns (s: Status)
      requires Valid()
      modifies this, stream
      ensures Valid()
      ensures Reply(s, [], Tell()) == SkipN(stream.file, old(Tell()), n)
    {
      if n < 0 {
        return InvalidArgument;
      }
      var f, c, have: nat := stream.file, Tell(), limit - pos;
      GrabPart(f, stream.pos - limit, limit, pos, have);
      if pos + n < limit {
        SkipInside(f, c, have, n);
        pos := pos + n;
      } else {
        SkipBeyond(f, c, have, n);
        s := stream.SkipNBytes(n - have);
        pos, limit := 0, 0;
        return;
      }
      return Ok;
    }

    method Seek(p: int) returns (s: Status)
      requires Valid()
      modifies this, stream
      ensures Valid()
      ensures Reply(s, [], Tell()) == SeekBySkipping(stream.file, old(Tell()), p)
    {
      if p < 0 {
        return InvalidArgument;
      }
      var bufpos := Tell();
      if p < bufpos {
        s := Reset();
        if s != Ok {
          return;
        }
        s := SkipNBytes(p);
        return;
      }
      s := SkipNBytes(p - bufpos);
    }

    method Reset() returns (s: Status)
      requires Valid()
      modifies this, stream
      ensures Valid() && Tell() == 0 && s == Ok
    {
      s := stream.Reset();
      pos, limit := 0, 0;
    }

    method ReadLine() returns (s: Status, result: seq<byte>)
      requires Valid()
      modifies this, stream
      ensures Valid()
      ensures Reply(s, result, Tell()) == FileCursor.ReadLine(stream.file, old(Tell()), false)
    {
      s, result := ReadLineHelper(false);
    }

    method ReadLineAsString() returns (result: seq<byte>)
      requires Valid()
      modifies this, stream
      ensures Valid()
      ensures var r := FileCursor.ReadLine(stream.file, old(Tell()), true); result == r.bytes && Tell() == r.at
    {
      var s;
      s, result := ReadLineHelper(true);
    }
  }

  // ------------------------------------------------------------------ what callers can rely on

  method Perform(b: BufferedInputStream, call: Call) returns (r: Reply)
    requires b.Valid()
    modifies b, b.stream
    ensures b.Valid() && r == Answer(b.stream.file, old(b.Tell()), call, false) && b.Tell() == r.at
  {
    var s, bytes := Ok, [];
    match call {
      case Read(n) => s, bytes := b.ReadNBytes(n, []);
      case Line(withEol) => s, bytes := b.ReadLineHelper(withEol);
      case Skip(n) => s := b.SkipNBytes(n);
      case Seek(p) => s := b.Seek(p);
      case Reset => s := b.Reset();
    }
    return Reply(s, bytes, b.Tell());
  }

  /** Any calls in any order, with a buffer of any size, answer as the bare position does. */
  method PerformAll(b: BufferedInputStream, calls: seq<Call>) returns (replies: seq<Reply>)
    requires b.Valid()
    modifies b, b.stream
    ensures b.Valid() && replies == Answers(b.stream.file, old(b.Tell()), calls, false)
    ensures b.Tell() == After(b.stream.file, old(b.Tell()), calls, false)
  {
    replies := [];
    for i := 0 to |calls|
      invariant b.Valid() && replies == Answers(b.stream.file, old(b.Tell()), calls[..i], false)
      invariant b.Tell() == After(b.stream.file, old(b.Tell()), calls[..i], false)
    {
      assert calls[..i + 1] == calls[..i] + [calls[i]];
      AnswersSnoc(b.stream.file, old(b.Tell()), calls[..i], calls[i], false);
      var r := Perform(b, calls[i]);
      replies := replies + [r];
    }
    assert calls[..|calls|] == calls;
  }
}
