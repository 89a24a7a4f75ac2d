/** base/io/inputbuffer.{h,cc}: a read-ahead cache that answers as a bare position does. */
module InputBuffer {
  import opened Bytes
  import opened Arithmetic
  import opened Coding
  import opened FileCursor

  // ---------------------------------------------------------------------------- varints

  function Rest(f: seq<byte>, c: nat): seq<byte> {
    if c <= |f| then f[c..] else []
  }

  datatype VarintReply = VarintReply(status: Status, value: nat, at: nat)

  /** The answer to ReadVarint32 at c with so many bytes buffered, *result being `was`. */
  function VarintAnswer(f: seq<byte>, c: nat, buffered: nat, was: nat): VarintReply {
    var rest := Rest(f, c);
    match Decode(rest, MAX_VARINT32_BYTES)
    case Value(v, used) => VarintReply(Ok, v % Pow2(32), c + used)
    case Cut => VarintReply(OutOfRange, Groups(rest), c + |rest|)
    case TooLong =>
      if MAX_VARINT32_BYTES <= buffered then VarintReply(OutOfRange, was, c)
      else VarintReply(DataLoss, Groups(Grab(f, c, MAX_VARINT32_BYTES)) % Pow2(32), c + MAX_VARINT32_BYTES)
  }

  /** memcpy between two buffers. */
  method CopyBytes(from: array<byte>, i: nat, to: array<byte>, j: nat, k: nat)
    requires from != to && i + k <= from.Length && j + k <= to.Length
    modifies to
    ensures to[..j + k] == old(to[..j]) + from[i..i + k]
  {
    forall n | 0 <= n < k {
      to[j + n] := from[i + n];
    }
  }

  class InputBuffer {
    const file: seq<byte>
    var filePos: nat
    const size: nat
    const buf: array<byte>
    var pos: nat
    var limit: nat

    /** The buffer holds the bytes of the file just before filePos. */
    ghost predicate Valid()
      reads this, buf
    {
      && 0 < size == buf.Length
      && pos <= limit <= size && limit <= filePos
      && buf[..limit] == Grab(file, filePos - limit, limit)
    }

    constructor (file: seq<byte>, bufferBytes: nat)
      requires 0 < bufferBytes
      ensures Valid() && fresh(buf)
      ensures this.file == file && Tell() == 0
    {
      this.file := file;
      filePos, pos, limit := 0, 0, 0;
      size := bufferBytes;
      buf := new byte[bufferBytes];
    }

    function Tell(): nat
      requires Valid()
      reads this, buf
    {
      filePos - (limit - pos)
    }

    method FillBuffer() returns (s: Status)
      requires Valid() && pos == limit
      modifies this, buf
      ensures Valid() && Tell() == old(Tell()) && pos == 0
      ensures limit == |Grab(file, Tell(), size)|
      ensures s == StatusOf(limit, size)
    {
      var data := Grab(file, filePos, size);
      forall i | 0 <= i < |data| {
        buf[i] := data[i];
      }
      assert buf[..|data|] == data;
      s := StatusOf(|data|, size);
      pos := 0;
      limit := |data|;
      filePos := filePos + |data|;
    }

    /** Fills the buffer if it is used up; `ended` if there is nothing left to fill it with. */
    method BytesReady(was: Status) returns (status: Status, ended: bool)
      requires Valid() && (was == Ok || was == OutOfRange)
      modifies this, buf
      ensures Valid() && Tell() == old(Tell()) && (status == Ok || status == OutOfRange)
      ensures if ended then status == OutOfRange && |file| <= Tell() else pos < limit
    {
      status, ended := was, false;
      if pos == limit {
        status := FillBuffer();
        ended := limit == 0;
      }
    }

    /** Copies what the buffer has, but no more than is wanted. */
    method CopyMore(n: nat, result: array<byte>, bytesRead: nat, ghost c: nat) returns (k: nat)
      requires Valid() && pos < limit && bytesRead < n <= result.Length && result != buf
      requires Tell() == c + bytesRead && result[..bytesRead] == Grab(file, c, bytesRead)
      modifies this`pos, result
      ensures Valid() && 0 < k <= n - bytesRead
      ensures Tell() == c + bytesRead + k && result[..bytesRead + k] == Grab(file, c, bytesRead + k)
    {
      k := CopyOut(n, result, bytesRead);
      GrabMore(file, c, bytesRead, k);
    }

    method CopyOut(n: nat, result: array<byte>, bytesRead: nat) returns (k: nat)
      requires Valid() && pos < limit && bytesRead < n <= result.Length && result != buf
      modifies this`pos, result
      ensures Valid() && 0 < k <= n - bytesRead
      ensures Tell() == old(Tell()) + k
      ensures result[..bytesRead + k] == old(result[..bytesRead]) + Grab(file, old(Tell()), k)
      ensures |Grab(file, old(Tell()), k)| == k
    {
      k := if limit - pos < n - bytesRead then limit - pos else n - bytesRead;
      GrabPart(file, filePos - limit, limit, pos, k);
      assert buf[..limit][pos..pos + k] == buf[pos..pos + k];
      CopyBytes(buf, pos, result, bytesRead, k);
      pos := pos + k;
    }

    /** The overload that writes to char*. */
    method ReadNBytesInto(n: int, result: array<byte>) returns (status: Status, bytesRead: nat)
      requires Valid() && n <= result.Length && result != buf
      modifies this, buf, result
      ensures Valid() && bytesRead <= result.Length
      ensures Reply(status, result[..bytesRead], Tell()) == ReadN(file, old(Tell()), n)
    {
      bytesRead := 0;
      if n < 0 {
        return InvalidArgument, 0;
      }
      ghost var c := Tell();
      status := Ok;
      while bytesRead < n
        invariant Valid() && bytesRead <= n && Tell() == c + bytesRead
        invariant result[..bytesRead] == Grab(file, c, bytesRead)
        invariant status == Ok || status == OutOfRange
      {
        var ended;
        status, ended := BytesReady(status);
        if ended {
          GrabEnds(file, c, bytesRead, n);
          break;
        }
        var k := CopyMore(n, result, bytesRead, c);
        bytesRead := bytesRead + k;
      }
      if status == OutOfRange && bytesRead == n {
        return Ok, bytesRead;
      }
    }

    method ReadNBytes(n: int) returns (status: Status, result: seq<byte>)
      requires Valid()
      modifies this, buf
      ensures Valid()
      ensures Reply(status, result, Tell()) == ReadN(file, old(Tell()), n)
    {
      if n < 0 {
        return InvalidArgument, [];
      }
      var bytes := new byte[n];
      var bytesRead: nat;
      status, bytesRead := ReadNBytesInto(n, bytes);
      result := bytes[..bytesRead];
    }

    method Advance(most: nat) returns (k: nat)
      requires Valid() && pos < limit && 0 < most
      modifies this`pos
      ensures Valid() && 0 < k <= most
      ensures Tell() == old(Tell()) + k && |Grab(file, old(Tell()), k)| == k
    {
      k := if limit - pos < most then limit - pos else most;
      GrabPart(file, filePos - limit, limit, pos, k);
      pos := pos + k;
    }

    method SkipNBytes(n: int) returns (s: Status)
      requires Valid()
      modifies this, buf
      ensures Valid()
      ensures Reply(s, [], Tell()) == SkipN(file, old(Tell()), n)
    {
      if n < 0 {
        return InvalidArgument;
      }
      ghost var c := Tell();
      var skipped: nat := 0;
      s := Ok;
      while skipped < n
        invariant Valid() && skipped <= n && Tell() == c + skipped
        invariant |Grab(file, c, skipped)| == skipped
        invariant s == Ok || s == OutOfRange
      {
        if pos == limit {
          s := FillBuffer();
          if limit == 0 {
            GrabEnds(file, c, skipped, n);
            break;
          }
        }
        var k := Advance(n - skipped);
        GrabMore(file, c, skipped, k);
        skipped := skipped + k;
      }
      if s == OutOfRange && skipped == n {
        return Ok;
      }
    }

    method Seek(p: int) returns (s: Status)
      requires Valid()
      modifies this
      ensures Valid()
      ensures Reply(s, [], Tell()) == SeekAnywhere(old(Tell()), p)
    {
      if p < 0 {
        return InvalidArgument;
      }
      var bufpos := filePos - limit;
      if bufpos <= p < filePos {
        pos := p - bufpos;
      } else {
        pos, limit := 0, 0;
        filePos := p;
      }
      return Ok;
    }

    /** `c = *pos_++`, filling the buffer first if it is used up. */
    method NextByte(was: Status) returns (s: Status, b: byte, ended: bool)
      requires Valid()
      modifies this, buf
      ensures Valid() && ended == (|file| <= old(Tell()))
      ensures ended ==> Tell() == old(Tell()) && s == OutOfRange
      ensures !ended ==> Tell() == old(Tell()) + 1 && b == file[old(Tell())]
    {
      s, b, ended := was, 0, false;
      if pos == limit {
        s := FillBuffer();
        if limit == 0 {
          ended := true;
          return;
        }
      }
      b := TakeByte();
    }

    method TakeByte() returns (b: byte)
      requires Valid() && pos < limit
      modifies this`pos
      ensures Valid() && Tell() == old(Tell()) + 1 && old(Tell()) < |file| && b == file[old(Tell())]
    {
      GrabPart(file, filePos - limit, limit, pos, 1);
      GrabOne(file, filePos - limit + pos);
      assert buf[..limit][pos..pos + 1][0] == buf[pos];
      b := buf[pos];
      pos := pos + 1;
    }

    method ReadLine() returns (s: Status, result: seq<byte>)
      requires Valid()
      modifies this, buf
      ensures Valid()
      ensures Reply(s, result, Tell()) == FileCursor.ReadLine(file, old(Tell()), false)
    {
      result := [];
      s := Ok;
      ghost var c := Tell();
      LineStarts(file, c);
      while true
        invariant Valid() && InLine(file, c, Tell(), result)
        decreases |file| - Tell()
      {
        ghost var t := Tell();
        var b, ended;
        s, b, ended := NextByte(s);
        if ended {
          LineFalls(file, c, t, result);
          break;
        }
        LineGrows(file, c, t, result);
        if b == NEWLINE {
          return Ok, result;
        }
        if b != RETURN {
          result := result + [b];
        }
      }
      if s == OutOfRange && result != [] {
        return Ok, result;
      }
    }

    function Buffered(): nat
      requires Valid()
      reads this, buf
    {
      limit - pos
    }

    method ReadVarint32(was: uint32) returns (s: Status, result: nat)
      requires Valid()
      modifies this, buf
      ensures Valid()
      ensures VarintReply(s, result, Tell()) == VarintAnswer(file, old(Tell()), old(Buffered()), was)
    {
      if pos + MAX_VARINT32_BYTES <= limit {
        BufferedDecode();
        var offset := GetVarint32Ptr(buf[pos..limit]);
        match offset {
          case Null =>
            return OutOfRange, was;
          case Past(used, value) =>
            pos := pos + used;
            return Ok, value;
        }
      }
      s, result := ReadVarint32Fallback(was);
    }

    /** With five bytes buffered, the buffer decodes as the file does. */
    lemma BufferedDecode()
      requires Valid() && pos + MAX_VARINT32_BYTES <= limit
      ensures Decode(buf[pos..limit], MAX_VARINT32_BYTES) == Decode(Rest(file, Tell()), MAX_VARINT32_BYTES)
    {
      var s := buf[pos..limit];
      GrabPart(file, filePos - limit, limit, pos, limit - pos);
      assert buf[..limit][pos..limit] == s;
      RestSplits(file, Tell(), s);
      DecodePrefix(s, Rest(file, filePos), MAX_VARINT32_BYTES);
    }

    /** ReadNBytes(1, &scratch). */
    method ReadByte(scratch: array<byte>) returns (s: Status)
      requires Valid() && scratch.Length == 1 && scratch != buf
      modifies this, buf, scratch
      ensures Valid()
      ensures s == Ok || s == OutOfRange
      ensures s == Ok ==> old(Tell()) < |file| && scratch[0] == file[old(Tell())] && Tell() == old(Tell()) + 1
      ensures s != Ok ==> |file| <= old(Tell()) == Tell()
    {
      GrabOne(file, Tell());
      var bytesRead: nat;
      s, bytesRead := ReadNBytesInto(1, scratch);
      assert bytesRead == 1 ==> scratch[..1][0] == scratch[0];
    }

    method ReadVarint32Fallback(was: uint32) returns (s: Status, result: nat)
      requires Valid()
      modifies this, buf
      ensures Valid()
      ensures VarintReply(s, result, Tell()) == VarintAnswer(file, old(Tell()), 0, was)
    {
      var scratch := new byte[1];
      var shift := 0;
      result := 0;
      ghost var c := Tell();
      ghost var read: seq<byte> := [];
      NothingRead(file, c, 32);
      while shift <= 28
        invariant Valid() && shift == 7 * |read| <= 35 && Tell() == c + |read|
        invariant IsReading(file, c, read, 32, result)
        decreases 28 - shift
      {
        var over;
        s, result, over, read := ReadGroup(scratch, c, read, shift, 32, result);
        if over {
          AnswerIs(file, c, was, s, result, Tell());
          return;
        }
        shift := shift + 7;
      }
      NoNumberInside(file, c, read);
      return DataLoss, result;
    }

    /** One round of that loop; `over` if it returns. */
    method ReadGroup(scratch: array<byte>, ghost c: nat, ghost read: seq<byte>, shift: nat, bits: nat, before: nat)
        returns (s: Status, result: nat, over: bool, ghost read': seq<byte>)
      requires Valid() && scratch.Length == 1 && scratch != buf
      requires shift == 7 * |read| <= 28 && shift + 4 <= bits && Tell() == c + |read|
      requires IsReading(file, c, read, bits, before)
      modifies this, buf, scratch
      ensures Valid()
      ensures !over ==> |read'| == |read| + 1 && Tell() == c + |read'| && IsReading(file, c, read', bits, result)
      ensures over ==> IsAnswer(file, c, bits, s, result, Tell())
    {
      result, over, read' := before, true, read;
      s := ReadByte(scratch);
      if s != Ok {
        EndInside(file, c, read, bits);
        return;
      }
      ReadMore(file, c, read, scratch[0]);
      result := AddGroup(read, scratch[0], shift, bits, before);
      read' := read + [scratch[0]];
      over := scratch[0] < 128;
    }
  }

  lemma RestSplits(f: seq<byte>, c: nat, s: seq<byte>)
    requires s == Grab(f, c, |s|)
    ensures Rest(f, c) == s + Rest(f, c + |s|)
  {
  }

  /** The bytes from c on that ask for more. */
  ghost predicate IsRead(f: seq<byte>, c: nat, read: seq<byte>) {
    read == Grab(f, c, |read|) && Continues(read)
  }

  /** ... and their number so far. */
  ghost predicate IsReading(f: seq<byte>, c: nat, read: seq<byte>, bits: nat, result: nat) {
    IsRead(f, c, read) && result == Groups(read) % Pow2(bits)
  }

  lemma NothingRead(f: seq<byte>, c: nat, bits: nat)
    ensures IsReading(f, c, [], bits, 0)
  {
    GroupsBelow([], bits);
  }

  /** Where the loop returns: at the end of a number or of the file. */
  ghost predicate IsAnswer(f: seq<byte>, c: nat, bits: nat, s: Status, result: nat, at: nat) {
    match Decode(Rest(f, c), MAX_VARINT32_BYTES)
    case Value(v, used) => s == Ok && result == v % Pow2(bits) && at == c + used
    case Cut => s == OutOfRange && result == Groups(Rest(f, c)) && at == c + |Rest(f, c)|
    case TooLong => false
  }

  lemma AnswerIs(f: seq<byte>, c: nat, was: nat, s: Status, result: nat, at: nat)
    requires IsAnswer(f, c, 32, s, result, at)
    ensures VarintReply(s, result, at) == VarintAnswer(f, c, 0, was)
  {
  }

  lemma ReadMore(f: seq<byte>, c: nat, read: seq<byte>, b: byte)
    requires IsRead(f, c, read) && c + |read| < |f| && b == f[c + |read|] && |read| < MAX_VARINT32_BYTES
    ensures b >= 128 ==> IsRead(f, c, read + [b])
    ensures b < 128 ==> Decode(Rest(f, c), MAX_VARINT32_BYTES) == Value(Groups(read + [b]), |read| + 1)
  {
    GrabOneMore(f, c, read, b);
    if b < 128 {
      NumberInside(f, c, read + [b], read);
    } else {
      ContinuesSnoc(read, b);
    }
  }

  lemma GrabOneMore(f: seq<byte>, c: nat, read: seq<byte>, b: byte)
    requires read == Grab(f, c, |read|) && c + |read| < |f| && b == f[c + |read|]
    ensures read + [b] == Grab(f, c, |read| + 1)
  {
    GrabOne(f, c + |read|);
    GrabMore(f, c, |read|, 1);
  }

  lemma ContinuesSnoc(read: seq<byte>, b: byte)
    requires Continues(read) && b >= 128
    ensures Continues(read + [b])
  {
  }

  lemma GrabIsPrefix(f: seq<byte>, c: nat, n: nat)
    requires |Grab(f, c, n)| == n
    ensures n <= |Rest(f, c)| && Grab(f, c, n) == Rest(f, c)[..n]
  {
  }

  lemma EndInside(f: seq<byte>, c: nat, read: seq<byte>, bits: nat)
    requires IsRead(f, c, read) && |read| < MAX_VARINT32_BYTES && |f| <= c + |read| && 7 * |read| <= bits
    ensures read == Rest(f, c) && Decode(Rest(f, c), MAX_VARINT32_BYTES) == Cut
    ensures Groups(read) % Pow2(bits) == Groups(read)
  {
    FailureMeans(read, MAX_VARINT32_BYTES);
    GroupsBelow(read, bits);
  }

  lemma NumberInside(f: seq<byte>, c: nat, more: seq<byte>, read: seq<byte>)
    requires 0 < |more| <= MAX_VARINT32_BYTES && more == Grab(f, c, |more|)
    requires more[..|more| - 1] == read && Continues(read) && more[|more| - 1] < 128
    ensures Decode(Rest(f, c), MAX_VARINT32_BYTES) == Value(Groups(more), |more|)
  {
    var rest, last := Rest(f, c), |more| - 1;
    GrabIsPrefix(f, c, |more|);
    assert rest[..last] == read && rest[last] == more[last];
    ValueMeans(rest, MAX_VARINT32_BYTES, Groups(more), |more|);
  }

  lemma NoNumberInside(f: seq<byte>, c: nat, read: seq<byte>)
    requires |read| == MAX_VARINT32_BYTES && IsRead(f, c, read)
    ensures Decode(Rest(f, c), MAX_VARINT32_BYTES) == TooLong
  {
    GrabIsPrefix(f, c, MAX_VARINT32_BYTES);
    FailureMeans(Rest(f, c), MAX_VARINT32_BYTES);
  }

  // ------------------------------------------------------------------ what callers can rely on

  /** The answers, by the bytes at c: a number of at most five, the end of the file inside one, or five
      that all ask for more. */
  lemma AnswersAre(f: seq<byte>, c: nat, buffered: nat, was: nat, u: nat)
    ensures var rest, r := Rest(f, c), VarintAnswer(f, c, buffered, was);
            && (0 < u <= 5 && u <= |rest| && Continues(rest[..u - 1]) && rest[u - 1] < 128 ==>
                  r == VarintReply(Ok, Groups(rest[..u]) % Pow2(32), c + u))
            && (|rest| < 5 && Continues(rest) ==> r == VarintReply(OutOfRange, Groups(rest), c + |rest|))
            && (5 <= |rest| && Continues(rest[..5]) ==>
                  if 5 <= buffered then r == VarintReply(OutOfRange, was, c)
                  else r.status == DataLoss && r.at == c + 5)
  {
    var rest := Rest(f, c);
    FailureMeans(rest, 5);
    if 0 < u <= |rest| {
      ValueMeans(rest, 5, Groups(rest[..u]), u);
    }
  }

  /** How much is buffered shows in the answer exactly when five bytes in a row ask for more:
      read from the buffer they are out of range and stay unread, read one by one they are a
      loss of data and are gone. */
  lemma BufferingShows(f: seq<byte>, c: nat, was: nat)
    ensures (forall m: nat, n: nat :: VarintAnswer(f, c, m, was) == VarintAnswer(f, c, n, was)) <==>
            !(5 <= |Rest(f, c)| && Continues(Rest(f, c)[..5]))
  {
    FailureMeans(Rest(f, c), 5);
    assert VarintAnswer(f, c, 0, was) == VarintAnswer(f, c, 5, was) ==> Decode(Rest(f, c), 5) != TooLong;
  }

  /** The numbers of a file of encodings, one call after another, however much is buffered. */
  lemma NextNumber(f: seq<byte>, c: nat, vs: seq<uint32>, buffered: nat, was: nat)
    requires Rest(f, c) == Encodings(vs)
    ensures var r := VarintAnswer(f, c, buffered, was);
            if vs == [] then r == VarintReply(OutOfRange, 0, c)
            else r.status == Ok && r.value == vs[0] && c < r.at <= |f| && Rest(f, r.at) == Encodings(vs[1..])
  {
    if vs != [] {
      EncodedFirst(f, c, vs[0], Encodings(vs[1..]), buffered, was);
    }
  }

  lemma EncodedFirst(f: seq<byte>, c: nat, v: uint32, more: seq<byte>, buffered: nat, was: nat)
    requires Rest(f, c) == Encoding(v) + more
    ensures var r := VarintAnswer(f, c, buffered, was);
            r.status == Ok && r.value == v && c < r.at <= |f| && Rest(f, r.at) == more
  {
    WidthsFit();
    EncodedNext(f, c, v, more, MAX_VARINT32_BYTES, 32);
    AnswerOfValue(f, c, buffered, was, v, |Encoding(v)|);
    RestAfter(f, c, Encoding(v), more);
  }

  lemma AnswerOfValue(f: seq<byte>, c: nat, buffered: nat, was: nat, v: nat, used: nat)
    requires Decode(Rest(f, c), MAX_VARINT32_BYTES) == Value(v, used)
    ensures VarintAnswer(f, c, buffered, was) == VarintReply(Ok, v % Pow2(32), c + used)
  {
  }

  lemma EncodedNext(f: seq<byte>, c: nat, v: nat, more: seq<byte>, max: nat, bits: nat)
    requires 0 < max && v < Pow2(7 * max) && v < Pow2(bits) && Rest(f, c) == Encoding(v) + more
    ensures Decode(Rest(f, c), max) == Value(v, |Encoding(v)|) && v % Pow2(bits) == v
  {
    RoundTrip(v, more, max);
    DivModIs(v, Pow2(bits), 0, v);
  }

  lemma RestAfter(f: seq<byte>, c: nat, s: seq<byte>, rest: seq<byte>)
    requires Rest(f, c) == s + rest && s != []
    ensures c + |s| <= |f| && Rest(f, c + |s|) == rest
  {
    assert Rest(f, c)[|s|..] == rest;
  }

  /** Reading numbers until a call fails: all of a list that PutVarint32 wrote, and then
      OUT_OF_RANGE, with a buffer of any size. */
  method ReadVarints(b: InputBuffer, ghost vs: seq<uint32>) returns (s: Status, result: seq<nat>)
    requires b.Valid() && Rest(b.file, b.Tell()) == Encodings(vs)
    modifies b, b.buf
    ensures b.Valid() && s == OutOfRange && result == vs
  {
    result := [];
    ghost var n: nat := 0;
    while true
      invariant b.Valid() && n <= |vs| && result == vs[..n] && Rest(b.file, b.Tell()) == Encodings(vs[n..])
      decreases |vs| - n
    {
      var value;
      s, value := ReadNext(b, vs[n..]);
      if s != Ok {
        return;
      }
      OneMoreOf(vs, n);
      result := result + [value];
      n := n + 1;
    }
  }

  lemma OneMoreOf(vs: seq<nat>, n: nat)
    requires n < |vs|
    ensures vs[n..][0] == vs[n] && vs[n..][1..] == vs[n + 1..] && vs[..n] + [vs[n]] == vs[..n + 1]
  {
  }

  method ReadNext(b: InputBuffer, ghost left: seq<uint32>) returns (s: Status, value: nat)
    requires b.Valid() && Rest(b.file, b.Tell()) == Encodings(left)
    modifies b, b.buf
    ensures b.Valid()
    ensures if left == [] then s == OutOfRange
            else s == Ok && value == left[0] && Rest(b.file, b.Tell()) == Encodings(left[1..])
  {
    NextNumber(b.file, b.Tell(), left, b.Buffered(), 0);
    s, value := b.ReadVarint32(0);
  }

  method Perform(b: InputBuffer, call: Call) returns (r: Reply)
    requires b.Valid() && call != Line(true) && call != Reset
    modifies b, b.buf
    ensures b.Valid() && r == Answer(b.file, old(b.Tell()), call, true) && b.Tell() == r.at
  {
    var s, bytes := Ok, [];
    match call {
      case Read(n) => s, bytes := b.ReadNBytes(n);
      case Line(_) => s, bytes := b.ReadLine();
      case Skip(n) => s := b.SkipNBytes(n);
      case Seek(p) => s := b.Seek(p);
    }
    return Reply(s, bytes, b.Tell());
  }

  /** Any calls in any order, with a buffer of any size, answer as the bare position does. */
  method PerformAll(b: InputBuffer, calls: seq<Call>) returns (replies: seq<Reply>)
    requires b.Valid() && forall i :: 0 <= i < |calls| ==> calls[i] != Line(true) && calls[i] != Reset
    modifies b, b.buf
    ensures b.Valid() && replies == Answers(b.file, old(b.Tell()), calls, true)
    ensures b.Tell() == After(b.file, old(b.Tell()), calls, true)
  {
    replies := [];
    for i := 0 to |calls|
      invariant b.Valid() && replies == Answers(b.file, old(b.Tell()), calls[..i], true)
      invariant b.Tell() == After(b.file, old(b.Tell()), calls[..i], true)
    {
      assert calls[..i + 1] == calls[..i] + [calls[i]];
      AnswersSnoc(b.file, old(b.Tell()), calls[..i], calls[i], true);
      var r := Perform(b, calls[i]);
      replies := replies + [r];
    }
    assert calls[..|calls|] == calls;
  }
}
