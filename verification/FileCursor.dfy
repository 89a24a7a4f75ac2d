/** Reading a file of fixed contents through a bare position, without any buffer: what
    base/io/inputbuffer.{h,cc} and base/io/buffered_inputstream.{h,cc} promise.  Errors of
    the file system other than its end are left out. */
module FileCursor {
  import opened Bytes

  const NEWLINE: byte := 10
  const RETURN: byte := 13

  datatype Status = Ok | OutOfRange | InvalidArgument | DataLoss

  /** The answer to one call: its status, the bytes it gives, and the position after it. */
  datatype Reply = Reply(status: Status, bytes: seq<byte>, at: nat)

  /** RandomAccessFile::Read: the bytes of the file in c..c+n. */
  function Grab(f: seq<byte>, c: nat, n: nat): (r: seq<byte>)
    ensures |r| <= n && (c <= |f| ==> c + |r| <= |f|)
    ensures |r| < n ==> c + |r| >= |f|
  {
    if c >= |f| then [] else if c + n <= |f| then f[c..c + n] else f[c..]
  }

  /** A read is out of range exactly when it is short. */
  function StatusOf(got: nat, wanted: nat): Status {
    if got == wanted then Ok else OutOfRange
  }

  function ReadN(f: seq<byte>, c: nat, n: int): Reply {
    if n < 0 then Reply(InvalidArgument, [], c)
    else
      var bytes := Grab(f, c, n);
      Reply(StatusOf(|bytes|, n), bytes, c + |bytes|)
  }

  function SkipN(f: seq<byte>, c: nat, n: int): Reply {
    ReadN(f, c, n).(bytes := [])
  }

  /** Where the line that c is in ends: at its newline, or at the end of the file. */
  function LineEnd(f: seq<byte>, c: nat): (e: nat)
    ensures c <= e && (c <= |f| ==> e <= |f|)
    ensures forall i :: c <= i < e && i < |f| ==> f[i] != NEWLINE
    ensures e < |f| ==> f[e] == NEWLINE
    decreases |f| - c
  {
    if c >= |f| || f[c] == NEWLINE then c else LineEnd(f, c + 1)
  }

  function WithoutReturns(s: seq<byte>): seq<byte> {
    if s == [] then []
    else WithoutReturns(s[..|s| - 1]) + if s[|s| - 1] == RETURN then [] else [s[|s| - 1]]
  }

  /** The text of one line, and, if asked, its newline. */
  function ReadLine(f: seq<byte>, c: nat, withEol: bool): (r: Reply)
    ensures r.status == Ok ==> c < r.at
    ensures c <= |f| ==> r.at <= |f|
  {
    var e := LineEnd(f, c);
    var text := WithoutReturns(Grab(f, c, e - c));
    if e < |f| then Reply(Ok, text + if withEol then [NEWLINE] else [], e + 1)
    else Reply(if text == [] then OutOfRange else Ok, text, e)
  }

  /** Seek of an InputBuffer: anywhere, even past the end of the file. */
  function SeekAnywhere(c: nat, p: int): Reply {
    if p < 0 then Reply(InvalidArgument, [], c) else Reply(Ok, [], p)
  }

  /** Seek of a BufferedInputStream: by skipping, from the start of the file if need be. */
  function SeekBySkipping(f: seq<byte>, c: nat, p: int): Reply {
    if p < 0 then Reply(InvalidArgument, [], c)
    else if p < c then SkipN(f, 0, p)
    else SkipN(f, c, p - c)
  }

  // -------------------------------------------------------------------- sequences of calls

  datatype Call = Read(n: int) | Line(withEol: bool) | Skip(n: int) | Seek(p: int) | Reset

  /** The answer to a call at position c, with either rule for Seek. */
  function Answer(f: seq<byte>, c: nat, call: Call, anywhere: bool): Reply {
    match call
    case Read(n) => ReadN(f, c, n)
    case Line(withEol) => ReadLine(f, c, withEol)
    case Skip(n) => SkipN(f, c, n)
    case Seek(p) => if anywhere then SeekAnywhere(c, p) else SeekBySkipping(f, c, p)
    case Reset => Reply(Ok, [], 0)
  }

  function Answers(f: seq<byte>, c: nat, calls: seq<Call>, anywhere: bool): seq<Reply>
    decreases |calls|
  {
    if calls == [] then []
    else
      var reply := Answer(f, c, calls[0], anywhere);
      [reply] + Answers(f, reply.at, calls[1..], anywhere)
  }

  /** The position after all the calls. */
  function After(f: seq<byte>, c: nat, calls: seq<Call>, anywhere: bool): nat
    decreases |calls|
  {
    if calls == [] then c else After(f, Answer(f, c, calls[0], anywhere).at, calls[1..], anywhere)
  }

  lemma {:induction false} AnswersSnoc(f: seq<byte>, c: nat, calls: seq<Call>, call: Call, anywhere: bool)
    ensures var at := After(f, c, calls, anywhere);
            && After(f, c, calls + [call], anywhere) == Answer(f, at, call, anywhere).at
            && Answers(f, c, calls + [call], anywhere) == Answers(f, c, calls, anywhere) + [Answer(f, at, call, anywhere)]
    decreases |calls|
  {
    var more := calls + [call];
    if calls == [] {
      assert more == [call] && more[1..] == [];
    } else {
      assert more[0] == calls[0] && more[1..] == calls[1..] + [call];
      AnswersSnoc(f, Answer(f, c, calls[0], anywhere).at, calls[1..], call, anywhere);
    }
  }

  // ------------------------------------------------------------------------------- laws

  lemma GrabSplits(f: seq<byte>, c: nat, m: nat, n: nat)
    ensures var g := Grab(f, c, m); Grab(f, c, m + n) == g + Grab(f, c + |g|, if |g| == m then n else 0)
  {
  }

  /** Two reads give what one would: bytes, position, and the first failure. */
  lemma ReadInPieces(f: seq<byte>, c: nat, m: nat, n: nat)
    ensures var first := ReadN(f, c, m);
            var second := ReadN(f, first.at, n);
            var whole := ReadN(f, c, m + n);
            && whole.bytes == first.bytes + second.bytes
            && whole.at == second.at
            && whole.status == if first.status == Ok then second.status else first.status
  {
    GrabSplits(f, c, m, n);
  }

  /** Skipping is reading without looking: what follows is the same file from there. */
  lemma SkipThenRead(f: seq<byte>, c: nat, m: nat, n: nat)
    ensures ReadN(f, c, m + n).bytes == Grab(f, c, m) + ReadN(f, SkipN(f, c, m).at, n).bytes
  {
    ReadInPieces(f, c, m, n);
  }

  /** The two rules for Seek agree, from a position in the file, exactly on positions in it. */
  lemma SeeksAgree(f: seq<byte>, c: nat, p: int)
    requires c <= |f|
    ensures SeekBySkipping(f, c, p) == SeekAnywhere(c, p) <==> p <= |f|
    ensures |f| < p ==> SeekBySkipping(f, c, p) == Reply(OutOfRange, [], |f|)
  {
  }

  /** Readers with either rule answer alike as long as no one seeks past the end. */
  lemma {:induction false} ReadersAgree(f: seq<byte>, c: nat, calls: seq<Call>)
    requires c <= |f|
    requires forall i :: 0 <= i < |calls| && calls[i].Seek? ==> calls[i].p <= |f|
    ensures Answers(f, c, calls, true) == Answers(f, c, calls, false)
    decreases |calls|
  {
    if calls != [] {
      if calls[0].Seek? {
        SeeksAgree(f, c, calls[0].p);
      }
      ReadersAgree(f, Answer(f, c, calls[0], false).at, calls[1..]);
    }
  }

  lemma {:induction false} WithoutReturnsConcat(s: seq<byte>, t: seq<byte>)
    ensures WithoutReturns(s + t) == WithoutReturns(s) + WithoutReturns(t)
  {
    if t == [] {
      assert s + t == s;
    } else {
      var front := t[..|t| - 1];
      assert (s + t)[..|s + t| - 1] == s + front;
      WithoutReturnsConcat(s, front);
    }
  }

  lemma {:induction false} OnlyReturns(s: seq<byte>)
    ensures WithoutReturns(s) == [] <==> forall i :: 0 <= i < |s| ==> s[i] == RETURN
  {
    if s != [] {
      OnlyReturns(s[..|s| - 1]);
    }
  }

  /** A line is refused exactly when nothing but carriage returns is left, and not only at the
      end of the file. */
  lemma RefusedLine(f: seq<byte>, c: nat, eol: bool)
    requires c <= |f|
    ensures ReadLine(f, c, eol).status == OutOfRange <==> forall i :: c <= i < |f| ==> f[i] == RETURN
    ensures ReadLine(f, c, eol).status == OutOfRange ==> ReadLine(f, c, eol).at == |f|
  {
    var e := LineEnd(f, c);
    var rest := Grab(f, c, e - c);
    OnlyReturns(rest);
    assert rest == f[c..e];
    if e == |f| {
      assert forall i :: c <= i < |f| ==> f[i] == rest[i - c];
    }
  }

  /** So in a file of one carriage return: its byte is read, and the answer is OUT_OF_RANGE. */
  lemma LoneReturnIsRefused(eol: bool)
    ensures ReadLine([RETURN], 0, eol) == Reply(OutOfRange, [], 1)
  {
    RefusedLine([RETURN], 0, eol);
    assert Grab([RETURN], 0, 1) == [RETURN];
  }

  /** What a plain read answers. */
  lemma ReadMeans(f: seq<byte>, c: nat, n: int)
    ensures n < 0 ==> ReadN(f, c, n) == Reply(InvalidArgument, [], c)
    ensures 0 <= n ==>
              var r, left := ReadN(f, c, n), if c <= |f| then |f| - c else 0;
              && |r.bytes| == (if n <= left then n else left) && r.at == c + |r.bytes|
              && (forall i :: 0 <= i < |r.bytes| ==> r.bytes[i] == f[c + i])
              && r.status == if n <= left then Ok else OutOfRange
  {
  }

  /** The lines of a file with a tab, a return and a newline, the last line without one. */
  lemma LinesOfBytes(f: seq<byte>, eol: bool)
    requires f == [97, 9, 98, 13, 10, 99]
    ensures ReadLine(f, 0, eol) == Reply(Ok, if eol then [97, 9, 98, 10] else [97, 9, 98], 5)
    ensures ReadLine(f, 5, eol) == Reply(Ok, [99], 6) && ReadLine(f, 6, eol) == Reply(OutOfRange, [], 6)
  {
    LineOfFour(f[..4]);
    LineOfOne(f[5..6]);
    assert Grab(f, 0, 4) == f[..4] && Grab(f, 5, 1) == f[5..6] && Grab(f, 6, 0) == [];
    assert LineEnd(f, 3) == 4 && LineEnd(f, 1) == LineEnd(f, 2) == 4;
  }

  lemma LineOfFour(s: seq<byte>)
    requires s == [97, 9, 98, 13]
    ensures WithoutReturns(s) == [97, 9, 98]
  {
    assert s[..3][..2] == s[..2] && s[..2][..1] == s[..1] && s[..1][..0] == [];
    assert WithoutReturns(s[..1]) == [97];
    assert WithoutReturns(s[..2]) == [97, 9];
    assert WithoutReturns(s[..3]) == [97, 9, 98];
  }

  lemma LineOfOne(s: seq<byte>)
    requires s == [99]
    ensures WithoutReturns(s) == [99]
  {
    assert s[..0] == [];
  }

  /** All that ReadLineAsString gives, call after call, up to the first that fails. */
  function AllStrings(f: seq<byte>, c: nat): seq<byte>
    requires c <= |f|
    decreases |f| - c
  {
    var r := ReadLine(f, c, true);
    if r.status == Ok then r.bytes + AllStrings(f, r.at) else []
  }

  /** All the lines that ReadLine gives, each ended by a newline. */
  function AllLines(f: seq<byte>, c: nat): seq<byte>
    requires c <= |f|
    decreases |f| - c
  {
    var r := ReadLine(f, c, false);
    if r.status == Ok then r.bytes + [NEWLINE] + AllLines(f, r.at) else []
  }

  function WithLastEnded(text: seq<byte>): seq<byte> {
    if text == [] || text[|text| - 1] == NEWLINE then text else text + [NEWLINE]
  }

  /** One call to ReadLine where the line has its newline, and the rest of the file. */
  lemma LineAndRest(f: seq<byte>, c: nat)
    requires c <= |f| && LineEnd(f, c) < |f|
    ensures var r := ReadLine(f, c, false);
            && r.status == Ok
            && ReadLine(f, c, true) == r.(bytes := r.bytes + [NEWLINE])
            && WithoutReturns(f[c..]) == r.bytes + [NEWLINE] + WithoutReturns(f[r.at..])
  {
    var e := LineEnd(f, c);
    EndedLine(f, c, e);
    BehindLine(f, c, e, f[c..e], f[e + 1..]);
  }

  lemma BehindLine(f: seq<byte>, c: nat, e: nat, text: seq<byte>, rest: seq<byte>)
    requires c <= e < |f| && f[e] == NEWLINE && text == f[c..e] && rest == f[e + 1..]
    ensures WithoutReturns(f[c..]) == WithoutReturns(text) + [NEWLINE] + WithoutReturns(rest)
  {
    assert f[c..] == (text + [NEWLINE]) + rest;
    WithoutReturnsOfLine(text, rest);
  }

  lemma EndedLine(f: seq<byte>, c: nat, e: nat)
    requires c <= |f| && LineEnd(f, c) == e < |f|
    ensures c <= e && f[e] == NEWLINE
    ensures ReadLine(f, c, false) == Reply(Ok, WithoutReturns(f[c..e]), e + 1)
    ensures ReadLine(f, c, true) == Reply(Ok, WithoutReturns(f[c..e]) + [NEWLINE], e + 1)
  {
    assert Grab(f, c, e - c) == f[c..e];
  }

  lemma WithoutReturnsOfLine(text: seq<byte>, rest: seq<byte>)
    ensures WithoutReturns((text + [NEWLINE]) + rest) == WithoutReturns(text) + [NEWLINE] + WithoutReturns(rest)
  {
    var line := text + [NEWLINE];
    assert line[..|line| - 1] == text;
    WithoutReturnsConcat(line, rest);
  }

  /** One call to ReadLine where the file ends first. */
  lemma LineAtEnd(f: seq<byte>, c: nat)
    requires c <= |f| && LineEnd(f, c) == |f|
    ensures forall eol :: ReadLine(f, c, eol) ==
              var text := WithoutReturns(f[c..]); Reply(if text == [] then OutOfRange else Ok, text, |f|)
    ensures AllStrings(f, |f|) == AllLines(f, |f|) == []
    ensures WithLastEnded(WithoutReturns(f[c..])) ==
              var text := WithoutReturns(f[c..]); if text == [] then [] else text + [NEWLINE]
  {
    assert Grab(f, c, |f| - c) == f[c..];
    NoNewline(f[c..]);
  }

  lemma {:induction false} NoNewline(s: seq<byte>)
    requires forall i :: 0 <= i < |s| ==> s[i] != NEWLINE
    ensures var t := WithoutReturns(s); forall i :: 0 <= i < |t| ==> t[i] != NEWLINE
  {
    if s != [] {
      var front, t := s[..|s| - 1], WithoutReturns(s);
      NoNewline(front);
      assert t == WithoutReturns(front) || t == WithoutReturns(front) + [s[|s| - 1]];
    }
  }

  /** Lines with their newlines are the file, returns aside, however it ends. */
  lemma {:induction false} StringsAreTheFile(f: seq<byte>, c: nat)
    requires c <= |f|
    ensures AllStrings(f, c) == WithoutReturns(f[c..])
    decreases |f| - c
  {
    if LineEnd(f, c) < |f| {
      LineAndRest(f, c);
      StringsAreTheFile(f, ReadLine(f, c, true).at);
    } else {
      LineAtEnd(f, c);
    }
  }

  lemma WithLastEndedConcat(line: seq<byte>, text: seq<byte>)
    ensures WithLastEnded(line + [NEWLINE] + text) == line + [NEWLINE] + WithLastEnded(text)
  {
    if text == [] {
      assert line + [NEWLINE] + text == line + [NEWLINE];
    }
  }

  /** Lines without their newlines are the same, but a last line is ended if it was not. */
  lemma {:induction false} LinesAreTheFile(f: seq<byte>, c: nat)
    requires c <= |f|
    ensures AllLines(f, c) == WithLastEnded(WithoutReturns(f[c..]))
    decreases |f| - c
  {
    var r := ReadLine(f, c, false);
    if LineEnd(f, c) < |f| {
      LineAndRest(f, c);
      LinesAreTheFile(f, r.at);
      WithLastEndedConcat(r.bytes, WithoutReturns(f[r.at..]));
    } else {
      LineAtEnd(f, c);
      assert r.bytes + [NEWLINE] + [] == r.bytes + [NEWLINE];
    }
  }

  // ------------------------------------------------------------------ steps of a reader

  lemma GrabPart(f: seq<byte>, c: nat, n: nat, i: nat, k: nat)
    requires |Grab(f, c, n)| == n && i + k <= n
    ensures Grab(f, c, n)[i..i + k] == Grab(f, c + i, k)
    ensures |Grab(f, c + i, k)| == k
  {
    if k > 0 {
      var at := c + i;
      assert Grab(f, c, n) == f[c..c + n];
      assert Grab(f, at, k) == f[at..at + k];
      SliceOfSlice(f, c, n, i, k, at);
    }
  }

  lemma SliceOfSlice(f: seq<byte>, c: nat, n: nat, i: nat, k: nat, at: nat)
    requires c + n <= |f| && i + k <= n && at == c + i
    ensures f[c..c + n][i..i + k] == f[at..at + k]
  {
    var whole := f[c..c + n];
    var part, direct := whole[i..i + k], f[at..at + k];
    forall j | 0 <= j < k ensures part[j] == direct[j] {
      var inWhole: nat := i + j;
      assert part[j] == whole[inWhole] == f[c + inWhole];
      assert direct[j] == f[at + j];
    }
    assert |part| == |direct| == k;
  }

  lemma GrabOne(f: seq<byte>, c: nat)
    ensures Grab(f, c, 1) == if c < |f| then [f[c]] else []
  {
  }

  lemma GrabMore(f: seq<byte>, c: nat, m: nat, k: nat)
    requires |Grab(f, c, m)| == m && |Grab(f, c + m, k)| == k
    ensures Grab(f, c, m + k) == Grab(f, c, m) + Grab(f, c + m, k)
    ensures |Grab(f, c, m + k)| == m + k
  {
    GrabSplits(f, c, m, k);
  }

  /** Skipping over bytes that are known to be there. */
  lemma SkipInside(f: seq<byte>, c: nat, have: nat, n: nat)
    requires |Grab(f, c, have)| == have && n <= have
    ensures SkipN(f, c, n) == Reply(Ok, [], c + n)
  {
  }

  lemma SkipBeyond(f: seq<byte>, c: nat, have: nat, n: nat)
    requires |Grab(f, c, have)| == have && have <= n
    ensures SkipN(f, c, n) == SkipN(f, c + have, n - have)
  {
    GrabSplits(f, c, have, n - have);
  }

  lemma GrabEnds(f: seq<byte>, c: nat, m: nat, n: nat)
    requires |Grab(f, c, m)| == m <= n && |f| <= c + m
    ensures Grab(f, c, n) == Grab(f, c, m)
  {
  }

  /** Between c and t one line goes on, and this is its text so far. */
  ghost predicate InLine(f: seq<byte>, c: nat, t: nat, text: seq<byte>) {
    && c <= t
    && forall u {:trigger Look(u)} :: Look(u) ==> LineEnd(f, c) == LineEnd(f, t) && text == WithoutReturns(Grab(f, c, t - c))
  }

  // Look is true; a proof says Look(0) where it needs what is under it.
  predicate Look(u: int) { true }

  lemma LineStarts(f: seq<byte>, c: nat)
    ensures InLine(f, c, c, [])
  {
    assert Grab(f, c, 0) == [];
  }

  /** One more byte. */
  lemma LineGrows(f: seq<byte>, c: nat, t: nat, text: seq<byte>)
    requires InLine(f, c, t, text) && t < |f|
    ensures f[t] == NEWLINE ==> ReadLine(f, c, false) == Reply(Ok, text, t + 1)
    ensures f[t] == NEWLINE ==> ReadLine(f, c, true) == Reply(Ok, text + [NEWLINE], t + 1)
    ensures f[t] == RETURN ==> InLine(f, c, t + 1, text)
    ensures f[t] != RETURN && f[t] != NEWLINE ==> InLine(f, c, t + 1, text + [f[t]])
  {
    assert Look(0);
    var line := Grab(f, c, t + 1 - c);
    assert line[..|line| - 1] == Grab(f, c, t - c);
  }

  /** The end of the file. */
  lemma LineFalls(f: seq<byte>, c: nat, t: nat, text: seq<byte>)
    requires InLine(f, c, t, text) && |f| <= t
    ensures forall eol :: ReadLine(f, c, eol) == Reply(if text == [] then OutOfRange else Ok, text, t)
  {
    assert Look(0);
  }
}
