/** The body decoder of base/http/http_parser.cc: the identity and chunked body
    states of http_parser_execute, with callbacks that return 0.  The byte-at-a-time
    machine is the specification; the class HttpParser is the resumable decoder with
    its bulk pointer jumps and buffer marks. */
module HttpBody {
  import opened Bytes

  const INT64_MAX := 0x7fff_ffff_ffff_ffff
  const UINT32_RANGE := 0x1_0000_0000
  const MAX_HEADER_SIZE := 80 * 1024
  const CR: byte := 13
  const LF: byte := 10

  /** The body states, and the two states in which the body decoder is left:
      HeaderFieldStart (trailers) and NewMessage. */
  datatype State =
    | ChunkSizeStart | ChunkSize | ChunkParameters | ChunkSizeAlmostDone
    | ChunkData | ChunkDataAlmostDone | ChunkDataDone
    | BodyIdentity | BodyIdentityEof | MessageDone
    | HeaderFieldStart | NewMessage
  {
    predicate InBody() { !HeaderFieldStart? && !NewMessage? }

    /** PARSING_HEADER: the states at or before s_headers_done in the enumeration. */
    predicate ParsingHeader() {
      ChunkSizeStart? || ChunkSize? || ChunkParameters? || ChunkSizeAlmostDone? || HeaderFieldStart? || NewMessage?
    }

    predicate CopiesBody() { ChunkData? || BodyIdentity? || BodyIdentityEof? }
  }

  datatype Errno = Ok | InvalidEofState | HeaderOverflow | InvalidChunkSize | HugeChunkSize

  /** One callback invocation. */
  datatype Event = OnBody(bytes: seq<byte>) | OnChunkHeader(length: int) | OnChunkComplete | OnMessageComplete

  /** What of a parser the body decoder depends on.  nread is kept at 0 where the
      source calls its value irrelevant: outside the header states and after an error.
      It counts without bound here; the 32-bit field wraps where a buffer ends. */
  datatype Core = Core(state: State, contentLength: int, chunked: bool, trailing: bool, nread: nat, errno: Errno)
  {
    /** The assertions in the switch, and the range of content_length. */
    predicate Valid() {
      errno.Ok? ==>
        && (!state.ParsingHeader() ==> nread == 0)
        && match state
           case ChunkSizeStart => chunked
           case ChunkSize | ChunkParameters | ChunkSizeAlmostDone => chunked && 0 <= contentLength <= INT64_MAX
           case ChunkData => chunked && 0 < contentLength <= INT64_MAX
           case ChunkDataAlmostDone => chunked && contentLength == 0
           case ChunkDataDone => chunked
           case BodyIdentity => 0 < contentLength <= INT64_MAX
           case _ => true
    }

    predicate Running() { errno.Ok? && state.InBody() }

    function Failed(e: Errno): Core { this.(errno := e, nread := 0) }

    function Wrapped(): Core { this.(nread := nread % UINT32_RANGE) }

    /** Overflow is looked at only where a buffer ends. */
    predicate Overflowing() { errno.Ok? && state.ParsingHeader() && nread % UINT32_RANGE > MAX_HEADER_SIZE }
  }

  /** The table unhex; it has 128 initialisers, so the entries from 128 on are 0. */
  function Unhex(b: byte): int {
    if 48 <= b <= 57 then b - 48
    else if 65 <= b <= 70 then b - 55
    else if 97 <= b <= 102 then b - 87
    else if b >= 128 then 0
    else -1
  }

  // ---------------------------------------------------------------- the machine

  datatype Outcome = Outcome(core: Core, events: seq<Event>, consumed: nat)

  /** One header byte more, or one in a state where the counter does not matter. */
  function Counted(c: Core, s: State): Core {
    c.(state := s, nread := if s.ParsingHeader() then c.nread + 1 else 0)
  }

  /** A byte that zeroes the counter and is itself the first one counted. */
  function Restarted(c: Core, s: State): Core { c.(state := s, nread := 1) }

  /** What one byte does. */
  function Step(c: Core, b: byte): Outcome
    requires c.Running()
  {
    match c.state
    case ChunkSizeStart =>
      if Unhex(b) == -1 then Outcome(c.Failed(InvalidChunkSize), [], 0)
      else Outcome(Counted(c, ChunkSize).(contentLength := Unhex(b)), [], 1)
    case ChunkSize =>
      if b == CR then Outcome(Counted(c, ChunkSizeAlmostDone), [], 1)
      else if Unhex(b) == -1 then
        if b == ';' as int || b == ' ' as int then Outcome(Counted(c, ChunkParameters), [], 1)
        else Outcome(c.Failed(InvalidChunkSize), [], 0)
      else if c.contentLength > (INT64_MAX - Unhex(b)) / 16 then Outcome(c.Failed(HugeChunkSize), [], 0)
      else Outcome(Counted(c, ChunkSize).(contentLength := c.contentLength * 16 + Unhex(b)), [], 1)
    case ChunkParameters =>
      Outcome(Counted(c, if b == CR then ChunkSizeAlmostDone else ChunkParameters), [], 1)
    case ChunkSizeAlmostDone =>
      if c.contentLength == 0
      then Outcome(Counted(c, HeaderFieldStart).(trailing := true), [OnChunkHeader(0)], 1)
      else Outcome(Counted(c, ChunkData), [OnChunkHeader(c.contentLength)], 1)
    case ChunkData =>
      var left := c.contentLength - 1;
      Outcome(Counted(c, if left == 0 then ChunkDataAlmostDone else ChunkData).(contentLength := left), [OnBody([b])], 1)
    case ChunkDataAlmostDone => Outcome(Counted(c, ChunkDataDone), [], 1)
    case ChunkDataDone => Outcome(Restarted(c, ChunkSizeStart), [OnChunkComplete], 1)
    case BodyIdentity =>
      var left := c.contentLength - 1;
      if left == 0
      then Outcome(Restarted(c, NewMessage).(contentLength := 0), [OnBody([b]), OnMessageComplete], 1)
      else Outcome(Counted(c, BodyIdentity).(contentLength := left), [OnBody([b])], 1)
    case BodyIdentityEof => Outcome(Counted(c, BodyIdentityEof), [OnBody([b])], 1)
    case MessageDone => Outcome(Restarted(c, NewMessage), [OnMessageComplete], 1)
    case _ => Outcome(c, [], 0)
  }

  /** The machine run over a buffer until it fails, leaves the body, or the buffer ends. */
  function Run(c: Core, data: seq<byte>): (r: Outcome)
    ensures r.consumed <= |data|
    decreases data
  {
    if data == [] || !c.Running() then Outcome(c, [], 0)
    else
      var s := Step(c, data[0]);
      if !s.core.errno.Ok? then s
      else
        var r := Run(s.core, data[1..]);
        Outcome(r.core, s.events + r.events, 1 + r.consumed)
  }

  /** One call of http_parser_execute on a non-empty buffer. */
  function ExecuteOnce(c: Core, data: seq<byte>): Outcome { AtReturn(Run(c, data), |data|) }

  function AtReturn(r: Outcome, len: nat): Outcome {
    if r.consumed == len && r.core.Overflowing() then r.(core := r.core.Failed(HeaderOverflow))
    else r.(core := r.core.Wrapped())
  }

  /** A run of calls; it stops when the decoder has failed or left the body. */
  function ExecuteAll(c: Core, pieces: seq<seq<byte>>): Outcome
    decreases pieces
  {
    if pieces == [] || !c.Running() then Outcome(c, [], 0)
    else
      var s := ExecuteOnce(c, pieces[0]);
      var r := ExecuteAll(s.core, pieces[1..]);
      Outcome(r.core, s.events + r.events, s.consumed + r.consumed)
  }

  function Flat(pieces: seq<seq<byte>>): seq<byte> {
    if pieces == [] then [] else pieces[0] + Flat(pieces[1..])
  }

  /** The callbacks with every body range given one byte at a time. */
  function Bytewise(log: seq<Event>): seq<Event> {
    if log == [] then []
    else
      var e := log[|log| - 1];
      Bytewise(log[..|log| - 1]) + (if e.OnBody? then Bodies(e.bytes) else [e])
  }

  ghost predicate IsBytewise(log: seq<Event>, t: seq<Event>) { t == Bytewise(log) }

  function Bodies(s: seq<byte>): seq<Event> { seq(|s|, i requires 0 <= i < |s| => OnBody([s[i]])) }

  // ------------------------------------------------------- laws of the machine

  /** No step leaves 0..INT64_MAX or breaks an assertion of the switch. */
  lemma {:induction false} StepKeepsValid(c: Core, b: byte)
    requires c.Valid() && c.Running()
    ensures Step(c, b).core.Valid()
  {
    assert (INT64_MAX - Unhex(b)) / 16 * 16 <= INT64_MAX - Unhex(b);
  }

  lemma {:induction false} RunKeepsValid(c: Core, data: seq<byte>)
    requires c.Valid()
    ensures Run(c, data).core.Valid()
    decreases data
  {
    if data != [] && c.Running() {
      StepKeepsValid(c, data[0]);
      RunKeepsValid(Step(c, data[0]).core, data[1..]);
    }
  }

  lemma RunUnfolds(c: Core, data: seq<byte>)
    requires data != [] && c.Running()
    ensures
      var s := Step(c, data[0]);
      var r := Run(s.core, data[1..]);
      Run(c, data) ==
        if s.core.errno.Ok? then Outcome(r.core, s.events + r.events, 1 + r.consumed) else Outcome(s.core, [], 0)
  {
  }

  /** Running over a concatenation is running over its parts. */
  lemma {:induction false} RunConcat(c: Core, a: seq<byte>, b: seq<byte>)
    ensures
      var r := Run(c, a);
      var t := Run(r.core, b);
      Run(c, a + b) ==
        if r.consumed == |a| then Outcome(t.core, r.events + t.events, |a| + t.consumed) else r
    decreases a
  {
    if a == [] {
      assert a + b == b;
      assert [] + Run(c, b).events == Run(c, b).events;
    } else if c.Running() {
      var s := Step(c, a[0]);
      RunUnfolds(c, a);
      RunUnfolds(c, a + b);
      assert (a + b)[0] == a[0] && (a + b)[1..] == a[1..] + b;
      if s.core.errno.Ok? {
        RunConcat(s.core, a[1..], b);
        Regrouped(s.events, Run(s.core, a[1..]).events, Run(Run(s.core, a[1..]).core, b).events);
      }
    } else {
      assert Run(c, a) == Outcome(c, [], 0) == Run(c, a + b);
    }
  }

  lemma Regrouped(x: seq<Event>, y: seq<Event>, z: seq<Event>)
    ensures x + (y + z) == (x + y) + z
  {
  }

  /** The state in which k body bytes leave the machine. */
  function AfterBody(c: Core, k: nat): Core
    requires c.state.CopiesBody()
  {
    if c.state.BodyIdentityEof? then c.(nread := 0)
    else if k < c.contentLength then c.(contentLength := c.contentLength - k, nread := 0)
    else if c.state.ChunkData? then c.(contentLength := 0, state := ChunkDataAlmostDone, nread := 0)
    else c.(contentLength := 0, state := NewMessage, nread := 1)
  }

  function BodyEvents(c: Core, s: seq<byte>): seq<Event> {
    Bodies(s) + (if c.state.BodyIdentity? && |s| == c.contentLength then [OnMessageComplete] else [])
  }

  lemma OneBodyByte(c: Core, b: byte)
    requires c.Running() && c.state.CopiesBody()
    requires !c.state.BodyIdentityEof? ==> 1 <= c.contentLength
    ensures Step(c, b) == Outcome(AfterBody(c, 1), BodyEvents(c, [b]), 1)
  {
    assert Bodies([b]) == [OnBody([b])];
  }

  /** The bulk step: content_length is the number of body bytes still owed, and up to
      that many bytes are delivered unchanged. */
  lemma {:induction false} BulkStep(c: Core, s: seq<byte>)
    requires c.Running() && c.state.CopiesBody() && s != []
    requires !c.state.BodyIdentityEof? ==> |s| <= c.contentLength
    ensures Run(c, s) == Outcome(AfterBody(c, |s|), BodyEvents(c, s), |s|)
    decreases s
  {
    OneBodyByte(c, s[0]);
    var d := AfterBody(c, 1);
    if |s| == 1 {
      assert s == [s[0]] && s[1..] == [];
      assert Run(d, s[1..]) == Outcome(d, [], 0);
      assert BodyEvents(c, s) + [] == BodyEvents(c, s);
    } else {
      BulkStep(d, s[1..]);
      assert AfterBody(d, |s| - 1) == AfterBody(c, |s|);
      assert BodyEvents(c, [s[0]]) + BodyEvents(d, s[1..]) == BodyEvents(c, s);
    }
  }

  lemma BulkJump(c: Core, data: seq<byte>, p: nat, p': nat)
    requires c.Running() && c.state.CopiesBody() && p < p' <= |data|
    requires !c.state.BodyIdentityEof? ==> p' - p <= c.contentLength
    ensures
      var rest := Run(AfterBody(c, p' - p), data[p'..]);
      Run(c, data[p..]) == Outcome(rest.core, BodyEvents(c, data[p..p']) + rest.events, p' - p + rest.consumed)
  {
    assert data[p..p'] + data[p'..] == data[p..];
    BulkThen(c, data[p..p'], data[p'..], data[p..]);
  }

  lemma BulkThen(c: Core, s: seq<byte>, after: seq<byte>, all: seq<byte>)
    requires all == s + after && c.Running() && c.state.CopiesBody() && s != [] && (!c.state.BodyIdentityEof? ==> |s| <= c.contentLength)
    ensures
      var rest := Run(AfterBody(c, |s|), after);
      Run(c, all) == Outcome(rest.core, BodyEvents(c, s) + rest.events, |s| + rest.consumed)
  {
    BulkStep(c, s);
    RunConcat(c, s, after);
  }

  function Min(a: int, b: int): int { if a < b then a else b }

  /** A machine whose whole run is `whole` has come to byte p in core cur with events done. */
  ghost predicate Reached(whole: Outcome, data: seq<byte>, cur: Core, done: seq<Event>, p: nat)
    requires p <= |data|
  {
    forall rest :: IsRun(cur, data[p..], rest) ==>
      whole == Outcome(rest.core, done + rest.events, p + rest.consumed)
  }

  ghost predicate IsRun(c: Core, data: seq<byte>, r: Outcome) { r == Run(c, data) }

  lemma ReachedStart(c: Core, data: seq<byte>, told: seq<Event>)
    ensures var r := Run(c, data); Reached(Outcome(r.core, told + r.events, r.consumed), data, c, told, 0)
  {
    assert data[0..] == data;
  }

  lemma ReachedByte(whole: Outcome, data: seq<byte>, cur: Core, done: seq<Event>, p: nat)
    requires p < |data| && Reached(whole, data, cur, done, p) && cur.Running()
    ensures
      var s := Step(cur, data[p]);
      if s.core.errno.Ok? then Reached(whole, data, s.core, done + s.events, p + 1)
      else whole == Outcome(s.core, done + s.events, p)
  {
    RunUnfolds(cur, data[p..]);
    assert data[p..][1..] == data[p + 1..];
    assert IsRun(cur, data[p..], Run(cur, data[p..]));
    var s := Step(cur, data[p]);
    if s.core.errno.Ok? {
      Regrouped(done, s.events, Run(s.core, data[p + 1..]).events);
    }
  }

  lemma ReachedBulk(whole: Outcome, data: seq<byte>, cur: Core, done: seq<Event>, p: nat, p': nat)
    requires p < p' <= |data| && Reached(whole, data, cur, done, p)
    requires cur.Running() && cur.state.CopiesBody() && (!cur.state.BodyIdentityEof? ==> p' - p <= cur.contentLength)
    ensures Reached(whole, data, AfterBody(cur, p' - p), done + BodyEvents(cur, data[p..p']), p')
  {
    BulkJump(cur, data, p, p');
    assert IsRun(cur, data[p..], Run(cur, data[p..]));
    Regrouped(done, BodyEvents(cur, data[p..p']), Run(AfterBody(cur, p' - p), data[p'..]).events);
  }

  lemma AfterBodyValid(c: Core, k: nat)
    requires c.Valid() && c.Running() && c.state.CopiesBody() && (!c.state.BodyIdentityEof? ==> k <= c.contentLength)
    ensures AfterBody(c, k).Valid()
  {
  }

  lemma ReachedEnd(whole: Outcome, data: seq<byte>, cur: Core, done: seq<Event>, p: nat)
    requires p <= |data| && Reached(whole, data, cur, done, p) && (p == |data| || !cur.Running())
    ensures whole == Outcome(cur, done, p)
  {
    assert IsRun(cur, data[p..], Run(cur, data[p..]));
    assert done + [] == done;
  }

  /** A byte that ends a chunk or a message. */
  lemma OtherStep(whole: Outcome, data: seq<byte>, c: Core, done: seq<Event>, p: nat) returns (s: Outcome)
    requires p < |data| && Reached(whole, data, c, done, p)
    requires c.Valid() && c.Running() && (c.state.ChunkDataAlmostDone? || c.state.ChunkDataDone? || c.state.MessageDone?)
    ensures IsStep(c, data[p], s) && EndsPart(s.core) && Reached(whole, data, s.core, done + s.events, p + 1)
  {
    s := Step(c, data[p]);
    ReachedByte(whole, data, c, done, p);
  }

  predicate EndsPart(c: Core) {
    c.errno.Ok? && c.Valid() && !c.state.CopiesBody() && (c.state.ParsingHeader() ==> c.nread == 1)
  }

  ghost predicate IsStep(c: Core, b: byte, s: Outcome) {
    c.Running() && forall u {:trigger Look(u)} :: Look(u) ==> s == Step(c, b)
  }

  // Look is true; a proof says Look(0) where it needs what is under it.
  predicate Look(u: int) { true }

  /** The bytes marked for on_body and not delivered yet; -1 is the null mark. */
  function Marked(data: seq<byte>, mark: int, p: nat): seq<Event>
    requires -1 <= mark <= p <= |data|
  {
    if mark == -1 then [] else Bodies(data[mark..p])
  }

  lemma NothingMarked(told: seq<Event>, data: seq<byte>, p: nat)
    requires p <= |data|
    ensures told + Marked(data, -1, p) == told
  {
  }

  lemma MarkMore(data: seq<byte>, mark: int, p: nat, p': nat)
    requires -1 <= mark <= p < p' <= |data|
    ensures Marked(data, if mark == -1 then p else mark, p') == Marked(data, mark, p) + Bodies(data[p..p'])
  {
    if mark != -1 {
      assert data[mark..p'] == data[mark..p] + data[p..p'];
      assert Bodies(data[mark..p']) == Bodies(data[mark..p]) + Bodies(data[p..p']);
    }
  }

  /** Extending the mark, delivering what is marked, and ending the message. */
  lemma Regroup(told: seq<Event>, m: seq<Event>, b: seq<Event>)
    ensures told + (m + b) == (told + m) + b
    ensures told + m + [] == told + m
    ensures (told + (m + b)) + [OnMessageComplete] == (told + m) + (b + [OnMessageComplete])
  {
  }

  /** A failing byte is not consumed, so the failure is not at the end of the buffer. */
  lemma {:induction false} RunFailed(c: Core, data: seq<byte>)
    requires c.errno.Ok?
    ensures !Run(c, data).core.errno.Ok? ==> Run(c, data).consumed < |data| && Run(c, data).core.nread == 0
    decreases data
  {
    if data != [] && c.Running() {
      RunUnfolds(c, data);
      var s := Step(c, data[0]);
      if s.core.errno.Ok? {
        RunFailed(s.core, data[1..]);
      }
    }
  }

  // --------------------------------------------------------------- the decoder

  class HttpParser {
    var state: State
    var contentLength: int
    var chunked: bool
    var trailing: bool
    var nread: nat
    var errno: Errno
    var log: seq<Event>
    ghost var told: seq<Event>  // Bytewise(log)

    /** The parser's fields, with the counter given separately. */
    ghost function With(counter: nat): Core
      reads this
    {
      Core(state, contentLength, chunked, trailing, counter, errno)
    }

    ghost function Abs(): Core
      reads this
    {
      With(if errno.Ok? && state.ParsingHeader() then nread else 0)
    }

    ghost predicate LogValid()
      reads this
    {
      forall t :: IsBytewise(log, t) ==> told == t
    }

    ghost predicate Valid()
      reads this
    {
      Abs().Valid() && nread < UINT32_RANGE && LogValid()
    }

    method Notify(e: Event)
      requires LogValid()
      modifies this`log, this`told
      ensures LogValid() && log == old(log) + [e]
      ensures told == old(told) + (if e.OnBody? then Bodies(e.bytes) else [e])
    {
      assert IsBytewise(log, Bytewise(log));
      assert (log + [e])[..|log|] == log;
      log, told := log + [e], told + (if e.OnBody? then Bodies(e.bytes) else [e]);
    }

    /** The cases s_chunk_size_start to s_chunk_size_almost_done of the switch. */
    method SizeByte(ch: byte, ghost cur: Core)
      requires cur == With(cur.nread) && cur.Valid() && cur.Running() && LogValid()
      requires state.ChunkSizeStart? || state.ChunkSize? || state.ChunkParameters? || state.ChunkSizeAlmostDone?
      modifies this
      ensures nread == old(nread)
      ensures var s := Step(cur, ch);
        && s.core.Valid()
        && s.core == With(s.core.nread)
        && told == old(told) + s.events
        && LogValid()
    {
      StepKeepsValid(cur, ch);
      assert chunked;
      match state {
        case ChunkSizeStart =>
          var v := Unhex(ch);
          if v == -1 {
            errno := InvalidChunkSize;
          } else {
            contentLength := v;
            state := ChunkSize;
          }
        case ChunkSize =>
          if ch == CR {
            state := ChunkSizeAlmostDone;
          } else {
            var v := Unhex(ch);
            if v == -1 {
              if ch == ';' as int || ch == ' ' as int {
                state := ChunkParameters;
              } else {
                errno := InvalidChunkSize;
              }
            } else if contentLength > (INT64_MAX - v) / 16 {
              errno := HugeChunkSize;
            } else {
              contentLength := contentLength * 16;
              contentLength := contentLength + v;
            }
          }
        case ChunkParameters =>
          if ch == CR {
            state := ChunkSizeAlmostDone;
          }
        case ChunkSizeAlmostDone =>
          if contentLength == 0 {
            trailing := true;
            state := HeaderFieldStart;
          } else {
            state := ChunkData;
          }
          Notify(OnChunkHeader(contentLength));
      }
    }

    /** What a case that copies the range p..p' of the buffer leaves behind. */
    twostate predicate Copied(data: seq<byte>, p: nat, mark: int, cur: Core, p': nat, mark': int)
      requires p < p' <= |data| && -1 <= mark < p && -1 <= mark' < p' && cur.state.CopiesBody()
      reads this
    {
      var next := AfterBody(cur, p' - p);
      && (!cur.state.BodyIdentityEof? ==> p' - p <= cur.contentLength)
      && next == With(next.nread)
      && (nread == if state.NewMessage? then 0 else old(nread))
      && told + Marked(data, mark', p') == old(told) + Marked(data, mark, p) + BodyEvents(cur, data[p..p'])
      && LogValid()
    }

    /** s_chunk_data */
    method CopyChunk(data: seq<byte>, p: nat, mark: int, ghost cur: Core) returns (p': nat, mark': int)
      requires p < |data| && -1 <= mark < p
      requires cur == With(cur.nread) && cur.Valid() && cur.Running() && LogValid() && state.ChunkData?
      modifies this
      ensures p < p' <= |data| && 0 <= mark' < p'
      ensures Copied(data, p, mark, cur, p', mark')
    {
      mark' := if mark == -1 then p else mark;
      var toRead := Min(contentLength, |data| - p);
      assert chunked && contentLength > 0;
      p' := p + toRead;
      MarkMore(data, mark, p, p');
      Regroup(told, Marked(data, mark, p), Bodies(data[p..p']));
      contentLength := contentLength - toRead;
      if contentLength == 0 {
        state := ChunkDataAlmostDone;
      }
    }

    /** s_body_identity_eof */
    method CopyToEof(data: seq<byte>, p: nat, mark: int, ghost cur: Core) returns (p': nat, mark': int)
      requires p < |data| && -1 <= mark < p
      requires cur == With(cur.nread) && cur.Valid() && cur.Running() && LogValid() && state.BodyIdentityEof?
      modifies this
      ensures p < p' <= |data| && 0 <= mark' < p'
      ensures Copied(data, p, mark, cur, p', mark')
    {
      mark' := if mark == -1 then p else mark;
      p' := |data|;
      MarkMore(data, mark, p, p');
      Regroup(told, Marked(data, mark, p), Bodies(data[p..p']));
    }

    /** s_body_identity; on the last byte it goes on to s_message_done with that byte. */
    method CopyIdentity(data: seq<byte>, p: nat, mark: int, ghost cur: Core) returns (p': nat, mark': int)
      requires p < |data| && -1 <= mark < p
      requires cur == With(cur.nread) && cur.Valid() && cur.Running() && LogValid() && state.BodyIdentity?
      modifies this
      ensures p < p' <= |data| && -1 <= mark' < p'
      ensures Copied(data, p, mark, cur, p', mark')
      ensures mark' == -1 <==> state.NewMessage?
    {
      mark' := if mark == -1 then p else mark;
      var toRead := Min(contentLength, |data| - p);
      assert contentLength > 0;
      p' := p + toRead;
      MarkMore(data, mark, p, p');
      Regroup(told, Marked(data, mark, p), Bodies(data[p..p']));
      contentLength := contentLength - toRead;
      if contentLength == 0 {
        state := MessageDone;
        Notify(OnBody(data[mark'..p']));
        mark' := -1;
        CompleteMessage();
      }
    }

    method CompleteMessage()
      requires LogValid()
      modifies this`state, this`nread, this`log, this`told
      ensures state == NewMessage && nread == 0
      ensures told == old(told) + [OnMessageComplete] && LogValid()
    {
      state := NewMessage;
      nread := 0;
      Notify(OnMessageComplete);
    }

    /** s_chunk_data_almost_done, s_chunk_data_done and s_message_done. */
    method OtherByte(data: seq<byte>, p: nat, mark: int, ghost cur: Core, ghost s: Outcome) returns (mark': int)
      requires p < |data| && -1 <= mark < p
      requires cur == With(cur.nread) && cur.Valid() && cur.Running() && LogValid()
      requires state.ChunkDataAlmostDone? || state.ChunkDataDone? || state.MessageDone?
      requires mark != -1 ==> state.ChunkDataAlmostDone?
      modifies this
      requires IsStep(cur, data[p], s)
      ensures mark' == -1
      ensures s.core == With(s.core.nread)
      ensures told == old(told) + Marked(data, mark, p) + s.events
      ensures LogValid()
      ensures nread == if state.ParsingHeader() then 0 else old(nread)
    {
      assert Look(0);
      mark' := -1;
      match state {
        case ChunkDataAlmostDone =>
          assert chunked && contentLength == 0;
          state := ChunkDataDone;
          if mark != -1 {
            Notify(OnBody(data[mark..p]));
          }
        case ChunkDataDone =>
          assert chunked;
          state := ChunkSizeStart;
          nread := 0;
          Notify(OnChunkComplete);
        case MessageDone =>
          CompleteMessage();
      }
    }

    /** The loop invariant: the machine is in cur before byte p, with the events `done`. */
    ghost predicate At(whole: Outcome, data: seq<byte>, cur: Core, done: seq<Event>, p: nat, mark: int, start: nat)
      reads this
    {
      && start <= p <= |data| && -1 <= mark <= p
      && (mark != -1 ==> mark < p && (state.CopiesBody() || state.ChunkDataAlmostDone?))
      && errno.Ok? && nread < UINT32_RANGE
      && cur == With(cur.nread) && cur.Valid()
      && (state.ParsingHeader() ==> cur.nread == nread + p - start)
      && Reached(whole, data, cur, done, p)
      && told + Marked(data, mark, p) == done
      && LogValid()
    }

    method BodyRound(ghost whole: Outcome, data: seq<byte>, ghost cur: Core, ghost done: seq<Event>,
                     p: nat, mark: int, start: nat)
      returns (ghost cur': Core, ghost done': seq<Event>, p': nat, mark': int, start': nat)
      requires At(whole, data, cur, done, p, mark, start)
      requires p < |data| && state.CopiesBody()
      modifies this
      ensures p < p' && At(whole, data, cur', done', p', mark', start')
    {
      match state {
        case ChunkData => p', mark' := CopyChunk(data, p, mark, cur);
        case BodyIdentity => p', mark' := CopyIdentity(data, p, mark, cur);
        case BodyIdentityEof => p', mark' := CopyToEof(data, p, mark, cur);
      }
      ReachedBulk(whole, data, cur, done, p, p');
      AfterBodyValid(cur, p' - p);
      cur', done' := AfterBody(cur, p' - p), done + BodyEvents(cur, data[p..p']);
      start' := if state.NewMessage? then p' - 1 else start;
    }

    method SizeRound(ghost whole: Outcome, data: seq<byte>, ghost cur: Core, ghost done: seq<Event>,
                     p: nat, mark: int, start: nat)
      returns (ghost cur': Core, ghost done': seq<Event>, p': nat)
      requires At(whole, data, cur, done, p, mark, start)
      requires p < |data|
      requires state.ChunkSizeStart? || state.ChunkSize? || state.ChunkParameters? || state.ChunkSizeAlmostDone?
      modifies this
      ensures errno.Ok? ==> p < p' && At(whole, data, cur', done', p', mark, start)
      ensures !errno.Ok? ==> Valid() && whole == Outcome(Abs(), done', p') && told == done'
    {
      ReachedByte(whole, data, cur, done, p);
      ghost var s := Step(cur, data[p]);
      NothingMarked(told, data, p);
      SizeByte(data[p], cur);
      NothingMarked(told, data, p + 1);
      cur', done' := s.core, done + s.events;
      p' := if errno.Ok? then p + 1 else p;
    }

    method OtherRound(ghost whole: Outcome, data: seq<byte>, ghost cur: Core, ghost done: seq<Event>,
                      p: nat, mark: int, start: nat)
      returns (ghost cur': Core, ghost done': seq<Event>, p': nat, mark': int, start': nat)
      requires At(whole, data, cur, done, p, mark, start)
      requires p < |data|
      requires state.ChunkDataAlmostDone? || state.ChunkDataDone? || state.MessageDone?
      modifies this
      ensures p < p' && At(whole, data, cur', done', p', mark', start')
    {
      ghost var s := OtherStep(whole, data, cur, done, p);
      mark' := OtherByte(data, p, mark, cur, s);
      NothingMarked(told, data, p + 1);
      start' := if state.ParsingHeader() then p else start;
      cur', done', p' := s.core, done + s.events, p + 1;
    }


    /** The loop over the buffer. */
    method Scan(ghost whole: Outcome, data: seq<byte>)
      returns (ghost cur: Core, ghost done: seq<Event>, p: nat, mark: int, start: nat)
      requires Valid() && errno.Ok? && state.InBody() && data != []
      requires Reached(whole, data, Abs(), told, 0)
      modifies this
      ensures errno.Ok? ==> At(whole, data, cur, done, p, mark, start) && (p == |data| || !state.InBody())
      ensures !errno.Ok? ==> Valid() && whole == Outcome(Abs(), done, p) && told == done
    {
      cur, done := Abs(), told;
      mark, start, p := -1, 0, 0;  // body_mark, data_or_header_data_start, p
      assert told + Marked(data, mark, p) == told;
      while p != |data| && state.InBody()
        invariant At(whole, data, cur, done, p, mark, start)
        decreases |data| - p
      {
        if state.CopiesBody() {
          cur, done, p, mark, start := BodyRound(whole, data, cur, done, p, mark, start);
        } else if state.ParsingHeader() {
          cur, done, p := SizeRound(whole, data, cur, done, p, mark, start);
          if !errno.Ok? {
            return;
          }
        } else {
          cur, done, p, mark, start := OtherRound(whole, data, cur, done, p, mark, start);
        }
      }
    }

    /** What follows the loop: the overflow check, then the bytes left over. */
    method Finish(ghost whole: Outcome, data: seq<byte>, ghost cur: Core, ghost done: seq<Event>,
                  p: nat, mark: int, start: nat)
      requires At(whole, data, cur, done, p, mark, start) && (p == |data| || !state.InBody())
      modifies this
      ensures Valid()
      ensures var r := AtReturn(whole, |data|); Abs() == r.core && p == r.consumed && told == r.events
    {
      ReachedEnd(whole, data, cur, done, p);
      if state.ParsingHeader() {
        nread := (nread + p - start) % UINT32_RANGE;
        if p == |data| && nread > MAX_HEADER_SIZE {
          errno := HeaderOverflow;
        }
      }
      if mark != -1 {
        Notify(OnBody(data[mark..p]));
      }
    }

    /** http_parser_execute, up to the byte at which the body states are left. */
    method Execute(data: seq<byte>) returns (consumed: nat)
      requires Valid()
      requires errno.Ok? ==> state.InBody()
      modifies this
      ensures Valid()
      ensures !old(errno).Ok? ==> consumed == 0 && Abs() == old(Abs()) && log == old(log)
      ensures old(errno).Ok? && data != [] ==>
        var r := ExecuteOnce(old(Abs()), data);
        Abs() == r.core && consumed == r.consumed && Bytewise(log) == Bytewise(old(log)) + r.events
      ensures old(errno).Ok? && data == [] ==>
        if old(state).BodyIdentityEof?
        then consumed == 0 && Abs() == old(Abs()) && log == old(log) + [OnMessageComplete]
        else consumed == 1 && Abs() == old(Abs()).Failed(InvalidEofState) && log == old(log)
    {
      if !errno.Ok? {
        return 0;
      }
      if |data| == 0 {
        if state.BodyIdentityEof? {
          Notify(OnMessageComplete);
          return 0;
        }
        errno := InvalidEofState;
        return 1;
      }
      assert IsBytewise(log, Bytewise(log));
      ghost var r := Run(Abs(), data);
      ghost var whole := Outcome(r.core, told + r.events, r.consumed);
      ReachedStart(Abs(), data, told);
      RunFailed(Abs(), data);
      ghost var cur, done;
      var mark, start;
      cur, done, consumed, mark, start := Scan(whole, data);
      if errno.Ok? {
        Finish(whole, data, cur, done, consumed, mark, start);
      }
      assert IsBytewise(log, Bytewise(log));
    }
  }
}
