/** What http_parser_parse_url of base/http/http_parser.cc accepts, against the grammar of
    section 3 of RFC 3986. */
module HttpUrlGrammar {
  import opened Digits
  import opened HttpUrl
  import opened UrlCharacters

  // ------------------------------------------------------- the splitter against the grammar

  /** Where the parts of a URL with a schema and an authority are, after section 3 of RFC 3986:
      schema "://" [userinfo "@"] host [":" port] path ["?" query] ["#" fragment].  The parser
      takes some that the RFC does not: an empty userinfo, a fragment only after a path or a
      query, several '#' before it, and any of the characters that it takes for part of a URL. */
  datatype Marks = Marks(schemaEnd: nat, authorityStart: nat, hasAt: bool, userEnd: nat, v6: bool, host: Span, hasPort: bool,
                         authorityEnd: nat, pathEnd: nat, hasQuery: bool, queryEnd: nat, hashes: nat)
  {
    function AfterAt(): nat { userEnd + if hasAt then 1 else 0 }
    function HostEnd(): nat { End(host) + if v6 then 1 else 0 }
    function PortStart(): nat { HostEnd() + if hasPort then 1 else 0 }
    function QueryStart(): nat { pathEnd + if hasQuery then 1 else 0 }
    function FragmentStart(): nat { queryEnd + hashes }
  }

  ghost predicate IsSchema(buf: string, m: Marks) {
    && 0 < m.schemaEnd && m.authorityStart == m.schemaEnd + 3 <= |buf|
    && (forall i :: 0 <= i < m.schemaEnd ==> Alpha(buf[i]))
    && buf[m.schemaEnd] == ':' && buf[m.schemaEnd + 1] == '/' && buf[m.schemaEnd + 2] == '/'
  }

  ghost predicate IsUserinfo(buf: string, m: Marks) {
    && m.authorityStart <= m.userEnd && m.AfterAt() <= |buf|
    && (forall i :: m.authorityStart <= i < m.userEnd ==> UserinfoCharacter(buf[i]))
    && (if m.hasAt then buf[m.userEnd] == '@' else m.userEnd == m.authorityStart)
  }

  ghost predicate IsHost(buf: string, m: Marks) {
    && m.host.off == m.AfterAt() + (if m.v6 then 1 else 0) && 0 < m.host.len && m.HostEnd() <= |buf|
    && (m.v6 ==> buf[m.AfterAt()] == '[' && buf[End(m.host)] == ']')
    && (forall i :: m.host.off <= i < End(m.host) ==>
          if m.v6 then HexDigit(buf[i]) || buf[i] == ':' || buf[i] == '.' else HostCharacter(buf[i]))
  }

  ghost predicate IsPort(buf: string, m: Marks) {
    && m.PortStart() <= m.authorityEnd <= |buf|
    && (if m.hasPort then buf[m.HostEnd()] == ':' && m.PortStart() < m.authorityEnd else m.authorityEnd == m.HostEnd())
    && (forall i :: m.PortStart() <= i < m.authorityEnd ==> Digit(buf[i]))
  }

  ghost predicate IsAuthority(buf: string, m: Marks) {
    IsUserinfo(buf, m) && IsHost(buf, m) && IsPort(buf, m)
  }

  ghost predicate IsPath(buf: string, m: Marks) {
    && m.authorityEnd <= m.pathEnd <= |buf|
    && (m.authorityEnd < m.pathEnd ==> buf[m.authorityEnd] == '/')
    && (forall i :: m.authorityEnd <= i < m.pathEnd ==> PathCharacter(buf[i]))
  }

  ghost predicate IsQuery(buf: string, m: Marks) {
    && m.QueryStart() <= m.queryEnd <= |buf|
    && (if m.hasQuery then buf[m.pathEnd] == '?' else m.queryEnd == m.pathEnd)
    && (forall i :: m.QueryStart() <= i < m.queryEnd ==> PathCharacter(buf[i]) || buf[i] == '?')
  }

  /** The fragment goes to p. */
  ghost predicate IsFragment(buf: string, m: Marks, p: nat) {
    && m.FragmentStart() <= p <= |buf|
    && (if m.hashes > 0 then m.authorityEnd < m.pathEnd || m.hasQuery else m.queryEnd == p)
    && (forall i :: m.queryEnd <= i < m.FragmentStart() ==> buf[i] == '#')
    && (forall i :: m.FragmentStart() <= i < p ==>
          PathCharacter(buf[i]) || buf[i] == '?' || (buf[i] == '#' && m.FragmentStart() < i))
  }

  /** A schema, or, in a target of CONNECT, nothing. */
  ghost predicate IsFront(buf: string, m: Marks, isConnect: bool) {
    if isConnect then m.schemaEnd == 0 == m.authorityStart else IsSchema(buf, m)
  }

  ghost predicate IsUrl(buf: string, m: Marks, isConnect: bool) {
    && IsFront(buf, m, isConnect) && IsAuthority(buf, m) && IsPath(buf, m) && IsQuery(buf, m)
    && IsFragment(buf, m, |buf|)
  }

  function Range(a: nat, b: nat): Span {
    if a < b then Span(a, b - a) else Span(0, 0)
  }

  /** A range that covers a field is its extent. */
  lemma {:induction false} ExtentIs(labels: seq<Label>, f: Field, a: nat, b: nat)
    requires forall i :: 0 <= i < |labels| ==> (labels[i] == In(f) <==> a <= i < b)
    requires b <= |labels|
    ensures Extent(labels, f) == Range(a, b)
  {
    if labels != [] {
      var last := |labels| - 1;
      ExtentIs(labels[..last], f, a, if b <= last then b else last);
    }
  }

  /** Characters that lead from x to y and keep to y. */
  lemma {:induction false} Walk(buf: string, s0: UrlState, a: nat, b: nat, x: UrlState, y: UrlState)
    requires a <= b <= |buf| && UrlAfter(buf, a, s0) == x
    requires forall i :: a <= i < b ==> UrlChar(if i == a then x else y, buf[i]) == y
    ensures UrlAfter(buf, b, s0) == if a < b then y else x
    ensures forall i :: a <= i < b ==> UrlLabels(buf, |buf|, s0)[i] == UrlLabel(y)
    decreases b
  {
    if a < b {
      var last: nat := b - 1;
      Walk(buf, s0, a, last, x, y);
      UrlLabelAt(buf, |buf|, s0, last);
    }
  }

  /** The states at the marks, and a label for every character between them. */
  lemma SchemaWalk(buf: string, m: Marks)
    requires IsSchema(buf, m)
    ensures UrlAfter(buf, m.authorityStart, SpacesBeforeUrl) == ServerStart
    ensures forall i :: 0 <= i < m.authorityStart ==>
              UrlLabels(buf, |buf|, SpacesBeforeUrl)[i] == if i < m.schemaEnd then In(UfSchema) else NoField
  {
    Walk(buf, SpacesBeforeUrl, 0, m.schemaEnd, SpacesBeforeUrl, Schema);
    ColonWalk(buf, SpacesBeforeUrl, m.schemaEnd);
  }

  lemma ColonWalk(buf: string, s0: UrlState, a: nat)
    requires a + 3 <= |buf| && buf[a] == ':' && buf[a + 1] == '/' && buf[a + 2] == '/' && UrlAfter(buf, a, s0) == Schema
    ensures UrlAfter(buf, a + 3, s0) == ServerStart
    ensures forall i :: a <= i < a + 3 ==> UrlLabels(buf, |buf|, s0)[i] == NoField
  {
    Walk(buf, s0, a, a + 1, Schema, SchemaSlash);
    Walk(buf, s0, a + 1, a + 2, SchemaSlash, SchemaSlashSlash);
    Walk(buf, s0, a + 2, a + 3, SchemaSlashSlash, ServerStart);
  }

  lemma FrontWalk(buf: string, m: Marks, isConnect: bool)
    requires IsFront(buf, m, isConnect)
    ensures m.authorityStart <= |buf| && UrlAfter(buf, m.authorityStart, StartState(isConnect)) == ServerStart
    ensures forall i :: 0 <= i < m.authorityStart ==>
              UrlLabels(buf, |buf|, StartState(isConnect))[i] == if i < m.schemaEnd then In(UfSchema) else NoField
  {
    if !isConnect {
      SchemaWalk(buf, m);
    }
  }

  /** A character of the authority, apart from '@'. */
  predicate IsServerChar(c: char) {
    IsUserinfoChar(c) || c == '[' || c == ']'
  }

  lemma AuthorityChars(buf: string, m: Marks)
    requires IsAuthority(buf, m)
    ensures forall i :: m.authorityStart <= i < m.userEnd ==> IsServerChar(buf[i])
    ensures forall i :: m.AfterAt() <= i < m.authorityEnd ==> IsServerChar(buf[i])
  {
    forall i | m.AfterAt() <= i < m.authorityEnd ensures IsServerChar(buf[i]) {
      if i < m.host.off {
        assert i == m.host.off - 1;
      } else if End(m.host) <= i {
        assert i == End(m.host) || i == m.HostEnd() || m.PortStart() <= i;
      }
    }
  }

  lemma ServerStep(s: UrlState, c: char)
    requires s in {ServerStart, Server, ServerWithAt} && IsServerChar(c)
    ensures UrlChar(s, c) == Server && c != '@'
  {
  }

  lemma ServerWalk(buf: string, s0: UrlState, a: nat, b: nat)
    requires a <= b <= |buf| && UrlAfter(buf, a, s0) in {ServerStart, Server, ServerWithAt}
    requires forall i :: a <= i < b ==> IsServerChar(buf[i])
    ensures UrlAfter(buf, b, s0) == if a < b then Server else UrlAfter(buf, a, s0)
    ensures forall i :: a <= i < b ==> UrlLabels(buf, |buf|, s0)[i] == In(UfHost)
  {
    var x := UrlAfter(buf, a, s0);
    forall i | a <= i < b ensures UrlChar(if i == a then x else Server, buf[i]) == Server {
      ServerStep(if i == a then x else Server, buf[i]);
    }
    Walk(buf, s0, a, b, x, Server);
  }

  ghost predicate IsServerPart(buf: string, a: nat, b: nat) {
    a <= b <= |buf| && forall i :: a <= i < b ==> IsServerChar(buf[i])
  }

  /** The machine over userinfo "@". */
  lemma WalkToAt(buf: string, s0: UrlState, b: nat, u: nat)
    requires IsServerPart(buf, b, u) && u < |buf| && buf[u] == '@' && UrlAfter(buf, b, s0) == ServerStart
    ensures UrlAfter(buf, u + 1, s0) == ServerWithAt && PassesAt(buf, u + 1, s0)
    ensures forall i :: b <= i <= u ==> UrlLabels(buf, |buf|, s0)[i] == In(UfHost)
  {
    ServerWalk(buf, s0, b, u);
    var next: nat := u + 1;
    Walk(buf, s0, u, next, UrlAfter(buf, u, s0), ServerWithAt);
  }

  /** The machine over userinfo "@" rest. */
  lemma WalkPastAt(buf: string, s0: UrlState, b: nat, u: nat, c: nat)
    requires IsServerPart(buf, b, u) && u < c && IsServerPart(buf, u + 1, c) && buf[u] == '@'
    requires UrlAfter(buf, b, s0) == ServerStart && u + 1 < c
    ensures UrlAfter(buf, c, s0) == Server
    ensures forall i :: b <= i < c ==> UrlLabels(buf, |buf|, s0)[i] == In(UfHost)
  {
    WalkToAt(buf, s0, b, u);
    ServerWalk(buf, s0, u + 1, c);
  }

  lemma AuthorityParts(buf: string, m: Marks)
    requires IsAuthority(buf, m)
    ensures m.hasAt ==> IsServerPart(buf, m.authorityStart, m.userEnd) && IsServerPart(buf, m.userEnd + 1, m.authorityEnd)
    ensures m.hasAt ==> m.userEnd + 1 < m.authorityEnd
    ensures !m.hasAt ==> IsServerPart(buf, m.authorityStart, m.authorityEnd) && m.authorityStart < m.authorityEnd
  {
    AuthorityChars(buf, m);
  }

  lemma AuthorityWalk(buf: string, m: Marks, s0: UrlState)
    requires IsAuthority(buf, m) && UrlAfter(buf, m.authorityStart, s0) == ServerStart
    ensures UrlAfter(buf, m.authorityEnd, s0) == Server
    ensures forall i :: m.authorityStart <= i < m.authorityEnd ==> UrlLabels(buf, |buf|, s0)[i] == In(UfHost)
  {
    AuthorityParts(buf, m);
    if m.hasAt {
      WalkPastAt(buf, s0, m.authorityStart, m.userEnd, m.authorityEnd);
    } else {
      ServerWalk(buf, s0, m.authorityStart, m.authorityEnd);
    }
  }

  lemma PathWalk(buf: string, m: Marks, s0: UrlState)
    requires IsPath(buf, m) && UrlAfter(buf, m.authorityEnd, s0) == Server
    ensures UrlAfter(buf, m.pathEnd, s0) == if m.authorityEnd < m.pathEnd then Path else Server
    ensures forall i :: m.authorityEnd <= i < m.pathEnd ==> UrlLabels(buf, |buf|, s0)[i] == In(UfPath)
  {
    Walk(buf, s0, m.authorityEnd, m.pathEnd, Server, Path);
  }

  lemma QueryWalk(buf: string, m: Marks, s0: UrlState)
    requires IsQuery(buf, m) && UrlAfter(buf, m.pathEnd, s0) == if m.authorityEnd < m.pathEnd then Path else Server
    ensures UrlAfter(buf, m.queryEnd, s0) != Dead
    ensures (m.authorityEnd < m.pathEnd || m.hasQuery) ==> UrlAfter(buf, m.queryEnd, s0) in {Path, QueryStringStart, QueryString}
    ensures forall i :: m.pathEnd <= i < m.queryEnd ==>
              UrlLabels(buf, |buf|, s0)[i] == if i < m.QueryStart() then NoField else In(UfQuery)
  {
    if m.hasQuery {
      Walk(buf, s0, m.pathEnd, m.pathEnd + 1, if m.authorityEnd < m.pathEnd then Path else Server, QueryStringStart);
      Walk(buf, s0, m.pathEnd + 1, m.queryEnd, QueryStringStart, QueryString);
    }
  }

  lemma FragmentWalk(buf: string, m: Marks, s0: UrlState)
    requires IsFragment(buf, m, |buf|) && UrlAfter(buf, m.queryEnd, s0) != Dead
    requires m.hashes > 0 ==> UrlAfter(buf, m.queryEnd, s0) in {Path, QueryStringStart, QueryString}
    ensures UrlAfter(buf, |buf|, s0) != Dead
    ensures forall i :: m.queryEnd <= i < |buf| ==>
              UrlLabels(buf, |buf|, s0)[i] == if i < m.FragmentStart() then NoField else In(UfFragment)
  {
    if m.hashes > 0 {
      Walk(buf, s0, m.queryEnd, m.FragmentStart(), UrlAfter(buf, m.queryEnd, s0), FragmentStart);
      Walk(buf, s0, m.FragmentStart(), |buf|, FragmentStart, Fragment);
    }
  }

  lemma {:induction false} AtOnlyFromAt(buf: string, p: nat, s: UrlState)
    requires p <= |buf|
    ensures PassesAt(buf, p, s) ==> exists i :: 0 <= i < p && buf[i] == '@' && UrlLabels(buf, p, s)[i] == In(UfHost)
  {
    if p > 0 && PassesAt(buf, p, s) {
      if PassesAt(buf, p - 1, s) {
        AtOnlyFromAt(buf, p - 1, s);
        var i :| 0 <= i < p - 1 && buf[i] == '@' && UrlLabels(buf, p - 1, s)[i] == In(UfHost);
        assert UrlLabels(buf, p, s)[i] == In(UfHost);
      } else {
        assert UrlLabels(buf, p, s)[p - 1] == In(UfHost);
      }
    }
  }

  lemma {:induction false} PassesOn(buf: string, p: nat, q: nat, s: UrlState)
    requires p <= q <= |buf| && PassesAt(buf, p, s)
    ensures PassesAt(buf, q, s)
    decreases q
  {
    if p < q {
      PassesOn(buf, p, q - 1, s);
    }
  }

  /** Labels that change at the marks. */
  ghost predicate OuterAtMarks(labels: seq<Label>, m: Marks) {
    && m.schemaEnd <= m.authorityStart <= m.authorityEnd <= m.pathEnd && m.QueryStart() <= m.queryEnd && m.FragmentStart() <= |labels|
    && (forall i :: 0 <= i < m.authorityStart ==> labels[i] == if i < m.schemaEnd then In(UfSchema) else NoField)
    && (forall i :: m.authorityStart <= i < m.authorityEnd ==> labels[i] == In(UfHost))
    && (forall i :: m.authorityEnd <= i < m.pathEnd ==> labels[i] == In(UfPath))
    && (forall i :: m.pathEnd <= i < m.queryEnd ==> labels[i] == if i < m.QueryStart() then NoField else In(UfQuery))
    && (forall i :: m.queryEnd <= i < |labels| ==> labels[i] == if i < m.FragmentStart() then NoField else In(UfFragment))
  }

  lemma ExtentsAtMarks(labels: seq<Label>, m: Marks)
    requires OuterAtMarks(labels, m)
    ensures Extent(labels, UfSchema) == Range(0, m.schemaEnd)
    ensures Extent(labels, UfHost) == Range(m.authorityStart, m.authorityEnd)
    ensures Extent(labels, UfPath) == Range(m.authorityEnd, m.pathEnd)
    ensures Extent(labels, UfQuery) == Range(m.QueryStart(), m.queryEnd)
    ensures Extent(labels, UfFragment) == Range(m.FragmentStart(), |labels|)
  {
    ExtentIs(labels, UfSchema, 0, m.schemaEnd);
    ExtentIs(labels, UfHost, m.authorityStart, m.authorityEnd);
    ExtentIs(labels, UfPath, m.authorityEnd, m.pathEnd);
    ExtentIs(labels, UfQuery, m.QueryStart(), m.queryEnd);
    ExtentIs(labels, UfFragment, m.FragmentStart(), |labels|);
  }

  /** What the outer machine makes of a URL. */
  lemma OuterOfUrl(buf: string, m: Marks, isConnect: bool)
    requires IsUrl(buf, m, isConnect)
    ensures UrlAfter(buf, |buf|, StartState(isConnect)) != Dead
    ensures OuterAtMarks(AllUrlLabels(buf, isConnect), m)
  {
    var s0 := StartState(isConnect);
    FrontWalk(buf, m, isConnect);
    AuthorityWalk(buf, m, s0);
    PathWalk(buf, m, s0);
    QueryWalk(buf, m, s0);
    FragmentWalk(buf, m, s0);
  }

  lemma AtOfUrl(buf: string, m: Marks, isConnect: bool)
    requires IsUrl(buf, m, isConnect) && OuterAtMarks(AllUrlLabels(buf, isConnect), m)
    ensures PassesAt(buf, |buf|, StartState(isConnect)) == m.hasAt
  {
    if m.hasAt {
      FrontWalk(buf, m, isConnect);
      AtInAuthority(buf, m, StartState(isConnect));
    } else {
      NoAtOfUrl(buf, m, AllUrlLabels(buf, isConnect));
      AtOnlyFromAt(buf, |buf|, StartState(isConnect));
    }
  }

  lemma AtInAuthority(buf: string, m: Marks, s0: UrlState)
    requires IsAuthority(buf, m) && m.hasAt && UrlAfter(buf, m.authorityStart, s0) == ServerStart
    ensures PassesAt(buf, |buf|, s0)
  {
    AuthorityParts(buf, m);
    var past: nat := m.userEnd + 1;
    WalkToAt(buf, s0, m.authorityStart, m.userEnd);
    PassesOn(buf, past, |buf|, s0);
  }

  lemma NoAtOfUrl(buf: string, m: Marks, labels: seq<Label>)
    requires IsAuthority(buf, m) && !m.hasAt && OuterAtMarks(labels, m) && |labels| == |buf|
    ensures forall i :: 0 <= i < |buf| && labels[i] == In(UfHost) ==> buf[i] != '@'
  {
    AuthorityChars(buf, m);
    assert m.userEnd == m.authorityStart;
  }

  lemma {:induction false} HostLabelAt(buf: string, lo: nat, p: nat, s: HostState, i: nat)
    requires lo <= i < p <= |buf|
    ensures HostLabels(buf, lo, p, s)[i] == HostLabel(HostAfter(buf, lo, i + 1, s))
    decreases p
  {
    if i < p - 1 {
      HostLabelAt(buf, lo, p - 1, s, i);
    }
  }

  lemma {:induction false} HostWalk(buf: string, lo: nat, hi: nat, s0: HostState, a: nat, b: nat, x: HostState, y: HostState)
    requires lo <= a <= b <= hi <= |buf| && HostAfter(buf, lo, a, s0) == x
    requires forall i :: a <= i < b ==> HostChar(if i == a then x else y, buf[i]) == y
    ensures HostAfter(buf, lo, b, s0) == if a < b then y else x
    ensures forall i :: a <= i < b ==> HostLabels(buf, lo, hi, s0)[i] == HostLabel(y)
    decreases b
  {
    if a < b {
      var last: nat := b - 1;
      HostWalk(buf, lo, hi, s0, a, last, x, y);
      HostLabelAt(buf, lo, hi, s0, last);
    }
  }

  lemma UserinfoWalk(buf: string, m: Marks)
    requires IsUserinfo(buf, m) && m.AfterAt() <= m.authorityEnd <= |buf|
    ensures var lo, hi, s0 := m.authorityStart, m.authorityEnd, HostStartState(m.hasAt);
            && HostAfter(buf, lo, m.AfterAt(), s0) == HostStart
            && (forall i :: lo <= i < m.AfterAt() ==> HostLabels(buf, lo, hi, s0)[i] == if i < m.userEnd then In(UfUserinfo) else NoField)
  {
    if m.hasAt {
      InnerPastAt(buf, m.authorityStart, m.userEnd, m.authorityEnd);
    }
  }

  lemma InnerPastAt(buf: string, lo: nat, u: nat, hi: nat)
    requires lo <= u < hi <= |buf| && buf[u] == '@' && forall i :: lo <= i < u ==> IsUserinfoChar(buf[i])
    ensures HostAfter(buf, lo, u + 1, UserinfoStart) == HostStart
    ensures forall i :: lo <= i < u ==> HostLabels(buf, lo, hi, UserinfoStart)[i] == In(UfUserinfo)
    ensures HostLabels(buf, lo, hi, UserinfoStart)[u] == NoField
  {
    assert forall i :: lo <= i < u ==> UserinfoChar(buf[i]) == Userinfo;
    HostWalk(buf, lo, hi, UserinfoStart, lo, u, UserinfoStart, Userinfo);
    HostLabelAt(buf, lo, hi, UserinfoStart, u);
  }

  lemma HostPartWalk(buf: string, m: Marks, s0: HostState)
    requires IsHost(buf, m) && m.authorityStart <= m.AfterAt() && m.HostEnd() <= m.authorityEnd <= |buf|
    requires HostAfter(buf, m.authorityStart, m.AfterAt(), s0) == HostStart
    ensures var lo, hi := m.authorityStart, m.authorityEnd;
            && HostAfter(buf, lo, m.HostEnd(), s0) == (if m.v6 then HostV6End else Host)
            && (forall i :: m.AfterAt() <= i < m.HostEnd() ==>
                  HostLabels(buf, lo, hi, s0)[i] == if m.host.off <= i < End(m.host) then In(UfHost) else NoField)
  {
    var lo, hi, h, e := m.authorityStart, m.authorityEnd, m.host.off, End(m.host);
    if m.v6 {
      HostWalk(buf, lo, hi, s0, h - 1, h, HostStart, HostV6Start);
      HostWalk(buf, lo, hi, s0, h, e, HostV6Start, HostV6);
      HostWalk(buf, lo, hi, s0, e, e + 1, HostV6, HostV6End);
    } else {
      HostWalk(buf, lo, hi, s0, h, e, HostStart, Host);
    }
  }

  lemma PortWalk(buf: string, m: Marks, s0: HostState)
    requires IsPort(buf, m) && m.authorityStart <= m.HostEnd()
    requires HostAfter(buf, m.authorityStart, m.HostEnd(), s0) == if m.v6 then HostV6End else Host
    ensures var lo, hi := m.authorityStart, m.authorityEnd;
            && EndsWell(HostAfter(buf, lo, hi, s0))
            && (forall i :: m.HostEnd() <= i < hi ==>
                  HostLabels(buf, lo, hi, s0)[i] == if i < m.PortStart() then NoField else In(UfPort))
  {
    var lo, hi, e := m.authorityStart, m.authorityEnd, m.HostEnd();
    if m.hasPort {
      HostWalk(buf, lo, hi, s0, e, e + 1, HostAfter(buf, lo, e, s0), PortStart);
      HostWalk(buf, lo, hi, s0, e + 1, hi, PortStart, Port);
    }
  }

  ghost predicate InnerAtMarks(labels: seq<Label>, m: Marks) {
    var at := m.AfterAt();
    && m.authorityStart <= m.userEnd && at <= m.host.off && m.PortStart() <= m.authorityEnd == |labels|
    && (forall i :: 0 <= i < m.authorityStart ==> labels[i] == NoField)
    && (forall i :: m.authorityStart <= i < at ==> labels[i] == if i < m.userEnd then In(UfUserinfo) else NoField)
    && (forall i :: at <= i < m.HostEnd() ==> labels[i] == if m.host.off <= i < End(m.host) then In(UfHost) else NoField)
    && (forall i :: m.HostEnd() <= i < |labels| ==> labels[i] == if i < m.PortStart() then NoField else In(UfPort))
  }

  lemma InnerExtentsAtMarks(labels: seq<Label>, m: Marks)
    requires InnerAtMarks(labels, m)
    ensures Extent(labels, UfUserinfo) == Range(m.authorityStart, m.userEnd)
    ensures Extent(labels, UfHost) == Range(m.host.off, End(m.host))
    ensures Extent(labels, UfPort) == Range(m.PortStart(), m.authorityEnd)
  {
    ExtentIs(labels, UfUserinfo, m.authorityStart, m.userEnd);
    ExtentIs(labels, UfHost, m.host.off, End(m.host));
    ExtentIs(labels, UfPort, m.PortStart(), m.authorityEnd);
  }

  lemma InnerOfUrl(buf: string, m: Marks)
    requires IsAuthority(buf, m)
    ensures var lo, hi, s0 := m.authorityStart, m.authorityEnd, HostStartState(m.hasAt);
            EndsWell(HostAfter(buf, lo, hi, s0)) && InnerAtMarks(HostLabels(buf, lo, hi, s0), m)
  {
    var lo, hi, s0 := m.authorityStart, m.authorityEnd, HostStartState(m.hasAt);
    UserinfoWalk(buf, m);
    HostPartWalk(buf, m, s0);
    PortWalk(buf, m, s0);
    NoneBefore(buf, lo, hi, s0);
  }

  /** The range of a field of a URL. */
  function FieldOfUrl(buf: string, m: Marks, f: Field): Span {
    match f
    case UfSchema => Range(0, m.schemaEnd)
    case UfUserinfo => Range(m.authorityStart, m.userEnd)
    case UfHost => m.host
    case UfPort => Range(m.PortStart(), m.authorityEnd)
    case UfPath => Range(m.authorityEnd, m.pathEnd)
    case UfQuery => Range(m.QueryStart(), m.queryEnd)
    case UfFragment => Range(m.FragmentStart(), |buf|)
  }

  lemma AuthorityOfUrl(buf: string, m: Marks, isConnect: bool)
    requires OuterAtMarks(AllUrlLabels(buf, isConnect), m) && m.authorityStart < m.authorityEnd
    ensures Authority(buf, isConnect) == Span(m.authorityStart, m.authorityEnd - m.authorityStart)
    ensures End(Authority(buf, isConnect)) == m.authorityEnd
  {
    ExtentsAtMarks(AllUrlLabels(buf, isConnect), m);
  }

  lemma InnerMachineOnUrl(buf: string, m: Marks, isConnect: bool)
    requires IsUrl(buf, m, isConnect) && OuterAtMarks(AllUrlLabels(buf, isConnect), m)
    requires Authority(buf, isConnect).off == m.authorityStart && End(Authority(buf, isConnect)) == m.authorityEnd
    ensures EndsWell(HostStateAtEnd(buf, isConnect)) && InnerAtMarks(AllHostLabels(buf, isConnect), m)
  {
    AtOfUrl(buf, m, isConnect);
    InnerOfUrl(buf, m);
    InnerIs(buf, isConnect, m.authorityStart, m.authorityEnd, m.hasAt);
  }

  /** The inner machine runs over the authority. */
  lemma InnerIs(buf: string, isConnect: bool, lo: nat, hi: nat, foundAt: bool)
    requires Authority(buf, isConnect).off == lo && End(Authority(buf, isConnect)) == hi
    requires PassesAt(buf, |buf|, StartState(isConnect)) == foundAt
    ensures lo <= hi <= |buf| && HostStateAtEnd(buf, isConnect) == HostAfter(buf, lo, hi, HostStartState(foundAt))
    ensures AllHostLabels(buf, isConnect) == HostLabels(buf, lo, hi, HostStartState(foundAt))
  {
  }

  /** CONNECT takes a host and a port, and nothing else that is not empty. */
  ghost predicate IsTarget(buf: string, m: Marks) {
    forall f: Field :: FieldOfUrl(buf, m, f).len > 0 <==> f == UfHost || f == UfPort
  }

  /** Every URL is split into its parts, and accepted unless its port is too large. */
  lemma UrlIsSplit(buf: string, after: string, m: Marks, isConnect: bool)
    requires IsUrl(buf, m, isConnect)
    ensures forall f: Field :: FieldSpan(buf, isConnect, f) == FieldOfUrl(buf, m, f)
    ensures Accepts(buf, after, isConnect) <==>
            (isConnect ==> IsTarget(buf, m)) && (m.hasPort ==> PortRead(buf, after, isConnect) <= 0xffff)
  {
    FieldsOfUrl(buf, m, isConnect);
    assert FieldSpan(buf, isConnect, UfPort) == Range(m.PortStart(), m.authorityEnd);
  }

  lemma FieldsOfUrl(buf: string, m: Marks, isConnect: bool)
    requires IsUrl(buf, m, isConnect)
    ensures forall f: Field :: FieldSpan(buf, isConnect, f) == FieldOfUrl(buf, m, f)
    ensures UrlAfter(buf, |buf|, StartState(isConnect)) != Dead && EndsWell(HostStateAtEnd(buf, isConnect))
  {
    OuterOfUrl(buf, m, isConnect);
    AuthorityOfUrl(buf, m, isConnect);
    InnerMachineOnUrl(buf, m, isConnect);
    forall f: Field ensures FieldSpan(buf, isConnect, f) == FieldOfUrl(buf, m, f) {
      OneFieldOfUrl(buf, m, isConnect, f);
    }
  }

  lemma OneFieldOfUrl(buf: string, m: Marks, isConnect: bool, f: Field)
    requires OuterAtMarks(AllUrlLabels(buf, isConnect), m) && InnerAtMarks(AllHostLabels(buf, isConnect), m)
    requires m.authorityStart < m.authorityEnd && 0 < m.host.len
    ensures FieldSpan(buf, isConnect, f) == FieldOfUrl(buf, m, f)
  {
    ExtentsAtMarks(AllUrlLabels(buf, isConnect), m);
    if IsInner(f) {
      InnerExtentsAtMarks(AllHostLabels(buf, isConnect), m);
    }
  }

  // -------------------------------------------------------------- the grammar from the run

  /** The marks of the first p characters, by the state after them. */
  ghost predicate OuterShape(buf: string, p: nat, s: UrlState, m: Marks, isConnect: bool) {
    && p <= |buf|
    && match s
       case Schema => !isConnect && 0 < p == m.schemaEnd && IsAlphaTo(buf, p)
       case SchemaSlash => !isConnect && 0 < m.schemaEnd == p - 1 && IsAlphaTo(buf, p - 1) && buf[p - 1] == ':'
       case SchemaSlashSlash =>
         !isConnect && 0 < m.schemaEnd == p - 2 && IsAlphaTo(buf, p - 2) && buf[p - 2] == ':' && buf[p - 1] == '/'
       case SpacesBeforeUrl => false
       case Dead => false
       case _ => IsFront(buf, m, isConnect) && IsRest(buf, m, p) && StateMarks(s, m, p)
  }

  ghost predicate IsAlphaTo(buf: string, p: nat) {
    p <= |buf| && forall i :: 0 <= i < p ==> IsAlpha(buf[i])
  }

  /** What comes after the authority, up to p. */
  ghost predicate IsRest(buf: string, m: Marks, p: nat) {
    m.authorityStart <= m.authorityEnd && IsPath(buf, m) && IsQuery(buf, m) && IsFragment(buf, m, p)
  }

  /** The part that ends at p. */
  predicate StateMarks(s: UrlState, m: Marks, p: nat) {
    match s
    case ServerStart => m.authorityStart == m.authorityEnd == m.pathEnd == p && !m.hasQuery && m.hashes == 0
    case Server => m.authorityStart < m.authorityEnd == m.pathEnd == p && !m.hasQuery && m.hashes == 0
    case ServerWithAt => m.authorityStart < m.authorityEnd == m.pathEnd == p && !m.hasQuery && m.hashes == 0
    case Path => m.authorityEnd < m.pathEnd == p && !m.hasQuery && m.hashes == 0
    case QueryStringStart => m.hasQuery && m.QueryStart() == m.queryEnd == p && m.hashes == 0
    case QueryString => m.hasQuery && m.QueryStart() < m.queryEnd == p && m.hashes == 0
    case FragmentStart => m.hashes > 0 && m.FragmentStart() == p
    case Fragment => m.hashes > 0 && m.FragmentStart() < p
    case _ => false
  }

  /** The marks after one more character, which leads to state s. */
  function OuterMarks(m: Marks, s: UrlState, p: nat): Marks {
    match s
    case Schema => m.(schemaEnd := p)
    case ServerStart => m.(authorityStart := p, authorityEnd := p, pathEnd := p, hasQuery := false, queryEnd := p, hashes := 0)
    case Server => m.(authorityEnd := p, pathEnd := p, queryEnd := p)
    case ServerWithAt => m.(authorityEnd := p, pathEnd := p, queryEnd := p)
    case Path => m.(pathEnd := p, queryEnd := p)
    case QueryStringStart => m.(hasQuery := true, queryEnd := p)
    case QueryString => m.(queryEnd := p)
    case FragmentStart => m.(hashes := m.hashes + 1)
    case _ => m
  }

  lemma ShapeStarts(buf: string, p: nat, s: UrlState, m: Marks, isConnect: bool)
    requires p < |buf| && OuterShape(buf, p, s, m, isConnect) && s in {Schema, SchemaSlash, SchemaSlashSlash}
    requires UrlChar(s, buf[p]) != Dead
    ensures OuterShape(buf, p + 1, UrlChar(s, buf[p]), OuterMarks(m, UrlChar(s, buf[p]), p + 1), isConnect)
  {
  }

  lemma ShapeOfServer(buf: string, p: nat, s: UrlState, m: Marks, isConnect: bool)
    requires p < |buf| && OuterShape(buf, p, s, m, isConnect) && s in {ServerStart, Server, ServerWithAt}
    requires UrlChar(s, buf[p]) != Dead
    ensures OuterShape(buf, p + 1, UrlChar(s, buf[p]), OuterMarks(m, UrlChar(s, buf[p]), p + 1), isConnect)
  {
  }

  lemma ShapeOfPath(buf: string, p: nat, s: UrlState, m: Marks, isConnect: bool)
    requires p < |buf| && OuterShape(buf, p, s, m, isConnect) && s in {Path, QueryStringStart, QueryString}
    requires UrlChar(s, buf[p]) != Dead
    ensures OuterShape(buf, p + 1, UrlChar(s, buf[p]), OuterMarks(m, UrlChar(s, buf[p]), p + 1), isConnect)
  {
  }

  lemma ShapeOfFragment(buf: string, p: nat, s: UrlState, m: Marks, isConnect: bool)
    requires p < |buf| && OuterShape(buf, p, s, m, isConnect) && s in {FragmentStart, Fragment}
    requires UrlChar(s, buf[p]) != Dead
    ensures OuterShape(buf, p + 1, UrlChar(s, buf[p]), OuterMarks(m, UrlChar(s, buf[p]), p + 1), isConnect)
  {
  }

  /** One more character. */
  lemma ShapeGoesOn(buf: string, p: nat, s: UrlState, m: Marks, isConnect: bool)
    requires p < |buf| && OuterShape(buf, p, s, m, isConnect) && UrlChar(s, buf[p]) != Dead
    ensures OuterShape(buf, p + 1, UrlChar(s, buf[p]), OuterMarks(m, UrlChar(s, buf[p]), p + 1), isConnect)
  {
    if s in {Schema, SchemaSlash, SchemaSlashSlash} {
      ShapeStarts(buf, p, s, m, isConnect);
    } else if s in {ServerStart, Server, ServerWithAt} {
      ShapeOfServer(buf, p, s, m, isConnect);
    } else if s in {Path, QueryStringStart, QueryString} {
      ShapeOfPath(buf, p, s, m, isConnect);
    } else {
      ShapeOfFragment(buf, p, s, m, isConnect);
    }
  }

  /** The authority is where the marks say. */
  ghost predicate HostExtent(labels: seq<Label>, s: UrlState, m: Marks) {
    Extent(labels, UfHost) == if UrlRank(s) < 4 then Span(0, 0) else Range(m.authorityStart, m.authorityEnd)
  }

  lemma HostExtentGoesOn(buf: string, p: nat, s: UrlState, m: Marks, isConnect: bool, labels: seq<Label>)
    requires p < |buf| && OuterShape(buf, p, s, m, isConnect) && UrlChar(s, buf[p]) != Dead
    requires |labels| == p && HostExtent(labels, s, m)
    ensures var next := UrlChar(s, buf[p]); HostExtent(labels + [UrlLabel(next)], next, OuterMarks(m, next, p + 1))
  {
    var next := UrlChar(s, buf[p]);
    assert (labels + [UrlLabel(next)])[..p] == labels;
    HostMarksGoOn(buf, p, s, m, isConnect, next);
  }

  /** Only a step into the host moves the marks of the authority. */
  lemma HostMarksGoOn(buf: string, p: nat, s: UrlState, m: Marks, isConnect: bool, next: UrlState)
    requires p < |buf| && OuterShape(buf, p, s, m, isConnect) && next == UrlChar(s, buf[p]) != Dead
    ensures var m' := OuterMarks(m, next, p + 1);
            if UrlLabel(next) == In(UfHost) then
              && UrlRank(next) >= 4 && m'.authorityStart == m.authorityStart && m'.authorityEnd == p + 1
              && (if UrlRank(s) < 4 then m.authorityStart == p else m.authorityStart <= m.authorityEnd == p)
            else if UrlRank(next) < 4 then UrlRank(s) < 4
            else Range(m'.authorityStart, m'.authorityEnd) == if UrlRank(s) < 4 then Span(0, 0) else Range(m.authorityStart, m.authorityEnd)
  {
  }

  /** The marks of the first p characters, by the run over them. */
  ghost predicate RunShape(buf: string, p: nat, isConnect: bool, m: Marks)
    requires p <= |buf|
  {
    forall u {:trigger Look(u)} :: Look(u) ==>
      var s := UrlAfter(buf, p, StartState(isConnect));
      OuterShape(buf, p, s, m, isConnect) && HostExtent(UrlLabels(buf, p, StartState(isConnect)), s, m)
  }

  // Look is true; a proof says Look(0) where it needs what is under it.
  predicate Look(u: int) { true }

  /** Every run that begins with a letter, or with a target of CONNECT, and does not die. */
  lemma {:induction false} RunHasShape(buf: string, p: nat, isConnect: bool) returns (m: Marks)
    requires p <= |buf| && UrlAfter(buf, p, StartState(isConnect)) != Dead
    requires !isConnect ==> 0 < p && IsAlpha(buf[0])
    ensures RunShape(buf, p, isConnect, m)
  {
    if p == 0 {
      m := TargetStarts(buf);
    } else if p == 1 && !isConnect {
      m := SchemaStarts(buf);
    } else {
      var before: nat := p - 1;
      AliveBefore(buf, before, StartState(isConnect));
      var m0 := RunHasShape(buf, before, isConnect);
      m := RunGoesOn(buf, before, isConnect, m0);
    }
  }

  lemma AliveBefore(buf: string, p: nat, s0: UrlState)
    requires p < |buf| && UrlAfter(buf, p + 1, s0) != Dead
    ensures UrlAfter(buf, p, s0) != Dead
  {
  }

  lemma RunGoesOn(buf: string, p: nat, isConnect: bool, m0: Marks) returns (m: Marks)
    requires p < |buf| && UrlAfter(buf, p + 1, StartState(isConnect)) != Dead
    requires RunShape(buf, p, isConnect, m0)
    ensures RunShape(buf, p + 1, isConnect, m)
  {
    var s := UrlAfter(buf, p, StartState(isConnect));
    assert Look(0);
    ShapeGoesOn(buf, p, s, m0, isConnect);
    HostExtentGoesOn(buf, p, s, m0, isConnect, UrlLabels(buf, p, StartState(isConnect)));
    m := OuterMarks(m0, UrlChar(s, buf[p]), p + 1);
  }

  lemma TargetStarts(buf: string) returns (m: Marks)
    ensures RunShape(buf, 0, true, m)
  {
    m := Marks(0, 0, false, 0, false, Span(0, 0), false, 0, 0, false, 0, 0);
    ShapeAtStart(buf, m);
    assert UrlAfter(buf, 0, StartState(true)) == ServerStart && UrlLabels(buf, 0, StartState(true)) == [];
  }

  lemma ShapeAtStart(buf: string, m: Marks)
    requires m == Marks(0, 0, false, 0, false, Span(0, 0), false, 0, 0, false, 0, 0)
    ensures OuterShape(buf, 0, ServerStart, m, true) && HostExtent([], ServerStart, m)
  {
  }

  lemma SchemaStarts(buf: string) returns (m: Marks)
    requires buf != "" && IsAlpha(buf[0])
    ensures RunShape(buf, 1, false, m)
  {
    m := Marks(1, 0, false, 0, false, Span(0, 0), false, 0, 0, false, 0, 0);
    FirstStep(buf);
    assert UrlLabels(buf, 1, SpacesBeforeUrl) == [In(UfSchema)];
    assert [In(UfSchema)][..0] == [];
  }

  lemma FirstStep(buf: string)
    requires buf != ""
    ensures UrlAfter(buf, 1, SpacesBeforeUrl) == UrlChar(SpacesBeforeUrl, buf[0])
  {
    assert UrlAfter(buf, 0, SpacesBeforeUrl) == SpacesBeforeUrl;
  }

  /** The marks of the characters from lo, where an authority begins, up to p. */
  ghost predicate HostShape(buf: string, lo: nat, p: nat, s: HostState, m: Marks) {
    && lo == m.authorityStart <= p <= |buf|
    && match s
       case UserinfoStart => m.userEnd == lo == p
       case Userinfo => m.userEnd == p && forall i :: lo <= i < p ==> IsUserinfoChar(buf[i])
       case HostStart => IsUserinfo(buf, m) && m.AfterAt() == p
       case HostV6Start => IsUserinfo(buf, m) && IsV6To(buf, m, p) && m.host.len == 0
       case HostV6 => IsUserinfo(buf, m) && IsV6To(buf, m, p) && m.host.len > 0
       case Host => IsUserinfo(buf, m) && IsHost(buf, m) && !m.v6 && End(m.host) == p
       case HostV6End => IsUserinfo(buf, m) && IsHost(buf, m) && m.v6 && m.HostEnd() == p
       case PortStart =>
         IsUserinfo(buf, m) && IsHost(buf, m) && m.hasPort && m.PortStart() == p && buf[m.HostEnd()] == ':'
       case Port => IsUserinfo(buf, m) && IsHost(buf, m) && m.hasPort && IsPort(buf, m) && m.authorityEnd == p
       case HostDead => false
  }

  /** The marks of an address in brackets, which is not closed yet. */
  ghost predicate IsV6To(buf: string, m: Marks, p: nat) {
    && m.v6 && m.host.off == m.AfterAt() + 1 && End(m.host) == p <= |buf| && buf[m.AfterAt()] == '['
    && forall i :: m.host.off <= i < p ==> IsHex(buf[i]) || buf[i] == ':' || buf[i] == '.'
  }

  /** The marks after the character at `at`, which leads from x to y. */
  function InnerMarks(m: Marks, x: HostState, y: HostState, at: nat): Marks {
    match y
    case Userinfo => m.(userEnd := at + 1)
    case HostStart => m.(hasAt := true)
    case HostV6Start => m.(v6 := true, host := Span(at + 1, 0))
    case Host => if x == HostStart then m.(v6 := false, host := Span(at, 1)) else m.(host := Span(m.host.off, m.host.len + 1))
    case HostV6 => m.(host := Span(m.host.off, m.host.len + 1))
    case PortStart => m.(hasPort := true)
    case Port => m.(authorityEnd := at + 1)
    case _ => m
  }

  lemma HostShapeStarts(buf: string, lo: nat, p: nat, s: HostState, m: Marks)
    requires p < |buf| && HostShape(buf, lo, p, s, m) && s in {UserinfoStart, Userinfo, HostStart}
    requires HostChar(s, buf[p]) != HostDead
    ensures HostShape(buf, lo, p + 1, HostChar(s, buf[p]), InnerMarks(m, s, HostChar(s, buf[p]), p))
  {
  }

  lemma HostShapeMiddle(buf: string, lo: nat, p: nat, s: HostState, m: Marks)
    requires p < |buf| && HostShape(buf, lo, p, s, m) && s in {HostV6Start, HostV6, Host}
    requires HostChar(s, buf[p]) != HostDead
    ensures HostShape(buf, lo, p + 1, HostChar(s, buf[p]), InnerMarks(m, s, HostChar(s, buf[p]), p))
  {
  }

  lemma HostShapeEnds(buf: string, lo: nat, p: nat, s: HostState, m: Marks)
    requires p < |buf| && HostShape(buf, lo, p, s, m) && s in {HostV6End, PortStart, Port}
    requires HostChar(s, buf[p]) != HostDead
    ensures HostShape(buf, lo, p + 1, HostChar(s, buf[p]), InnerMarks(m, s, HostChar(s, buf[p]), p))
  {
  }

  lemma HostShapeGoesOn(buf: string, lo: nat, p: nat, s: HostState, m: Marks)
    requires p < |buf| && HostShape(buf, lo, p, s, m) && HostChar(s, buf[p]) != HostDead
    ensures HostShape(buf, lo, p + 1, HostChar(s, buf[p]), InnerMarks(m, s, HostChar(s, buf[p]), p))
  {
    if s in {UserinfoStart, Userinfo, HostStart} {
      HostShapeStarts(buf, lo, p, s, m);
    } else if s in {HostV6Start, HostV6, Host} {
      HostShapeMiddle(buf, lo, p, s, m);
    } else {
      HostShapeEnds(buf, lo, p, s, m);
    }
  }

  lemma {:induction false} HostRunHasShape(buf: string, lo: nat, p: nat, start: HostState) returns (m: Marks)
    requires lo <= p <= |buf| && (start == HostStart || start == UserinfoStart)
    requires HostAfter(buf, lo, p, start) != HostDead
    ensures HostShape(buf, lo, p, HostAfter(buf, lo, p, start), m)
    decreases p
  {
    if p == lo {
      m := Marks(0, lo, false, lo, false, Span(lo, 0), false, 0, 0, false, 0, 0);
    } else {
      var before: nat := p - 1;
      var s := HostAfter(buf, lo, before, start);
      var m0 := HostRunHasShape(buf, lo, before, start);
      HostShapeGoesOn(buf, lo, before, s, m0);
      m := InnerMarks(m0, s, HostChar(s, buf[before]), before);
    }
  }

  /** An authority that ends well has its marks. */
  lemma AuthorityHasMarks(buf: string, lo: nat, hi: nat, start: HostState) returns (m: Marks)
    requires lo <= hi <= |buf| && (start == HostStart || start == UserinfoStart)
    requires EndsWell(HostAfter(buf, lo, hi, start))
    ensures m.authorityStart == lo && m.authorityEnd == hi && IsAuthority(buf, m)
  {
    var m0 := HostRunHasShape(buf, lo, hi, start);
    m := if HostAfter(buf, lo, hi, start) == Port then m0 else m0.(hasPort := false, authorityEnd := hi);
    assert IsUserinfo(buf, m) && IsHost(buf, m);
  }

  /** A string is accepted with a schema exactly when it is a URL by the grammar, and its port is
      not too large. */
  lemma AcceptedAreUrls(buf: string, after: string)
    ensures Accepts(buf, after, false) && FieldSpan(buf, false, UfSchema).len > 0 <==>
            exists m :: IsUrl(buf, m, false) && (m.hasPort ==> PortRead(buf, after, false) <= 0xffff)
  {
    if Accepts(buf, after, false) && FieldSpan(buf, false, UfSchema).len > 0 {
      var m := UrlOfAccepted(buf, after);
    }
    if m :| IsUrl(buf, m, false) && (m.hasPort ==> PortRead(buf, after, false) <= 0xffff) {
      UrlIsSplit(buf, after, m, false);
      assert FieldOfUrl(buf, m, UfSchema).len > 0;
    }
  }

  lemma UrlOfAccepted(buf: string, after: string) returns (m: Marks)
    requires Accepts(buf, after, false) && FieldSpan(buf, false, UfSchema).len > 0
    ensures IsUrl(buf, m, false) && (m.hasPort ==> PortRead(buf, after, false) <= 0xffff)
  {
    SchemaStartsWithLetter(buf);
    m := MarksOfAccepted(buf, after, false);
    UrlIsSplit(buf, after, m, false);
  }

  /** A target of CONNECT is accepted exactly when it is an authority of a host and a port, at
      most followed by the signs of an empty query and an empty fragment. */
  lemma AcceptedTargets(buf: string, after: string)
    ensures Accepts(buf, after, true) <==>
            exists m :: IsUrl(buf, m, true) && IsTarget(buf, m) && PortRead(buf, after, true) <= 0xffff
  {
    if Accepts(buf, after, true) {
      assert FieldSpan(buf, true, UfHost).len > 0 && FieldSpan(buf, true, UfPort).len > 0;
      var m := MarksOfAccepted(buf, after, true);
      UrlIsSplit(buf, after, m, true);
      assert FieldOfUrl(buf, m, UfPort).len > 0;
    }
    if m :| IsUrl(buf, m, true) && IsTarget(buf, m) && PortRead(buf, after, true) <= 0xffff {
      UrlIsSplit(buf, after, m, true);
    }
  }

  lemma MarksOfAccepted(buf: string, after: string, isConnect: bool) returns (m: Marks)
    requires Accepts(buf, after, isConnect) && HasAuthority(buf, isConnect)
    requires !isConnect ==> buf != "" && IsAlpha(buf[0])
    ensures IsUrl(buf, m, isConnect)
  {
    var outer := RunHasShape(buf, |buf|, isConnect);
    var inner := AuthorityOfAccepted(buf, isConnect);
    m := outer.(hasAt := inner.hasAt, userEnd := inner.userEnd, v6 := inner.v6, host := inner.host, hasPort := inner.hasPort);
    OuterOfAccepted(buf, isConnect, outer);
    JoinedMarks(buf, outer, inner, m, isConnect);
  }

  lemma AuthorityOfAccepted(buf: string, isConnect: bool) returns (m: Marks)
    requires EndsWell(HostStateAtEnd(buf, isConnect))
    ensures IsAuthority(buf, m)
    ensures Authority(buf, isConnect).len > 0
    ensures m.authorityStart == Authority(buf, isConnect).off && m.authorityEnd == End(Authority(buf, isConnect))
  {
    var raw := Authority(buf, isConnect);
    var start := HostStartState(PassesAt(buf, |buf|, StartState(isConnect)));
    m := AuthorityHasMarks(buf, raw.off, End(raw), start);
    assert HostAfter(buf, raw.off, raw.off, start) == start;
  }

  lemma OuterOfAccepted(buf: string, isConnect: bool, m: Marks)
    requires RunShape(buf, |buf|, isConnect, m) && Authority(buf, isConnect).len > 0
    ensures IsFront(buf, m, isConnect) && IsRest(buf, m, |buf|)
    ensures m.authorityStart == Authority(buf, isConnect).off && m.authorityEnd == End(Authority(buf, isConnect))
  {
    assert Look(0);
  }

  lemma JoinedMarks(buf: string, outer: Marks, inner: Marks, m: Marks, isConnect: bool)
    requires IsFront(buf, outer, isConnect) && IsRest(buf, outer, |buf|) && IsAuthority(buf, inner)
    requires inner.authorityStart == outer.authorityStart && inner.authorityEnd == outer.authorityEnd
    requires m == outer.(hasAt := inner.hasAt, userEnd := inner.userEnd, v6 := inner.v6, host := inner.host, hasPort := inner.hasPort)
    ensures IsUrl(buf, m, isConnect)
  {
    SameAuthority(buf, inner, m);
  }

  lemma SameAuthority(buf: string, inner: Marks, m: Marks)
    requires IsAuthority(buf, inner) && inner.authorityStart == m.authorityStart && inner.authorityEnd == m.authorityEnd
    requires m.hasAt == inner.hasAt && m.userEnd == inner.userEnd && m.v6 == inner.v6
    requires m.host == inner.host && m.hasPort == inner.hasPort
    ensures IsAuthority(buf, m)
  {
  }

  lemma {:induction false} SchemaOnlyFirst(buf: string, p: nat)
    requires p <= |buf| && p > 0 && !IsAlpha(buf[0])
    ensures UrlAfter(buf, p, SpacesBeforeUrl) !in {SpacesBeforeUrl, Schema}
    ensures In(UfSchema) !in UrlLabels(buf, p, SpacesBeforeUrl)
  {
    if p == 1 {
      assert UrlAfter(buf, 0, SpacesBeforeUrl) == SpacesBeforeUrl;
      assert UrlLabels(buf, 0, SpacesBeforeUrl) == [];
    } else {
      SchemaOnlyFirst(buf, p - 1);
    }
  }

  lemma SchemaStartsWithLetter(buf: string)
    requires Extent(AllUrlLabels(buf, false), UfSchema).len > 0
    ensures buf != "" && IsAlpha(buf[0])
  {
    if buf != "" && !IsAlpha(buf[0]) {
      SchemaOnlyFirst(buf, |buf|);
      NoSuchField(AllUrlLabels(buf, false), UfSchema);
    }
  }

  /** "http://a:1" with a '2' behind the buffer: the port is 12, not 1. */
  lemma PortReadsOn(buf: string, after: string)
    requires |buf| == 10 && buf[0] == 'h' && buf[1] == 't' && buf[2] == 't' && buf[3] == 'p'
    requires buf[4] == ':' && buf[5] == '/' && buf[6] == '/' && buf[7] == 'a' && buf[8] == ':' && buf[9] == '1'
    requires after == "2"
    ensures HasPort(buf, after, Span(9, 1), 12)
  {
    var m := MarksOfShort(buf);
    DigitsBehind(buf, after);
    PortOfUrl(buf, after, m, Span(9, 1), 12);
  }

  lemma MarksOfShort(buf: string) returns (m: Marks)
    requires |buf| == 10 && IsAlpha(buf[0]) && IsAlpha(buf[1]) && IsAlpha(buf[2]) && IsAlpha(buf[3])
    requires buf[4] == ':' && buf[5] == '/' && buf[6] == '/' && IsHostChar(buf[7]) && buf[8] == ':' && IsNum(buf[9])
    ensures IsUrl(buf, m, false) && Span(9, 1) == Range(m.PortStart(), m.authorityEnd)
  {
    m := Marks(4, 7, false, 7, false, Span(7, 1), true, 10, 10, false, 10, 0);
    ShortFront(buf, m);
    ShortAuthority(buf, m);
    ShortRest(buf, m);
  }

  lemma ShortFront(buf: string, m: Marks)
    requires |buf| == 10 && IsAlpha(buf[0]) && IsAlpha(buf[1]) && IsAlpha(buf[2]) && IsAlpha(buf[3])
    requires buf[4] == ':' && buf[5] == '/' && buf[6] == '/' && m.schemaEnd == 4 && m.authorityStart == 7
    ensures IsFront(buf, m, false)
  {
  }

  lemma ShortAuthority(buf: string, m: Marks)
    requires |buf| == 10 && IsHostChar(buf[7]) && buf[8] == ':' && IsNum(buf[9])
    requires m.authorityStart == m.userEnd == 7 && !m.hasAt && !m.v6 && m.host == Span(7, 1) && m.hasPort && m.authorityEnd == 10
    ensures IsAuthority(buf, m)
  {
    assert IsUserinfo(buf, m) && IsHost(buf, m);
  }

  lemma ShortRest(buf: string, m: Marks)
    requires |buf| == 10 && m.authorityEnd == m.pathEnd == m.queryEnd == 10 && !m.hasQuery && m.hashes == 0
    ensures IsPath(buf, m) && IsQuery(buf, m) && IsFragment(buf, m, 10)
  {
  }

  /** Accepted, with this range of a port and this port. */
  ghost predicate HasPort(buf: string, after: string, e: Span, port: nat) {
    Accepts(buf, after, false) && FieldSpan(buf, false, UfPort) == e && PortRead(buf, after, false) == port
  }

  lemma PortOfUrl(buf: string, after: string, m: Marks, e: Span, port: nat)
    requires IsUrl(buf, m, false) && e == Range(m.PortStart(), m.authorityEnd) && 0 < e.len
    requires Strtoul((buf + after)[e.off..]) == port <= 0xffff
    ensures HasPort(buf, after, e, port)
  {
    UrlIsSplit(buf, after, m, false);
    assert FieldOfUrl(buf, m, UfPort) == e;
  }

  lemma DigitsBehind(buf: string, after: string)
    requires |buf| == 10 && buf[9] == '1' && after == "2"
    ensures Strtoul((buf + after)[9..]) == 12
  {
    assert (buf + after)[9..] == ['1', '2'];
    StrtoulOfTwo('1', '2');
  }

  lemma StrtoulOfTwo(a: char, b: char)
    requires IsNum(a) && IsNum(b)
    ensures Strtoul([a, b]) == 10 * (a as int - '0' as int) + (b as int - '0' as int)
  {
    DigitsOf([a, b], "");
    assert [a, b] + "" == [a, b];
    assert [a, b][..2] == [a, b] && [a, b][..1] == [a] && [a][..0] == "";
    assert Decimal([a]) == a as int - '0' as int;
  }

  // ------------------------------------------------------------------- without a schema

  /** A path from the first character on, which is '/' or '*', with query and fragment. */
  ghost predicate IsPathOnly(buf: string, m: Marks, p: nat) {
    && m.schemaEnd == m.authorityStart == m.authorityEnd == 0 < m.pathEnd <= |buf|
    && (buf[0] == '/' || buf[0] == '*') && (forall i :: 0 <= i < m.pathEnd ==> PathCharacter(buf[i]))
    && IsQuery(buf, m) && IsFragment(buf, m, p)
  }

  lemma PathOnlyLabels(buf: string, m: Marks)
    requires IsPathOnly(buf, m, |buf|)
    ensures UrlAfter(buf, |buf|, SpacesBeforeUrl) != Dead && OuterAtMarks(AllUrlLabels(buf, false), m)
  {
    Walk(buf, SpacesBeforeUrl, 0, m.pathEnd, SpacesBeforeUrl, Path);
    QueryWalk(buf, m, SpacesBeforeUrl);
    FragmentWalk(buf, m, SpacesBeforeUrl);
  }

  /** Such a string is accepted, and split into path, query and fragment. */
  lemma PathIsSplit(buf: string, after: string, m: Marks)
    requires IsPathOnly(buf, m, |buf|)
    ensures Accepts(buf, after, false)
    ensures forall f: Field :: FieldSpan(buf, false, f) == if IsInner(f) then Span(0, 0) else FieldOfUrl(buf, m, f)
  {
    PathOnlyLabels(buf, m);
    ExtentsAtMarks(AllUrlLabels(buf, false), m);
    NoInnerFields(buf, false);
    assert !HasAuthority(buf, false);
  }

  /** The marks of the first p characters. */
  ghost predicate PathShape(buf: string, p: nat, s: UrlState, m: Marks) {
    IsPathOnly(buf, m, p) && StateMarks(s, m, p) && s in {Path, QueryStringStart, QueryString, FragmentStart, Fragment}
  }

  lemma PathShapeGoesOn(buf: string, p: nat, s: UrlState, m: Marks)
    requires p < |buf| && PathShape(buf, p, s, m) && UrlChar(s, buf[p]) != Dead
    ensures PathShape(buf, p + 1, UrlChar(s, buf[p]), OuterMarks(m, UrlChar(s, buf[p]), p + 1))
  {
  }

  lemma {:induction false} PathRunHasShape(buf: string, p: nat) returns (m: Marks)
    requires 0 < p <= |buf| && (buf[0] == '/' || buf[0] == '*') && UrlAfter(buf, p, SpacesBeforeUrl) != Dead
    ensures PathShape(buf, p, UrlAfter(buf, p, SpacesBeforeUrl), m)
  {
    if p == 1 {
      assert UrlAfter(buf, 0, SpacesBeforeUrl) == SpacesBeforeUrl;
      m := Marks(0, 0, false, 0, false, Span(0, 0), false, 0, 1, false, 1, 0);
    } else {
      var before: nat := p - 1;
      var m0 := PathRunHasShape(buf, before);
      PathShapeGoesOn(buf, before, UrlAfter(buf, before, SpacesBeforeUrl), m0);
      m := OuterMarks(m0, UrlAfter(buf, p, SpacesBeforeUrl), p);
    }
  }

  /** How a run begins says whether there is a schema. */
  lemma FirstCharacter(buf: string)
    requires buf != "" && UrlAfter(buf, |buf|, SpacesBeforeUrl) != Dead
    ensures buf[0] == '/' || buf[0] == '*' || IsAlpha(buf[0])
    ensures IsAlpha(buf[0]) ==> Extent(AllUrlLabels(buf, false), UfSchema).len > 0
  {
    FirstStep(buf);
    if UrlAfter(buf, 1, SpacesBeforeUrl) == Dead {
      DeadStays(buf, 1, |buf|, SpacesBeforeUrl);
    }
    if IsAlpha(buf[0]) {
      UrlLabelAt(buf, |buf|, SpacesBeforeUrl, 0);
      FirstLabel(AllUrlLabels(buf, false), UfSchema);
    }
  }

  lemma {:induction false} FirstLabel(labels: seq<Label>, f: Field)
    requires labels != [] && labels[0] == In(f)
    ensures Extent(labels, f).len > 0
  {
    if |labels| > 1 {
      FirstLabel(labels[..|labels| - 1], f);
    }
  }

  /** A string is accepted without a schema exactly when it is empty or begins with its path. */
  lemma AcceptedPaths(buf: string, after: string)
    ensures Accepts(buf, after, false) && FieldSpan(buf, false, UfSchema).len == 0 <==>
            buf == "" || exists m :: IsPathOnly(buf, m, |buf|)
  {
    if buf == "" {
      EmptyIsAccepted(buf, after);
    } else if Accepts(buf, after, false) && FieldSpan(buf, false, UfSchema).len == 0 {
      FirstCharacter(buf);
      var m := PathRunHasShape(buf, |buf|);
    }
    if m :| IsPathOnly(buf, m, |buf|) {
      PathIsSplit(buf, after, m);
    }
  }

  lemma EmptyIsAccepted(buf: string, after: string)
    requires buf == ""
    ensures Accepts(buf, after, false) && FieldSpan(buf, false, UfSchema).len == 0
  {
    assert AllUrlLabels(buf, false) == [];
  }
}
