/** The URL splitter of base/http/http_parser.cc, not in strict mode: parse_url_char and
    http_parse_host_char name the part of a URL that each character is in, and
    http_parser_parse_url turns that into ranges.  Characters from 128 on stand for the bytes
    with the top bit set. */
module HttpUrl {
  import opened Digits

  // ------------------------------------------------------------------------- characters

  predicate IsAlpha(c: char) { 'a' <= c <= 'z' || 'A' <= c <= 'Z' }

  predicate IsHex(c: char) { IsNum(c) || 'a' <= c <= 'f' || 'A' <= c <= 'F' }

  predicate IsMark(c: char) {
    c == '-' || c == '_' || c == '.' || c == '!' || c == '~' || c == '*' || c == '\'' || c == '(' || c == ')'
  }

  predicate IsUserinfoChar(c: char) {
    IsAlpha(c) || IsNum(c) || IsMark(c) || c == '%' || c == ';' || c == ':' || c == '&' || c == '=' || c == '+' || c == '$' || c == ','
  }

  predicate IsHostChar(c: char) {
    IsAlpha(c) || IsNum(c) || c == '.' || c == '-' || c == '_'
  }

  predicate IsPathOrQuerySign(c: char) { c == '/' || c == '?' }

  predicate IsUrlChar(c: char) {
    c == '\t' || c == '\U{C}' || ('!' <= c && c != '#' && c != '?' && c != '\U{7F}')
  }

  // ----------------------------------------------------------------------- two machines

  datatype UrlState =
    | Dead | SpacesBeforeUrl | Schema | SchemaSlash | SchemaSlashSlash | ServerStart | Server | ServerWithAt
    | Path | QueryStringStart | QueryString | FragmentStart | Fragment

  /** parse_url_char. */
  function UrlChar(s: UrlState, ch: char): UrlState {
    if ch == ' ' || ch == '\r' || ch == '\n' then Dead
    else match s
      case SpacesBeforeUrl => if ch == '/' || ch == '*' then Path else if IsAlpha(ch) then Schema else Dead
      case Schema => if IsAlpha(ch) then Schema else if ch == ':' then SchemaSlash else Dead
      case SchemaSlash => if ch == '/' then SchemaSlashSlash else Dead
      case SchemaSlashSlash => if ch == '/' then ServerStart else Dead
      case ServerWithAt => if ch == '@' then Dead else ServerChar(ch)
      case ServerStart => ServerChar(ch)
      case Server => ServerChar(ch)
      case Path =>
        if IsUrlChar(ch) then Path else if ch == '?' then QueryStringStart else if ch == '#' then FragmentStart else Dead
      case QueryStringStart => QueryChar(ch)
      case QueryString => QueryChar(ch)
      case FragmentStart => if IsUrlChar(ch) || ch == '?' then Fragment else if ch == '#' then FragmentStart else Dead
      case Fragment => if IsUrlChar(ch) || ch == '?' || ch == '#' then Fragment else Dead
      case Dead => Dead
  }

  function ServerChar(ch: char): UrlState {
    if ch == '/' then Path
    else if ch == '?' then QueryStringStart
    else if ch == '@' then ServerWithAt
    else if IsUserinfoChar(ch) || ch == '[' || ch == ']' then Server
    else Dead
  }

  function QueryChar(ch: char): UrlState {
    if IsUrlChar(ch) || ch == '?' then QueryString else if ch == '#' then FragmentStart else Dead
  }

  datatype HostState =
    | HostDead | UserinfoStart | Userinfo | HostStart | HostV6Start | Host | HostV6 | HostV6End | PortStart | Port

  /** http_parse_host_char. */
  function HostChar(s: HostState, ch: char): HostState {
    match s
    case UserinfoStart => UserinfoChar(ch)
    case Userinfo => UserinfoChar(ch)
    case HostStart => if ch == '[' then HostV6Start else if IsHostChar(ch) then Host else HostDead
    case Host => if IsHostChar(ch) then Host else if ch == ':' then PortStart else HostDead
    case HostV6End => if ch == ':' then PortStart else HostDead
    case HostV6 => if ch == ']' then HostV6End else V6Char(ch)
    case HostV6Start => V6Char(ch)
    case Port => PortChar(ch)
    case PortStart => PortChar(ch)
    case HostDead => HostDead
  }

  function UserinfoChar(ch: char): HostState {
    if ch == '@' then HostStart else if IsUserinfoChar(ch) then Userinfo else HostDead
  }

  function V6Char(ch: char): HostState {
    if IsHex(ch) || ch == ':' || ch == '.' then HostV6 else HostDead
  }

  function PortChar(ch: char): HostState {
    if IsNum(ch) then Port else HostDead
  }

  // ------------------------------------------------------------------------------ fields

  datatype Field = UfSchema | UfHost | UfPort | UfPath | UfQuery | UfFragment | UfUserinfo

  datatype Label = NoField | In(field: Field)

  datatype Span = Span(off: nat, len: nat)

  /** The field that a character belongs to, by the state after it. */
  function UrlLabel(s: UrlState): Label {
    match s
    case Schema => In(UfSchema)
    case Server => In(UfHost)
    case ServerWithAt => In(UfHost)
    case Path => In(UfPath)
    case QueryString => In(UfQuery)
    case Fragment => In(UfFragment)
    case _ => NoField
  }

  function HostLabel(s: HostState): Label {
    match s
    case Userinfo => In(UfUserinfo)
    case Host => In(UfHost)
    case HostV6 => In(UfHost)
    case Port => In(UfPort)
    case _ => NoField
  }

  /** The state after p characters. */
  function UrlAfter(buf: string, p: nat, s: UrlState): UrlState
    requires p <= |buf|
  {
    if p == 0 then s else UrlChar(UrlAfter(buf, p - 1, s), buf[p - 1])
  }

  /** The state after the characters from lo up to p. */
  function HostAfter(buf: string, lo: nat, p: nat, s: HostState): HostState
    requires lo <= p <= |buf|
    decreases p
  {
    if p == lo then s else HostChar(HostAfter(buf, lo, p - 1, s), buf[p - 1])
  }

  function UrlLabels(buf: string, p: nat, s: UrlState): (r: seq<Label>)
    requires p <= |buf|
    ensures |r| == p
  {
    if p == 0 then [] else UrlLabels(buf, p - 1, s) + [UrlLabel(UrlAfter(buf, p, s))]
  }

  function Unlabelled(n: nat): (r: seq<Label>)
    ensures |r| == n && forall i :: 0 <= i < n ==> r[i] == NoField
  {
    if n == 0 then [] else Unlabelled(n - 1) + [NoField]
  }

  function HostLabels(buf: string, lo: nat, p: nat, s: HostState): (r: seq<Label>)
    requires lo <= p <= |buf|
    ensures |r| == p
    decreases p
  {
    if p == lo then Unlabelled(lo) else HostLabels(buf, lo, p - 1, s) + [HostLabel(HostAfter(buf, lo, p, s))]
  }

  /** Where a field starts and how many characters it has. */
  function Extent(labels: seq<Label>, f: Field): Span {
    if labels == [] then Span(0, 0)
    else
      var last := |labels| - 1;
      var e := Extent(labels[..last], f);
      if labels[last] != In(f) then e
      else if e.len == 0 then Span(last, 1)
      else Span(e.off, e.len + 1)
  }

  /** No field is left and come back to. */
  ghost predicate Unbroken(labels: seq<Label>) {
    forall i, j, k :: 0 <= i < j < k < |labels| && labels[i] == labels[k] != NoField ==> labels[j] == labels[i]
  }

  /** The range of a field in bounds has just the characters that belong to it. */
  ghost predicate Covers(e: Span, labels: seq<Label>, f: Field) {
    && e.off + e.len <= |labels|
    && forall i :: 0 <= i < |labels| ==> (labels[i] == In(f) <==> e.off <= i < e.off + e.len)
  }

  lemma {:induction false} ExtentCovers(labels: seq<Label>, f: Field)
    requires Unbroken(labels)
    ensures Covers(Extent(labels, f), labels, f)
  {
    if labels != [] {
      var last := |labels| - 1;
      var front := labels[..last];
      ExtentCovers(front, f);
      var e := Extent(front, f);
      if labels[last] == In(f) && e.len > 0 {
        assert front[e.off] == In(f);
        NothingBetween(labels, e.off, last);
      }
    }
  }

  lemma NothingBetween(labels: seq<Label>, i: nat, k: nat)
    requires Unbroken(labels) && i < k < |labels| && labels[i] == labels[k] != NoField
    ensures forall j :: i <= j <= k ==> labels[j] == labels[i]
  {
  }

  // --------------------------------------------------------------------- the fields' order

  /** How far in a URL a state is. */
  function UrlRank(s: UrlState): nat {
    match s
    case SpacesBeforeUrl => 0
    case Schema => 1
    case SchemaSlash => 2
    case SchemaSlashSlash => 3
    case ServerStart => 4
    case Server => 5
    case ServerWithAt => 5
    case Path => 6
    case QueryStringStart => 7
    case QueryString => 8
    case FragmentStart => 9
    case Fragment => 10
    case Dead => 11
  }

  function HostRank(s: HostState): nat {
    match s
    case UserinfoStart => 0
    case Userinfo => 1
    case HostStart => 2
    case HostV6Start => 3
    case Host => 4
    case HostV6 => 4
    case HostV6End => 5
    case PortStart => 6
    case Port => 7
    case HostDead => 8
  }

  /** The order in which fields stand in a URL. */
  function Order(f: Field): nat {
    match f
    case UfSchema => 0
    case UfUserinfo => 1
    case UfHost => 2
    case UfPort => 3
    case UfPath => 4
    case UfQuery => 5
    case UfFragment => 6
  }

  /** The labels of a machine keep to the order. */
  ghost predicate Ordered(labels: seq<Label>) {
    && Unbroken(labels)
    && forall i, j :: 0 <= i < j < |labels| && labels[i] != NoField && labels[j] != NoField ==>
         Order(labels[i].field) <= Order(labels[j].field)
  }

  lemma UrlRankGrows(s: UrlState, ch: char)
    ensures UrlRank(s) <= UrlRank(UrlChar(s, ch))
  {
  }

  lemma HostRankGrows(s: HostState, ch: char)
    ensures HostRank(s) <= HostRank(HostChar(s, ch))
  {
  }

  /** The rank of the states in a field. */
  function FieldRank(f: Field): nat {
    match f
    case UfSchema => 1
    case UfHost => 5
    case UfPath => 6
    case UfQuery => 8
    case UfFragment => 10
    case _ => 12
  }

  function HostFieldRank(f: Field): nat {
    match f
    case UfUserinfo => 1
    case UfHost => 4
    case UfPort => 7
    case _ => 9
  }

  /** Ranks that never fall, each naming the label of its character. */
  ghost predicate Ranked(labels: seq<Label>, ranks: seq<nat>, rank: Field -> nat) {
    && |ranks| == |labels|
    && (forall i, j :: 0 <= i < j < |ranks| ==> ranks[i] <= ranks[j])
    && (forall i, f :: 0 <= i < |labels| ==> (labels[i] == In(f) <==> ranks[i] == rank(f)))
  }

  lemma RankedIsOrdered(labels: seq<Label>, ranks: seq<nat>, rank: Field -> nat)
    requires Ranked(labels, ranks, rank)
    requires forall f, g :: rank(f) <= rank(g) ==> Order(f) <= Order(g) || In(f) !in labels || In(g) !in labels
    ensures Ordered(labels)
  {
    forall i, j, k | 0 <= i < j < k < |labels| && labels[i] == labels[k] != NoField ensures labels[j] == labels[i] {
      var f := labels[i].field;
      assert ranks[i] <= ranks[j] <= ranks[k] && ranks[i] == rank(f) == ranks[k];
    }
    forall i, j | 0 <= i < j < |labels| && labels[i] != NoField && labels[j] != NoField
      ensures Order(labels[i].field) <= Order(labels[j].field)
    {
      var f, g := labels[i].field, labels[j].field;
      assert labels[i] == In(f) && labels[j] == In(g);
      assert ranks[i] == rank(f) && ranks[j] == rank(g);
    }
  }

  function UrlRanks(buf: string, p: nat, s: UrlState): (r: seq<nat>)
    requires p <= |buf|
    ensures |r| == p
  {
    if p == 0 then [] else UrlRanks(buf, p - 1, s) + [UrlRank(UrlAfter(buf, p, s))]
  }

  lemma {:induction false} UrlIsRanked(buf: string, p: nat, s: UrlState)
    requires p <= |buf|
    ensures Ranked(UrlLabels(buf, p, s), UrlRanks(buf, p, s), FieldRank)
    ensures forall i :: 0 <= i < p ==> UrlRanks(buf, p, s)[i] <= UrlRank(UrlAfter(buf, p, s))
    ensures In(UfUserinfo) !in UrlLabels(buf, p, s) && In(UfPort) !in UrlLabels(buf, p, s)
  {
    if p != 0 {
      UrlIsRanked(buf, p - 1, s);
      UrlRankGrows(UrlAfter(buf, p - 1, s), buf[p - 1]);
      LabelHasRank(UrlAfter(buf, p, s));
      RankedSnoc(UrlLabels(buf, p - 1, s), UrlRanks(buf, p - 1, s), FieldRank, UrlLabel(UrlAfter(buf, p, s)), UrlRank(UrlAfter(buf, p, s)));
    }
  }

  lemma LabelHasRank(s: UrlState)
    ensures forall f :: UrlLabel(s) == In(f) <==> UrlRank(s) == FieldRank(f)
    ensures UrlLabel(s) != In(UfUserinfo) && UrlLabel(s) != In(UfPort)
  {
  }

  lemma HostLabelHasRank(s: HostState)
    ensures forall f :: HostLabel(s) == In(f) <==> HostRank(s) == HostFieldRank(f)
  {
  }

  lemma RankedSnoc(labels: seq<Label>, ranks: seq<nat>, rank: Field -> nat, last: Label, top: nat)
    requires Ranked(labels, ranks, rank) && forall i :: 0 <= i < |ranks| ==> ranks[i] <= top
    requires forall f :: last == In(f) <==> top == rank(f)
    ensures Ranked(labels + [last], ranks + [top], rank)
  {
  }

  function HostRanks(buf: string, lo: nat, p: nat, s: HostState): (r: seq<nat>)
    requires lo <= p <= |buf|
    ensures |r| == p
    decreases p
  {
    if p == lo then seq(lo, _ => 0) else HostRanks(buf, lo, p - 1, s) + [HostRank(HostAfter(buf, lo, p, s))]
  }

  lemma {:induction false} HostIsRanked(buf: string, lo: nat, p: nat, s: HostState)
    requires lo <= p <= |buf|
    ensures Ranked(HostLabels(buf, lo, p, s), HostRanks(buf, lo, p, s), HostFieldRank)
    ensures forall i :: 0 <= i < p ==> HostRanks(buf, lo, p, s)[i] <= HostRank(HostAfter(buf, lo, p, s))
    decreases p
  {
    if p != lo {
      HostIsRanked(buf, lo, p - 1, s);
      HostRankGrows(HostAfter(buf, lo, p - 1, s), buf[p - 1]);
      HostLabelHasRank(HostAfter(buf, lo, p, s));
      RankedSnoc(HostLabels(buf, lo, p - 1, s), HostRanks(buf, lo, p - 1, s), HostFieldRank,
                 HostLabel(HostAfter(buf, lo, p, s)), HostRank(HostAfter(buf, lo, p, s)));
    }
  }

  lemma UrlIsOrdered(buf: string, p: nat, s: UrlState)
    requires p <= |buf|
    ensures Ordered(UrlLabels(buf, p, s))
  {
    UrlIsRanked(buf, p, s);
    RankedIsOrdered(UrlLabels(buf, p, s), UrlRanks(buf, p, s), FieldRank);
  }

  lemma HostIsOrdered(buf: string, lo: nat, p: nat, s: HostState)
    requires lo <= p <= |buf|
    ensures Ordered(HostLabels(buf, lo, p, s))
  {
    HostIsRanked(buf, lo, p, s);
    OtherLabels(buf, lo, p, s);
    RankedIsOrdered(HostLabels(buf, lo, p, s), HostRanks(buf, lo, p, s), HostFieldRank);
  }

  lemma {:induction false} OtherLabels(buf: string, lo: nat, p: nat, s: HostState)
    requires lo <= p <= |buf|
    ensures forall i :: 0 <= i < p ==> HostLabels(buf, lo, p, s)[i] in {NoField, In(UfUserinfo), In(UfHost), In(UfPort)}
    decreases p
  {
    if p != lo {
      OtherLabels(buf, lo, p - 1, s);
    }
  }

  // ------------------------------------------------------------------------- the splitter

  function StartState(isConnect: bool): UrlState {
    if isConnect then ServerStart else SpacesBeforeUrl
  }

  /** Whether the characters up to p pass a '@' of the host's part. */
  function PassesAt(buf: string, p: nat, s: UrlState): bool
    requires p <= |buf|
  {
    p > 0 && (PassesAt(buf, p - 1, s) || UrlAfter(buf, p, s) == ServerWithAt)
  }

  lemma {:induction false} DeadStays(buf: string, p: nat, q: nat, s: UrlState)
    requires p <= q <= |buf| && UrlAfter(buf, p, s) == Dead
    ensures UrlAfter(buf, q, s) == Dead
    decreases q
  {
    if p < q {
      DeadStays(buf, p, q - 1, s);
    }
  }

  lemma {:induction false} HostDeadStays(buf: string, lo: nat, p: nat, q: nat, s: HostState)
    requires lo <= p <= q <= |buf| && HostAfter(buf, lo, p, s) == HostDead
    ensures HostAfter(buf, lo, q, s) == HostDead
    decreases q
  {
    if p < q {
      HostDeadStays(buf, lo, p, q - 1, s);
    }
  }

  /** old_uf is the last field begun, and no other is as far. */
  ghost predicate IsLast(labels: seq<Label>, oldUf: Label) {
    match oldUf
    case NoField => forall f :: Extent(labels, f).len == 0
    case In(g) => Extent(labels, g).len > 0 && forall f :: Extent(labels, f).len > 0 ==> FieldRank(f) <= FieldRank(g)
  }

  class HttpParserUrl {
    var fieldSet: set<Field>
    var port: nat
    var fieldData: map<Field, Span>

    constructor ()
      ensures fieldSet == {} && port == 0 && forall f: Field :: f in fieldData && fieldData[f] == Span(0, 0)
    {
      fieldSet, port := {}, 0;
      fieldData := map f: Field | Order(f) < 7 :: Span(0, 0);
    }

    /** The ranges of the fields in the set are those of the labels; the others may be old, but
        that of the host is empty. */
    ghost predicate Shows(labels: seq<Label>)
      reads this
    {
      && (forall f: Field :: f in fieldData && (f in fieldSet <==> Extent(labels, f).len > 0))
      && (forall f :: f in fieldSet ==> fieldData[f] == Extent(labels, f))
      && (UfHost !in fieldSet ==> fieldData[UfHost].len == 0)
    }

    /** One more character, in field uf. */
    method Mark(uf: Field, oldUf: Label, p: nat, ghost labels: seq<Label>)
      requires Shows(labels) && |labels| == p
      requires oldUf != In(uf) ==> Extent(labels, uf).len == 0
      requires oldUf == In(uf) ==> Extent(labels, uf).len > 0
      modifies this
      ensures Shows(labels + [In(uf)]) && port == old(port)
    {
      var e := fieldData[uf];
      if In(uf) == oldUf {
        fieldData := fieldData[uf := Span(e.off, e.len + 1)];
      } else {
        fieldData := fieldData[uf := Span(p, 1)];
        fieldSet := fieldSet + {uf};
      }
      assert (labels + [In(uf)])[..p] == labels;
    }

    method MarkNext(next: Label, oldUf: Label, p: nat, ghost labels: seq<Label>, ghost before: nat, ghost rank: nat)
        returns (uf: Label)
      requires Shows(labels) && |labels| == p && IsLast(labels, oldUf)
      requires before <= rank && (oldUf != NoField ==> FieldRank(oldUf.field) <= before)
      requires next != NoField ==> FieldRank(next.field) == rank
      requires next != In(UfUserinfo) && next != In(UfPort)
      modifies this
      ensures Shows(labels + [next]) && IsLast(labels + [next], uf) && port == old(port)
      ensures uf != NoField ==> FieldRank(uf.field) <= rank
    {
      LabelGoesOn(labels, next, oldUf, before, rank);
      match next {
        case NoField =>
          uf := oldUf;
        case In(f) =>
          Mark(f, oldUf, p, labels);
          uf := next;
      }
    }

    /** The loop of http_parser_parse_url; false where it returns 1. */
    method SplitFields(buf: string, isConnect: bool) returns (ok: bool, foundAt: bool)
      requires fieldSet == {} && (forall f: Field :: f in fieldData) && fieldData[UfHost].len == 0
      modifies this
      ensures port == old(port)
      ensures ok <==> UrlAfter(buf, |buf|, StartState(isConnect)) != Dead
      ensures ok ==> Shows(UrlLabels(buf, |buf|, StartState(isConnect)))
      ensures ok ==> foundAt == PassesAt(buf, |buf|, StartState(isConnect))
    {
      ghost var start := StartState(isConnect);
      var s := StartState(isConnect);
      var oldUf := NoField;
      foundAt := false;
      var p := 0;
      while p < |buf|
        invariant p <= |buf| && s == UrlAfter(buf, p, start) && s != Dead
        invariant foundAt == PassesAt(buf, p, start)
        invariant Along(UrlLabels(buf, p, start), oldUf, s) && port == old(port)
      {
        s, oldUf := FieldNext(s, oldUf, buf[p], p, UrlLabels(buf, p, start));
        p := p + 1;
        if s == Dead {
          DeadStays(buf, p, |buf|, start);
          return false, foundAt;
        }
        if s == ServerWithAt {
          foundAt := true;
        }
      }
      return true, foundAt;
    }

    /** Where the loop is: the ranges of the labels so far, the last of them in oldUf. */
    ghost predicate Along(labels: seq<Label>, oldUf: Label, s: UrlState)
      reads this
    {
      Shows(labels) && IsLast(labels, oldUf) && (oldUf != NoField ==> FieldRank(oldUf.field) <= UrlRank(s))
    }

    /** One turn of the loop; the default of its switch is never reached. */
    method FieldNext(s: UrlState, oldUf: Label, ch: char, p: nat, ghost labels: seq<Label>)
        returns (next: UrlState, uf: Label)
      requires Along(labels, oldUf, s) && |labels| == p
      modifies this
      ensures next == UrlChar(s, ch) && port == old(port)
      ensures next != Dead ==> Along(labels + [UrlLabel(next)], uf, next)
    {
      next, uf := UrlChar(s, ch), oldUf;
      if next == Dead {
        return;
      }
      assert next != SpacesBeforeUrl;
      UrlRankGrows(s, ch);
      uf := MarkNext(UrlLabel(next), oldUf, p, labels, UrlRank(s), UrlRank(next));
    }

    /** The ranges in the host's part are those of the labels; UfHost has its own range once it
        is not empty. */
    ghost predicate ShowsHost(labels: seq<Label>)
      reads this
    {
      && UfHost in fieldData && UfPort in fieldData && UfUserinfo in fieldData
      && fieldData[UfHost].len == Extent(labels, UfHost).len
      && (fieldData[UfHost].len > 0 ==> fieldData[UfHost] == Extent(labels, UfHost))
      && (forall f :: f == UfPort || f == UfUserinfo ==>
            (f in fieldSet <==> Extent(labels, f).len > 0) && (f in fieldSet ==> fieldData[f] == Extent(labels, f)))
    }

    /** All fields but those in the host's part are as they were, and so is whether there is a
        host. */
    ghost predicate KeepsOthers(data: map<Field, Span>, fields: set<Field>, port': nat)
      reads this
    {
      && port == port'
      && (forall f: Field :: f in fieldData)
      && (forall f :: f in data && f !in {UfHost, UfPort, UfUserinfo} ==> fieldData[f] == data[f] && (f in fieldSet <==> f in fields))
      && (UfHost in fieldSet <==> UfHost in fields)
    }

    /** One more character, in field uf; `begun` is whether the state before was in uf already. */
    method MarkHost(uf: Field, begun: bool, p: nat, ghost labels: seq<Label>,
                    ghost data: map<Field, Span>, ghost fields: set<Field>, ghost port': nat)
      requires KeepsOthers(data, fields, port')
      requires uf in {UfHost, UfPort, UfUserinfo} && ShowsHost(labels) && |labels| == p
      requires begun <==> Extent(labels, uf).len > 0
      modifies this
      ensures ShowsHost(labels + [In(uf)]) && KeepsOthers(data, fields, port')
    {
      if !begun {
        if uf == UfHost {
          fieldData := fieldData[uf := Span(p, fieldData[uf].len)];
        } else {
          fieldData := fieldData[uf := Span(p, 0)];
          fieldSet := fieldSet + {uf};
        }
      }
      fieldData := fieldData[uf := Span(fieldData[uf].off, fieldData[uf].len + 1)];
      assert (labels + [In(uf)])[..p] == labels;
    }

    /** Where the loop of http_parse_host is. */
    ghost predicate HostAlong(labels: seq<Label>, s: HostState, data: map<Field, Span>, fields: set<Field>, port': nat)
      reads this
    {
      ShowsHost(labels) && Begun(labels, s) && KeepsOthers(data, fields, port')
    }

    /** One turn of it. */
    method HostNext(s: HostState, ch: char, p: nat, ghost labels: seq<Label>,
                    ghost data: map<Field, Span>, ghost fields: set<Field>, ghost port': nat) returns (next: HostState)
      requires HostAlong(labels, s, data, fields, port') && |labels| == p
      modifies this
      ensures next == HostChar(s, ch) && KeepsOthers(data, fields, port')
      ensures next != HostDead ==> HostAlong(labels + [HostLabel(next)], next, data, fields, port')
    {
      next := HostChar(s, ch);
      if next == HostDead {
        return;
      }
      HostLabelGoesOn(labels, s, ch);
      match HostLabel(next) {
        case NoField =>
        case In(uf) =>
          MarkHost(uf, s == next, p, labels, data, fields, port');
      }
    }

    /** http_parse_host; false where it returns 1. */
    method ParseHost(buf: string, foundAt: bool) returns (ok: bool)
      requires forall f: Field :: f in fieldData
      requires fieldData[UfHost].len > 0 ==> fieldData[UfHost].off + fieldData[UfHost].len <= |buf|
      requires UfPort !in fieldSet && UfUserinfo !in fieldSet
      modifies this
      ensures KeepsOthers(old(fieldData), old(fieldSet), old(port))
      ensures old(fieldData[UfHost]).len == 0 ==> !ok
      ensures old(fieldData[UfHost]).len > 0 ==>
              var raw, start := old(fieldData[UfHost]), HostStartState(foundAt);
              && (ok <==> EndsWell(HostAfter(buf, raw.off, raw.off + raw.len, start)))
              && (ok ==> ShowsHost(HostLabels(buf, raw.off, raw.off + raw.len, start)))
              && (ok ==> Extent(HostLabels(buf, raw.off, raw.off + raw.len, start), UfHost).len > 0)
    {
      var lo, hi := fieldData[UfHost].off, fieldData[UfHost].off + fieldData[UfHost].len;
      fieldData := fieldData[UfHost := Span(lo, 0)];
      var s := HostStartState(foundAt);
      if lo < hi {
        NothingYet(Unlabelled(lo));
        s := HostLoop(buf, lo, hi, s, old(fieldData), fieldSet, port);
      }
      return EndsWell(s);
    }

    method HostLoop(buf: string, lo: nat, hi: nat, start: HostState,
                    ghost data: map<Field, Span>, ghost fields: set<Field>, ghost port': nat) returns (s: HostState)
      requires lo <= hi <= |buf| && HostAlong(Unlabelled(lo), start, data, fields, port')
      modifies this
      ensures s == HostAfter(buf, lo, hi, start) && KeepsOthers(data, fields, port')
      ensures s != HostDead ==> HostAlong(HostLabels(buf, lo, hi, start), s, data, fields, port')
    {
      s := start;
      var p := lo;
      while p < hi
        invariant lo <= p <= hi && s == HostAfter(buf, lo, p, start)
        invariant HostAlong(HostLabels(buf, lo, p, start), s, data, fields, port')
      {
        s := HostAt(buf, lo, p, start, s, data, fields, port');
        p := p + 1;
        if s == HostDead {
          HostDeadStays(buf, lo, p, hi, start);
          return;
        }
      }
    }

    /** One round of the loop. */
    method HostAt(buf: string, ghost lo: nat, p: nat, ghost start: HostState, before: HostState,
                  ghost data: map<Field, Span>, ghost fields: set<Field>, ghost port': nat) returns (s: HostState)
      requires lo <= p < |buf| && before == HostAfter(buf, lo, p, start)
      requires HostAlong(HostLabels(buf, lo, p, start), before, data, fields, port')
      modifies this
      ensures s == HostAfter(buf, lo, p + 1, start) && KeepsOthers(data, fields, port')
      ensures s != HostDead ==> HostAlong(HostLabels(buf, lo, p + 1, start), s, data, fields, port')
    {
      s := HostNext(before, buf[p], p, HostLabels(buf, lo, p, start), data, fields, port');
    }

    /** The ranges and set of fields of a URL. */
    ghost predicate IsSplit(buf: string, isConnect: bool)
      reads this
    {
      forall f: Field ::
        && f in fieldData && (f in fieldSet <==> FieldSpan(buf, isConnect, f).len > 0)
        && (f in fieldSet ==> fieldData[f] == FieldSpan(buf, isConnect, f))
    }

    method SplitUrl(buf: string, isConnect: bool) returns (ok: bool)
      requires fieldSet == {} && (forall f: Field :: f in fieldData) && fieldData[UfHost].len == 0
      modifies this
      ensures ok <==> UrlAfter(buf, |buf|, StartState(isConnect)) != Dead
                      && (HasAuthority(buf, isConnect) ==> EndsWell(HostStateAtEnd(buf, isConnect)))
      ensures ok ==> IsSplit(buf, isConnect)
      ensures port == old(port)
    {
      var foundAt;
      ok, foundAt := SplitFields(buf, isConnect);
      if !ok {
        return;
      }
      if UfSchema in fieldSet || UfHost in fieldSet {
        ok := SplitHost(buf, isConnect, foundAt);
      }
    }

    method SplitHost(buf: string, isConnect: bool, foundAt: bool) returns (ok: bool)
      requires Shows(AllUrlLabels(buf, isConnect)) && foundAt == PassesAt(buf, |buf|, StartState(isConnect))
      requires HasAuthority(buf, isConnect)
      modifies this
      ensures ok <==> EndsWell(HostStateAtEnd(buf, isConnect))
      ensures ok ==> IsSplit(buf, isConnect)
      ensures port == old(port)
    {
      ghost var data, fields := fieldData, fieldSet;
      NoInnerFields(buf, isConnect);
      ok := DivideHost(buf, foundAt, AllUrlLabels(buf, isConnect), Authority(buf, isConnect),
                       AllHostLabels(buf, isConnect), HostStateAtEnd(buf, isConnect));
      if ok {
        Joined(buf, isConnect, data, fields, port);
      }
    }

    /** The same, about the labels of the outer machine, and the labels and last state of the inner one. */
    method DivideHost(buf: string, foundAt: bool, ghost outer: seq<Label>,
                      ghost raw: Span, ghost inner: seq<Label>, ghost end: HostState) returns (ok: bool)
      requires Shows(outer) && raw == Extent(outer, UfHost) && raw.off + raw.len <= |buf|
      requires Extent(outer, UfPort).len == Extent(outer, UfUserinfo).len == 0
      requires end == HostAfter(buf, raw.off, raw.off + raw.len, HostStartState(foundAt))
      requires inner == HostLabels(buf, raw.off, raw.off + raw.len, HostStartState(foundAt))
      modifies this
      ensures KeepsOthers(old(fieldData), old(fieldSet), old(port))
      ensures ok <==> EndsWell(end)
      ensures ok ==> raw.len > 0 && ShowsHost(inner) && Extent(inner, UfHost).len > 0
    {
      ShownRanges(outer);
      EmptyRun(buf, raw.off, HostStartState(foundAt));
      ok := ParseHost(buf, foundAt);
    }

    lemma ShownRanges(labels: seq<Label>)
      requires Shows(labels)
      ensures SameRange(fieldData[UfHost], Extent(labels, UfHost))
      ensures UfPort in fieldSet <==> Extent(labels, UfPort).len > 0
      ensures UfUserinfo in fieldSet <==> Extent(labels, UfUserinfo).len > 0
    {
    }

    /** The inner fields in place of the outer one that they divide. */
    lemma Joined(buf: string, isConnect: bool, data: map<Field, Span>, fields: set<Field>, port': nat)
      requires forall f: Field :: f in data && (f in fields <==> Extent(AllUrlLabels(buf, isConnect), f).len > 0)
      requires forall f :: f in fields ==> data[f] == Extent(AllUrlLabels(buf, isConnect), f)
      requires KeepsOthers(data, fields, port') && ShowsHost(AllHostLabels(buf, isConnect))
      requires Authority(buf, isConnect).len > 0 && Extent(AllHostLabels(buf, isConnect), UfHost).len > 0
      ensures IsSplit(buf, isConnect)
    {
    }

    /** http_parser_parse_url; true where it returns 0.  `after` is the memory behind the buffer,
        which strtoul reads if the digits of a port go on there.  The structure may have been used
        before, but a range of the host left in it would be taken for that of a URL without one. */
    method ParseUrl(buf: string, after: string, isConnect: bool) returns (ok: bool)
      requires (forall f: Field :: f in fieldData) && fieldData[UfHost].len == 0
      modifies this
      ensures ok <==> Accepts(buf, after, isConnect)
      ensures ok ==> IsSplit(buf, isConnect)
      ensures ok ==> port == if UfPort in fieldSet then PortRead(buf, after, isConnect) else 0
    {
      port, fieldSet := 0, {};
      ok := SplitUrl(buf, isConnect);
      if !ok {
        return;
      }
      if isConnect && fieldSet != {UfHost, UfPort} {
        return false;
      }
      if UfPort in fieldSet {
        ok := ReadPort(buf, after, isConnect);
      }
    }

    method ReadPort(buf: string, after: string, isConnect: bool) returns (ok: bool)
      requires IsSplit(buf, isConnect) && UfPort in fieldSet
      modifies this`port
      ensures ok <==> PortRead(buf, after, isConnect) <= 0xffff
      ensures ok ==> port == PortRead(buf, after, isConnect)
    {
      PortInBounds(buf, isConnect);
      var v := Strtoul((buf + after)[fieldData[UfPort].off..]);
      if v > 0xffff {
        return false;
      }
      port := v;
      return true;
    }
  }

  // ------------------------------------------------------------------------- what it accepts

  function Strtoul(s: string): nat {
    Decimal(s[..LeadingDigits(s)])
  }

  function AllUrlLabels(buf: string, isConnect: bool): seq<Label> {
    UrlLabels(buf, |buf|, StartState(isConnect))
  }

  /** The part between the schema and the path, with userinfo and port. */
  function Authority(buf: string, isConnect: bool): (raw: Span)
    ensures raw.off + raw.len <= |buf|
  {
    UrlIsOrdered(buf, |buf|, StartState(isConnect));
    ExtentCovers(AllUrlLabels(buf, isConnect), UfHost);
    Extent(AllUrlLabels(buf, isConnect), UfHost)
  }

  predicate HasAuthority(buf: string, isConnect: bool) {
    Authority(buf, isConnect).len > 0 || Extent(AllUrlLabels(buf, isConnect), UfSchema).len > 0
  }

  function HostStateAtEnd(buf: string, isConnect: bool): HostState {
    var raw := Authority(buf, isConnect);
    HostAfter(buf, raw.off, raw.off + raw.len, HostStartState(PassesAt(buf, |buf|, StartState(isConnect))))
  }

  function AllHostLabels(buf: string, isConnect: bool): seq<Label> {
    var raw := Authority(buf, isConnect);
    HostLabels(buf, raw.off, raw.off + raw.len, HostStartState(PassesAt(buf, |buf|, StartState(isConnect))))
  }

  /** Where a field is: by the outer machine, or by the inner one in the authority. */
  function FieldSpan(buf: string, isConnect: bool, f: Field): Span {
    if HasAuthority(buf, isConnect) && f in {UfHost, UfPort, UfUserinfo} then Extent(AllHostLabels(buf, isConnect), f)
    else Extent(AllUrlLabels(buf, isConnect), f)
  }

  function PortRead(buf: string, after: string, isConnect: bool): nat {
    var e := FieldSpan(buf, isConnect, UfPort);
    if e.off <= |buf| then Strtoul((buf + after)[e.off..]) else 0
  }

  lemma {:induction false} NoSuchField(labels: seq<Label>, f: Field)
    requires In(f) !in labels
    ensures Extent(labels, f) == Span(0, 0)
  {
    if labels != [] {
      NoSuchField(labels[..|labels| - 1], f);
    }
  }

  predicate SameRange(a: Span, b: Span) {
    a.len == b.len && (a.len > 0 ==> a == b)
  }

  lemma EmptyRun(buf: string, lo: nat, start: HostState)
    requires lo <= |buf| && !EndsWell(start)
    ensures !EndsWell(HostAfter(buf, lo, lo, start))
  {
  }

  lemma NoInnerFields(buf: string, isConnect: bool)
    ensures Extent(AllUrlLabels(buf, isConnect), UfPort) == Extent(AllUrlLabels(buf, isConnect), UfUserinfo) == Span(0, 0)
  {
    UrlIsRanked(buf, |buf|, StartState(isConnect));
    NoSuchField(AllUrlLabels(buf, isConnect), UfPort);
    NoSuchField(AllUrlLabels(buf, isConnect), UfUserinfo);
  }

  lemma PortInBounds(buf: string, isConnect: bool)
    ensures var e := FieldSpan(buf, isConnect, UfPort); e.off + e.len <= |buf|
  {
    var raw := Authority(buf, isConnect);
    var start := HostStartState(PassesAt(buf, |buf|, StartState(isConnect)));
    NoInnerFields(buf, isConnect);
    HostIsOrdered(buf, raw.off, raw.off + raw.len, start);
    ExtentCovers(AllHostLabels(buf, isConnect), UfPort);
  }

  ghost predicate Accepts(buf: string, after: string, isConnect: bool) {
    && UrlAfter(buf, |buf|, StartState(isConnect)) != Dead
    && (HasAuthority(buf, isConnect) ==> EndsWell(HostStateAtEnd(buf, isConnect)))
    && (isConnect ==> forall f: Field :: FieldSpan(buf, isConnect, f).len > 0 <==> f == UfHost || f == UfPort)
    && (FieldSpan(buf, isConnect, UfPort).len > 0 ==> PortRead(buf, after, isConnect) <= 0xffff)
  }

  function HostStartState(foundAt: bool): HostState {
    if foundAt then UserinfoStart else HostStart
  }

  /** The states in which a host may end. */
  predicate EndsWell(s: HostState) {
    s == Host || s == HostV6End || s == Port
  }

  lemma {:induction false} NothingYet(labels: seq<Label>)
    requires forall i :: 0 <= i < |labels| ==> labels[i] == NoField
    ensures forall f :: Extent(labels, f) == Span(0, 0)
  {
    if labels != [] {
      NothingYet(labels[..|labels| - 1]);
    }
  }

  /** A field has characters only once the machine has come to it, and the host has some once the
      machine is past it. */
  ghost predicate Begun(labels: seq<Label>, s: HostState) {
    && (forall f :: Extent(labels, f).len > 0 ==> HostFieldRank(f) <= HostRank(s))
    && (forall f :: HostLabel(s) == In(f) ==> Extent(labels, f).len > 0)
    && (EndsWell(s) || s == PortStart ==> Extent(labels, UfHost).len > 0)
  }

  lemma HostLabelGoesOn(labels: seq<Label>, s: HostState, ch: char)
    requires Begun(labels, s) && HostChar(s, ch) != HostDead
    ensures var next := HostChar(s, ch);
            && Begun(labels + [HostLabel(next)], next)
            && (HostLabel(next) != NoField ==> (s == next <==> Extent(labels, HostLabel(next).field).len > 0))
            && (HostLabel(next) == NoField ==> forall f :: Extent(labels + [NoField], f) == Extent(labels, f))
  {
    var next := HostChar(s, ch);
    HostRankGrows(s, ch);
    assert (labels + [HostLabel(next)])[..|labels|] == labels;
    assert HostFieldRank(UfUserinfo) == 1 && HostFieldRank(UfHost) == 4 && HostFieldRank(UfPort) == 7;
  }

  /** A new character is in the last field or in none before. */
  lemma LabelGoesOn(labels: seq<Label>, next: Label, oldUf: Label, before: nat, rank: nat)
    requires IsLast(labels, oldUf) && before <= rank && (oldUf != NoField ==> FieldRank(oldUf.field) <= before)
    requires next != NoField ==> FieldRank(next.field) == rank
    requires next != In(UfUserinfo) && next != In(UfPort)
    ensures next != NoField && oldUf != next ==> Extent(labels, next.field).len == 0
    ensures IsLast(labels + [next], if next == NoField then oldUf else next)
    ensures next == NoField ==> forall f :: Extent(labels + [next], f) == Extent(labels, f)
  {
    assert (labels + [next])[..|labels|] == labels;
  }

  // ---------------------------------------------------------------------- laws of the split

  function End(e: Span): nat { e.off + e.len }

  lemma SpansInOrder(labels: seq<Label>, f: Field, g: Field)
    requires Ordered(labels) && Order(f) < Order(g)
    requires Extent(labels, f).len > 0 && Extent(labels, g).len > 0
    ensures End(Extent(labels, f)) <= Extent(labels, g).off
  {
    ExtentCovers(labels, f);
    ExtentCovers(labels, g);
    var a, b := End(Extent(labels, f)) - 1, Extent(labels, g).off;
    assert labels[a] == In(f) && labels[b] == In(g);
  }

  /** Fields of the authority lie in it. */
  lemma InnerInside(buf: string, isConnect: bool, f: Field)
    ensures var raw, e := Authority(buf, isConnect), Extent(AllHostLabels(buf, isConnect), f);
            Ordered(AllHostLabels(buf, isConnect)) && (e.len > 0 ==> raw.off <= e.off && End(e) <= End(raw))
  {
    var raw, labels := Authority(buf, isConnect), AllHostLabels(buf, isConnect);
    var start := HostStartState(PassesAt(buf, |buf|, StartState(isConnect)));
    HostIsOrdered(buf, raw.off, End(raw), start);
    ExtentCovers(labels, f);
    NoneBefore(buf, raw.off, End(raw), start);
    var e := Extent(labels, f);
    assert e.len > 0 ==> labels[e.off] == In(f);
  }

  lemma {:induction false} NoneBefore(buf: string, lo: nat, p: nat, s: HostState)
    requires lo <= p <= |buf|
    ensures forall i :: 0 <= i < lo ==> HostLabels(buf, lo, p, s)[i] == NoField
    decreases p
  {
    if p != lo {
      NoneBefore(buf, lo, p - 1, s);
    }
  }

  predicate IsInner(f: Field) {
    f == UfHost || f == UfPort || f == UfUserinfo
  }

  lemma OuterField(buf: string, isConnect: bool, f: Field)
    ensures Ordered(AllUrlLabels(buf, isConnect))
    ensures End(Extent(AllUrlLabels(buf, isConnect), f)) <= |buf|
  {
    UrlIsOrdered(buf, |buf|, StartState(isConnect));
    ExtentCovers(AllUrlLabels(buf, isConnect), f);
  }

  /** The fields of every string are in bounds, apart, and in the order of a URL. */
  lemma FieldsInOrder(buf: string, isConnect: bool, f: Field, g: Field)
    requires FieldSpan(buf, isConnect, f).len > 0 && FieldSpan(buf, isConnect, g).len > 0
    ensures End(FieldSpan(buf, isConnect, f)) <= |buf|
    ensures Order(f) < Order(g) ==> End(FieldSpan(buf, isConnect, f)) <= FieldSpan(buf, isConnect, g).off
  {
    var outer := AllUrlLabels(buf, isConnect);
    OuterField(buf, isConnect, f);
    NoInnerFields(buf, isConnect);
    if HasAuthority(buf, isConnect) && IsInner(f) {
      InnerInside(buf, isConnect, f);
    }
    if Order(f) < Order(g) {
      OrderedPair(buf, isConnect, f, g);
    }
  }

  lemma OrderedPair(buf: string, isConnect: bool, f: Field, g: Field)
    requires FieldSpan(buf, isConnect, f).len > 0 && FieldSpan(buf, isConnect, g).len > 0 && Order(f) < Order(g)
    ensures End(FieldSpan(buf, isConnect, f)) <= FieldSpan(buf, isConnect, g).off
  {
    var inner := HasAuthority(buf, isConnect);
    if inner && IsInner(f) && IsInner(g) {
      BothInner(buf, isConnect, f, g);
    } else if inner && IsInner(f) {
      InnerThenOuter(buf, isConnect, f, g);
    } else if inner && IsInner(g) {
      OuterThenInner(buf, isConnect, f, g);
    } else {
      BothOuter(buf, isConnect, f, g);
    }
  }

  lemma BothInner(buf: string, isConnect: bool, f: Field, g: Field)
    requires Extent(AllHostLabels(buf, isConnect), f).len > 0 && Extent(AllHostLabels(buf, isConnect), g).len > 0
    requires Order(f) < Order(g)
    ensures End(Extent(AllHostLabels(buf, isConnect), f)) <= Extent(AllHostLabels(buf, isConnect), g).off
  {
    InnerInside(buf, isConnect, f);
    SpansInOrder(AllHostLabels(buf, isConnect), f, g);
  }

  lemma BothOuter(buf: string, isConnect: bool, f: Field, g: Field)
    requires Extent(AllUrlLabels(buf, isConnect), f).len > 0 && Extent(AllUrlLabels(buf, isConnect), g).len > 0
    requires Order(f) < Order(g)
    ensures End(Extent(AllUrlLabels(buf, isConnect), f)) <= Extent(AllUrlLabels(buf, isConnect), g).off
  {
    OuterField(buf, isConnect, f);
    SpansInOrder(AllUrlLabels(buf, isConnect), f, g);
  }

  lemma InnerThenOuter(buf: string, isConnect: bool, f: Field, g: Field)
    requires Extent(AllHostLabels(buf, isConnect), f).len > 0 && Extent(AllUrlLabels(buf, isConnect), g).len > 0
    requires IsInner(f) && !IsInner(g) && Order(f) < Order(g)
    ensures End(Extent(AllHostLabels(buf, isConnect), f)) <= Extent(AllUrlLabels(buf, isConnect), g).off
  {
    InnerInside(buf, isConnect, f);
    OuterField(buf, isConnect, g);
    SpansInOrder(AllUrlLabels(buf, isConnect), UfHost, g);
  }

  lemma OuterThenInner(buf: string, isConnect: bool, f: Field, g: Field)
    requires Extent(AllUrlLabels(buf, isConnect), f).len > 0 && Extent(AllHostLabels(buf, isConnect), g).len > 0
    requires !IsInner(f) && IsInner(g) && Order(f) < Order(g)
    ensures End(Extent(AllUrlLabels(buf, isConnect), f)) <= Extent(AllHostLabels(buf, isConnect), g).off
  {
    InnerInside(buf, isConnect, g);
    OuterField(buf, isConnect, f);
    SpansInOrder(AllUrlLabels(buf, isConnect), f, UfHost);
  }

  lemma {:induction false} RunBegun(buf: string, lo: nat, p: nat, start: HostState)
    requires lo <= p <= |buf| && (start == HostStart || start == UserinfoStart)
    requires HostAfter(buf, lo, p, start) != HostDead
    ensures Begun(HostLabels(buf, lo, p, start), HostAfter(buf, lo, p, start))
    decreases p
  {
    if p == lo {
      NothingYet(Unlabelled(lo));
    } else {
      RunBegun(buf, lo, p - 1, start);
      HostLabelGoesOn(HostLabels(buf, lo, p - 1, start), HostAfter(buf, lo, p - 1, start), buf[p - 1]);
    }
  }

  /** A URL with a schema has a host. */
  lemma SchemaNeedsHost(buf: string, after: string, isConnect: bool)
    requires Accepts(buf, after, isConnect)
    requires FieldSpan(buf, isConnect, UfSchema).len > 0
    ensures FieldSpan(buf, isConnect, UfHost).len > 0
  {
    var raw := Authority(buf, isConnect);
    RunBegun(buf, raw.off, End(raw), HostStartState(PassesAt(buf, |buf|, StartState(isConnect))));
  }

  // ----------------------------------------------------------------------------- the port

  /** What a character is like, by the state after it. */
  lemma {:induction false} PortIsDigits(buf: string, lo: nat, p: nat, start: HostState)
    requires lo <= p <= |buf|
    ensures forall i :: lo <= i < p && HostLabels(buf, lo, p, start)[i] == In(UfPort) ==> IsNum(buf[i])
    decreases p
  {
    if p != lo {
      PortIsDigits(buf, lo, p - 1, start);
    }
  }

  lemma {:induction false} LastLabel(buf: string, lo: nat, p: nat, start: HostState)
    requires lo < p <= |buf|
    ensures HostLabels(buf, lo, p, start)[p - 1] == HostLabel(HostAfter(buf, lo, p, start))
  {
  }

  /** The port is digits up to the end of the authority. */
  lemma PortEndsAuthority(buf: string, isConnect: bool)
    requires HasAuthority(buf, isConnect) && EndsWell(HostStateAtEnd(buf, isConnect))
    requires FieldSpan(buf, isConnect, UfPort).len > 0
    ensures var e, raw := FieldSpan(buf, isConnect, UfPort), Authority(buf, isConnect);
            End(e) == End(raw) && raw.len > 0 && forall i :: e.off <= i < End(e) ==> IsNum(buf[i])
  {
    var raw := Authority(buf, isConnect);
    NoInnerFields(buf, isConnect);
    InnerInside(buf, isConnect, UfPort);
    PortCovered(buf, raw.off, End(raw), HostStartState(PassesAt(buf, |buf|, StartState(isConnect))));
  }

  lemma PortCovered(buf: string, lo: nat, hi: nat, start: HostState)
    requires lo <= hi <= |buf| && (start == HostStart || start == UserinfoStart)
    requires EndsWell(HostAfter(buf, lo, hi, start)) && Extent(HostLabels(buf, lo, hi, start), UfPort).len > 0
    ensures var e := Extent(HostLabels(buf, lo, hi, start), UfPort);
            End(e) == hi && lo < hi && forall i :: lo <= i && e.off <= i < hi ==> IsNum(buf[i])
  {
    var labels := HostLabels(buf, lo, hi, start);
    HostIsOrdered(buf, lo, hi, start);
    ExtentCovers(labels, UfPort);
    PortIsLast(buf, lo, hi, start);
    PortIsDigits(buf, lo, hi, start);
  }

  lemma PortIsLast(buf: string, lo: nat, hi: nat, start: HostState)
    requires lo <= hi <= |buf| && (start == HostStart || start == UserinfoStart)
    requires EndsWell(HostAfter(buf, lo, hi, start)) && Extent(HostLabels(buf, lo, hi, start), UfPort).len > 0
    ensures lo < hi && HostLabels(buf, lo, hi, start)[hi - 1] == In(UfPort)
  {
    RunBegun(buf, lo, hi, start);
    assert HostFieldRank(UfPort) == 7;
    assert HostAfter(buf, lo, hi, start) == Port;
    LastLabel(buf, lo, hi, start);
  }

  lemma {:induction false} UrlLabelAt(buf: string, p: nat, s: UrlState, i: nat)
    requires i < p <= |buf|
    ensures UrlLabels(buf, p, s)[i] == UrlLabel(UrlAfter(buf, i + 1, s))
  {
    if i < p - 1 {
      UrlLabelAt(buf, p - 1, s, i);
    }
  }

  /** What follows the authority is a path or a query. */
  lemma AfterAuthority(buf: string, isConnect: bool)
    requires UrlAfter(buf, |buf|, StartState(isConnect)) != Dead
    requires Authority(buf, isConnect).len > 0 && End(Authority(buf, isConnect)) < |buf|
    ensures IsPathOrQuerySign(buf[End(Authority(buf, isConnect))])
  {
    var start, raw := StartState(isConnect), Authority(buf, isConnect);
    OuterField(buf, isConnect, UfHost);
    ExtentCovers(UrlLabels(buf, |buf|, start), UfHost);
    AfterHostRange(buf, start, raw, UrlLabels(buf, |buf|, start));
  }

  lemma AfterHostRange(buf: string, start: UrlState, raw: Span, labels: seq<Label>)
    requires labels == UrlLabels(buf, |buf|, start) && UrlAfter(buf, |buf|, start) != Dead
    requires Covers(raw, labels, UfHost) && raw.len > 0 && End(raw) < |buf|
    ensures IsPathOrQuerySign(buf[End(raw)])
  {
    CoverEnds(raw, labels, UfHost);
    AfterHostPart(buf, start, End(raw));
  }

  lemma CoverEnds(e: Span, labels: seq<Label>, f: Field)
    requires Covers(e, labels, f) && e.len > 0
    ensures labels[End(e) - 1] == In(f)
    ensures End(e) < |labels| ==> labels[End(e)] != In(f)
  {
  }

  lemma AfterHostPart(buf: string, start: UrlState, end: nat)
    requires 0 < end < |buf| && UrlAfter(buf, |buf|, start) != Dead
    requires UrlLabels(buf, |buf|, start)[end - 1] == In(UfHost) != UrlLabels(buf, |buf|, start)[end]
    ensures IsPathOrQuerySign(buf[end])
  {
    var last: nat := end - 1;
    UrlLabelAt(buf, |buf|, start, last);
    UrlLabelAt(buf, |buf|, start, end);
    StepOutOfHost(buf, end, start);
  }

  lemma StepOutOfHost(buf: string, p: nat, start: UrlState)
    requires p < |buf| && UrlAfter(buf, |buf|, start) != Dead
    requires UrlLabel(UrlAfter(buf, p, start)) == In(UfHost) && UrlLabel(UrlAfter(buf, p + 1, start)) != In(UfHost)
    ensures IsPathOrQuerySign(buf[p])
  {
    var s, next := UrlAfter(buf, p, start), UrlAfter(buf, p + 1, start);
    if next == Dead {
      DeadStays(buf, p + 1, |buf|, start);
    }
    assert next == UrlChar(s, buf[p]);
  }

  function PortDigits(buf: string, isConnect: bool): string {
    var e := FieldSpan(buf, isConnect, UfPort);
    if End(e) <= |buf| then buf[e.off..End(e)] else ""
  }

  /** The decimal value of a port's range. */
  function PortValue(buf: string, isConnect: bool): nat {
    var digits := PortDigits(buf, isConnect);
    if forall i :: 0 <= i < |digits| ==> IsNum(digits[i]) then Decimal(digits) else 0
  }

  /** The port is the decimal value of its range, unless the range ends the buffer and digits
      follow in memory that are not, like its own, all zeros: then it is too large. */
  lemma PortIsItsRange(buf: string, after: string, isConnect: bool)
    requires Accepts(buf, after, isConnect) && FieldSpan(buf, isConnect, UfPort).len > 0
    ensures PortValue(buf, isConnect) <= PortRead(buf, after, isConnect) <= 0xffff
    ensures PortRead(buf, after, isConnect) == PortValue(buf, isConnect) <==>
            End(FieldSpan(buf, isConnect, UfPort)) < |buf| || LeadingDigits(after) == 0 ||
            (AllZeros(PortDigits(buf, isConnect)) && AllZeros(after[..LeadingDigits(after)]))
  {
    PortPlace(buf, isConnect);
    PortInMemory(buf, after, FieldSpan(buf, isConnect, UfPort));
  }

  /** The range of a port is in bounds, all digits, and followed by a path or a query if at all. */
  lemma PortPlace(buf: string, isConnect: bool)
    requires UrlAfter(buf, |buf|, StartState(isConnect)) != Dead
    requires HasAuthority(buf, isConnect) ==> EndsWell(HostStateAtEnd(buf, isConnect))
    requires FieldSpan(buf, isConnect, UfPort).len > 0
    ensures IsPortPlace(buf, FieldSpan(buf, isConnect, UfPort))
    ensures PortValue(buf, isConnect) == Decimal(PortDigits(buf, isConnect))
  {
    NoInnerFields(buf, isConnect);
    PortEndsAuthority(buf, isConnect);
    var end := End(Authority(buf, isConnect));
    if end < |buf| {
      AfterAuthority(buf, isConnect);
    }
    var e := FieldSpan(buf, isConnect, UfPort);
    assert forall i :: 0 <= i < e.len ==> IsNum(buf[e.off..End(e)][i]);
  }

  ghost predicate IsPortPlace(buf: string, e: Span) {
    && 0 < e.len && End(e) <= |buf| && (forall i :: e.off <= i < End(e) ==> IsNum(buf[i]))
    && (forall i :: 0 <= i < e.len ==> IsNum(buf[e.off..End(e)][i]))
    && (End(e) < |buf| ==> IsPathOrQuerySign(buf[End(e)]))
  }

  lemma PortInMemory(buf: string, after: string, e: Span)
    requires IsPortPlace(buf, e)
    ensures var digits, read := buf[e.off..End(e)], Strtoul((buf + after)[e.off..]);
            && Decimal(digits) <= read
            && (read == Decimal(digits) <==>
                  End(e) < |buf| || LeadingDigits(after) == 0 ||
                  (AllZeros(digits) && AllZeros(after[..LeadingDigits(after)])))
  {
    var digits, rest := buf[e.off..End(e)], buf[End(e)..] + after;
    assert (buf + after)[e.off..] == digits + rest;
    StrtoulReads(digits, rest);
    if End(e) < |buf| {
      assert rest[0] == buf[End(e)];
    } else {
      assert rest == after;
    }
  }

  lemma StrtoulReads(digits: string, rest: string)
    requires digits != "" && forall i :: 0 <= i < |digits| ==> IsNum(digits[i])
    ensures Decimal(digits) <= Strtoul(digits + rest)
    ensures Strtoul(digits + rest) == Decimal(digits) <==>
            LeadingDigits(rest) == 0 || (AllZeros(digits) && AllZeros(rest[..LeadingDigits(rest)]))
  {
    var more := rest[..LeadingDigits(rest)];
    StrtoulIsDecimal(digits, rest);
    DecimalGrows(digits, more);
    ZeroIsZeros(digits);
    ZeroIsZeros(digits + more);
    ZerosConcat(digits, more);
    if more == "" {
      assert digits + more == digits;
    }
  }

  lemma StrtoulIsDecimal(digits: string, rest: string)
    requires forall i :: 0 <= i < |digits| ==> IsNum(digits[i])
    ensures var more := rest[..LeadingDigits(rest)];
            && (forall i :: 0 <= i < |digits + more| ==> IsNum((digits + more)[i]))
            && Strtoul(digits + rest) == Decimal(digits + more)
  {
    DigitsOf(digits, rest);
    PrefixOfBoth(digits, rest, LeadingDigits(rest));
  }

  lemma PrefixOfBoth(s: string, t: string, k: nat)
    requires k <= |t|
    ensures (s + t)[..|s| + k] == s + t[..k]
  {
  }
}
