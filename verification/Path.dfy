/** CleanPath of base/io/path.cc: the in-place rewrite, and the component stack it computes. */
module Path {
  const NUL: char := '\0'

  // ------------------------------------------------------------- the normaliser

  /** The length of the part before the first '/'. */
  function PartLength(s: string): (k: nat)
    ensures k <= |s| && (k < |s| ==> s[k] == '/') && forall i :: 0 <= i < k ==> s[i] != '/'
  {
    if s == [] || s[0] == '/' then 0 else 1 + PartLength(s[1..])
  }

  /** The components of a path: what stands between the '/'s, empty or not. */
  function Split(s: string): seq<string> {
    var k := PartLength(s);
    if k == |s| then [s] else [s[..k]] + Split(s[k + 1..])
  }

  /** One component on the stack: "" and "." do nothing, ".." takes the last component
      away, or stays itself at the front of a relative path. */
  function Enter(absolute: bool, stack: seq<string>, part: string): seq<string> {
    if part == "" || part == "." then stack
    else if part != ".." then stack + [part]
    else if stack != [] && stack[|stack| - 1] != ".." then stack[..|stack| - 1]
    else if absolute then stack
    else stack + [".."]
  }

  function Fold(absolute: bool, stack: seq<string>, parts: seq<string>): seq<string>
    decreases parts
  {
    if parts == [] then stack else Fold(absolute, Enter(absolute, stack, parts[0]), parts[1..])
  }

  /** Every component with a '/' behind it. */
  function Closed(stack: seq<string>): string {
    if stack == [] then "" else Closed(stack[..|stack| - 1]) + stack[|stack| - 1] + "/"
  }

  /** The components with a '/' between them. */
  function Join(stack: seq<string>): string {
    if stack == [] then "" else Closed(stack[..|stack| - 1]) + stack[|stack| - 1]
  }

  function Root(absolute: bool): string { if absolute then "/" else "" }

  function Render(absolute: bool, stack: seq<string>): string {
    if !absolute && stack == [] then "." else Root(absolute) + Join(stack)
  }

  predicate IsAbsolute(s: string) { s != [] && s[0] == '/' }

  /** The reference: what CleanPath computes of a path without NULs. */
  function Clean(s: string): string {
    Render(IsAbsolute(s), Fold(IsAbsolute(s), [], Split(s)))
  }

  /** The path as a C string. */
  function UpToNul(s: string): (t: string)
    ensures |t| <= |s| && t == s[..|t|] && NUL !in t && (|t| < |s| ==> s[|t|] == NUL)
  {
    if s == [] || s[0] == NUL then "" else [s[0]] + UpToNul(s[1..])
  }

  // --------------------------------------------------------- laws of the normaliser

  /** A clean stack: no empty, "." or slashed component, ".." only at the front and only
      in a relative path. */
  predicate IsPart(p: string) { p != "" && p != "." && '/' !in p }

  predicate IsNormal(absolute: bool, stack: seq<string>) {
    && (forall i :: 0 <= i < |stack| ==> IsPart(stack[i]))
    && (forall i :: 0 <= i < |stack| && stack[i] == ".." ==> !absolute && forall j :: 0 <= j < i ==> stack[j] == "..")
  }

  lemma Append(a: string, b: string, c: char)
    ensures (a + b) + [c] == a + (b + [c])
  {
  }

  lemma EnterKeepsNormal(absolute: bool, stack: seq<string>, part: string)
    requires IsNormal(absolute, stack) && '/' !in part
    ensures IsNormal(absolute, Enter(absolute, stack, part))
  {
  }

  lemma {:induction false} SplitHasNoSlash(s: string)
    ensures forall i :: 0 <= i < |Split(s)| ==> '/' !in Split(s)[i]
    decreases |s|
  {
    var k := PartLength(s);
    if k < |s| {
      SplitHasNoSlash(s[k + 1..]);
    }
  }

  lemma {:induction false} FoldIsNormal(absolute: bool, stack: seq<string>, parts: seq<string>)
    requires IsNormal(absolute, stack) && forall i :: 0 <= i < |parts| ==> '/' !in parts[i]
    ensures IsNormal(absolute, Fold(absolute, stack, parts))
    decreases parts
  {
    if parts != [] {
      EnterKeepsNormal(absolute, stack, parts[0]);
      FoldIsNormal(absolute, Enter(absolute, stack, parts[0]), parts[1..]);
    }
  }

  /** A clean stack entered on a clean stack that goes before it is appended. */
  lemma {:induction false} FoldNormal(absolute: bool, stack: seq<string>, parts: seq<string>)
    requires IsNormal(absolute, stack + parts)
    ensures Fold(absolute, stack, parts) == stack + parts
    decreases parts
  {
    if parts == [] {
      assert stack + parts == stack;
    } else {
      assert (stack + parts)[|stack|] == parts[0];
      assert stack != [] ==> (stack + parts)[|stack| - 1] == stack[|stack| - 1];
      assert stack + parts == (stack + [parts[0]]) + parts[1..];
      FoldNormal(absolute, stack + [parts[0]], parts[1..]);
    }
  }

  lemma {:induction false} PartLengthIs(s: string, k: nat)
    requires k <= |s| && (k < |s| ==> s[k] == '/') && forall i :: 0 <= i < k ==> s[i] != '/'
    ensures PartLength(s) == k
  {
    if k != 0 {
      PartLengthIs(s[1..], k - 1);
    }
  }

  lemma SplitFirst(part: string, rest: string)
    requires '/' !in part
    ensures Split(part + "/" + rest) == [part] + Split(rest)
    ensures Split(part) == [part]
  {
    var s := part + "/" + rest;
    PartLengthIs(s, |part|);
    PartLengthIs(part, |part|);
    assert s[..|part|] == part && s[|part| + 1..] == rest;
  }

  lemma {:induction false} ClosedConcat(a: seq<string>, b: seq<string>)
    ensures Closed(a + b) == Closed(a) + Closed(b)
  {
    if b == [] {
      assert a + b == a;
    } else {
      assert (a + b)[..|a + b| - 1] == a + b[..|b| - 1];
      ClosedConcat(a, b[..|b| - 1]);
    }
  }

  lemma ClosedThen(stack: seq<string>, rest: string)
    requires stack != []
    ensures Closed(stack) + rest == Closed(stack[..|stack| - 1]) + (stack[|stack| - 1] + "/" + rest)
  {
    ThreeThen(Closed(stack[..|stack| - 1]), stack[|stack| - 1], "/", rest);
  }

  lemma ThreeThen(a: string, b: string, c: string, rest: string)
    ensures a + b + c + rest == a + (b + c + rest) && a + b + c == a + (b + c)
  {
  }

  lemma LastThen(stack: seq<string>, more: seq<string>)
    requires stack != []
    ensures stack[..|stack| - 1] + ([stack[|stack| - 1]] + more) == stack + more
  {
  }

  lemma {:induction false} SplitClosed(stack: seq<string>, rest: string)
    requires forall i :: 0 <= i < |stack| ==> '/' !in stack[i]
    ensures Split(Closed(stack) + rest) == stack + Split(rest)
  {
    if stack == [] {
      assert Closed(stack) + rest == rest && stack + Split(rest) == Split(rest);
    } else {
      var (front, last) := (stack[..|stack| - 1], stack[|stack| - 1]);
      var tail := last + "/" + rest;
      ClosedThen(stack, rest);
      SplitClosed(front, tail);
      SplitTail(stack, last, tail, rest);
    }
  }

  lemma SplitTail(stack: seq<string>, last: string, tail: string, rest: string)
    requires stack != [] && last == stack[|stack| - 1] && '/' !in last && tail == last + "/" + rest
    ensures stack[..|stack| - 1] + Split(tail) == stack + Split(rest)
  {
    SplitFirst(last, rest);
    LastThen(stack, Split(rest));
  }

  /** Splitting undoes joining. */
  lemma SplitJoin(stack: seq<string>)
    requires stack != [] && forall i :: 0 <= i < |stack| ==> '/' !in stack[i]
    ensures Split(Join(stack)) == stack
  {
    var n := |stack| - 1;
    SplitClosed(stack[..n], stack[n]);
    SplitFirst(stack[n], "");
    assert stack[..n] + [stack[n]] == stack;
  }

  lemma JoinIsRelative(stack: seq<string>)
    requires stack != [] && IsPart(stack[0])
    ensures Join(stack) != "" && Join(stack)[0] != '/'
  {
    if |stack| == 1 {
      assert stack[..0] == [];
    } else {
      var n := |stack| - 1;
      assert stack[..n] == [stack[0]] + stack[1..n];
      ClosedConcat([stack[0]], stack[1..n]);
      assert Closed([stack[0]]) == Closed([]) + stack[0] + "/";
    }
  }

  lemma {:induction false} EnterEmpty(absolute: bool, stack: seq<string>, s: string)
    requires s != "" && s[0] == '/'
    ensures Fold(absolute, stack, Split(s)) == Fold(absolute, stack, Split(s[1..]))
  {
    assert s[..0] == "";
    assert ([""] + Split(s[1..]))[1..] == Split(s[1..]);
  }

  lemma EmptyStackIsFixed(absolute: bool)
    ensures Clean(Render(absolute, [])) == Render(absolute, [])
  {
    if absolute {
      EnterEmpty(true, [], "/");
      SplitFirst("", "");
    } else {
      SplitFirst(".", "");
    }
  }

  lemma RelativeIsFixed(stack: seq<string>)
    requires IsNormal(false, stack) && stack != []
    ensures Clean(Join(stack)) == Join(stack)
  {
    JoinIsRelative(stack);
    SplitJoin(stack);
    FoldNormal(false, [], stack);
    assert [] + stack == stack;
  }

  lemma AbsoluteIsFixed(stack: seq<string>)
    requires IsNormal(true, stack) && stack != []
    ensures Clean("/" + Join(stack)) == "/" + Join(stack)
  {
    var c := "/" + Join(stack);
    SplitJoin(stack);
    FoldNormal(true, [], stack);
    assert [] + stack == stack;
    assert c[1..] == Join(stack);
    EnterEmpty(true, [], c);
  }

  /** Cleaning twice is cleaning once. */
  lemma CleanIsIdempotent(s: string)
    ensures Clean(Clean(s)) == Clean(s)
  {
    var absolute := IsAbsolute(s);
    var stack := Fold(absolute, [], Split(s));
    SplitHasNoSlash(s);
    FoldIsNormal(absolute, [], Split(s));
    if stack == [] {
      EmptyStackIsFixed(absolute);
    } else if absolute {
      AbsoluteIsFixed(stack);
    } else {
      RelativeIsFixed(stack);
      assert Root(false) + Join(stack) == Join(stack);
    }
  }

  /** From a directory to another, or to the one above it; that above the root is the root. */
  function Go(dir: seq<string>, part: string): seq<string> {
    if part == ".." then (if dir == [] then [] else dir[..|dir| - 1])
    else if part == "" || part == "." then dir
    else dir + [part]
  }

  function Walk(dir: seq<string>, parts: seq<string>): seq<string>
    decreases parts
  {
    if parts == [] then dir else Walk(Go(dir, parts[0]), parts[1..])
  }

  /** The directory a path leads to from a directory, reading ".." lexically. */
  function Resolve(cwd: seq<string>, s: string): seq<string> {
    Walk(if IsAbsolute(s) then [] else cwd, Split(s))
  }

  lemma {:induction false} WalkSnoc(dir: seq<string>, parts: seq<string>, p: string)
    ensures Walk(dir, parts + [p]) == Go(Walk(dir, parts), p)
    decreases parts
  {
    if parts == [] {
      assert [] + [p] == [p] && [p][1..] == [];
    } else {
      assert (parts + [p])[1..] == parts[1..] + [p];
      WalkSnoc(Go(dir, parts[0]), parts[1..], p);
    }
  }

  /** Entering a component on a relative stack, then going there, is going there first. */
  lemma EnterResolves(cwd: seq<string>, stack: seq<string>, p: string)
    requires IsNormal(false, stack)
    ensures Walk(cwd, Enter(false, stack, p)) == Go(Walk(cwd, stack), p)
  {
    if p == ".." && stack != [] && stack[|stack| - 1] != ".." {
      var (front, last) := (stack[..|stack| - 1], stack[|stack| - 1]);
      assert stack == front + [last];
      WalkSnoc(cwd, front, last);
    } else {
      WalkSnoc(cwd, stack, p);
    }
  }

  lemma {:induction false} FoldResolves(cwd: seq<string>, stack: seq<string>, parts: seq<string>)
    requires IsNormal(false, stack) && forall i :: 0 <= i < |parts| ==> '/' !in parts[i]
    ensures Walk(cwd, Fold(false, stack, parts)) == Walk(Walk(cwd, stack), parts)
    decreases parts
  {
    if parts != [] {
      EnterResolves(cwd, stack, parts[0]);
      EnterKeepsNormal(false, stack, parts[0]);
      FoldResolves(cwd, Enter(false, stack, parts[0]), parts[1..]);
    }
  }

  /** On the way from the root the stack is the directory. */
  lemma {:induction false} FoldIsWalk(stack: seq<string>, parts: seq<string>)
    requires IsNormal(true, stack) && forall i :: 0 <= i < |parts| ==> '/' !in parts[i]
    ensures Fold(true, stack, parts) == Walk(stack, parts)
    decreases parts
  {
    if parts != [] {
      EnterKeepsNormal(true, stack, parts[0]);
      FoldIsWalk(Enter(true, stack, parts[0]), parts[1..]);
    }
  }

  lemma RelativeResolves(cwd: seq<string>, stack: seq<string>)
    requires IsNormal(false, stack)
    ensures Resolve(cwd, Render(false, stack)) == Walk(cwd, stack)
  {
    if stack == [] {
      SplitFirst(".", "");
      assert ["."][1..] == [];
    } else {
      JoinIsRelative(stack);
      SplitJoin(stack);
      assert Render(false, stack) == Join(stack);
    }
  }

  /** The clean path leads where the path leads, from every directory. */
  lemma CleanKeepsMeaning(cwd: seq<string>, s: string)
    ensures Resolve(cwd, Clean(s)) == Resolve(cwd, s)
  {
    SplitHasNoSlash(s);
    if IsAbsolute(s) {
      AbsoluteResolves(s);
      SplitHasNoSlash(Clean(s));
      FoldIsWalk([], Split(s));
      FoldIsWalk([], Split(Clean(s)));
    } else {
      FoldIsNormal(false, [], Split(s));
      RelativeResolves(cwd, Fold(false, [], Split(s)));
      FoldResolves(cwd, [], Split(s));
    }
  }

  lemma AbsoluteResolves(s: string)
    requires IsAbsolute(s)
    ensures IsAbsolute(Clean(s)) && Fold(true, [], Split(Clean(s))) == Fold(true, [], Split(s))
  {
    var stack := Fold(true, [], Split(s));
    SplitHasNoSlash(s);
    FoldIsNormal(true, [], Split(s));
    var c := Clean(s);
    EnterEmpty(true, [], c);
    if stack == [] {
      SplitFirst("", "");
    } else {
      assert c[1..] == Join(stack);
      SplitJoin(stack);
      FoldNormal(true, [], stack);
      assert [] + stack == stack;
    }
  }

  // ------------------------------------------------------------------- the rewrite

  /** What is unread of the text, in the buffer with its terminator. */
  ghost predicate Rest(path: seq<char>, text: string, src: nat) {
    && src <= |text| < |path| && NUL !in text && path[|text|] == NUL
    && forall k :: src <= k < |text| ==> path[k] == text[k]
  }

  /** What is written: clean components, closed unless the last one ended the text. */
  function Written(absolute: bool, stack: seq<string>, closed: bool): string {
    Root(absolute) + if closed then Closed(stack) else Join(stack)
  }

  /** What is left to enter gives what the whole text gives. */
  ghost predicate Folded(text: string, absolute: bool, stack: seq<string>, src: nat) {
    && src <= |text| && IsNormal(absolute, stack)
    && Fold(absolute, stack, Split(text[src..])) == Fold(absolute, [], Split(text))
  }

  /** The buffer between two rounds of the rewrite. */
  ghost predicate Between(path: seq<char>, text: string, absolute: bool, stack: seq<string>, closed: bool,
                          dst: nat, src: nat, limit: nat)
  {
    && dst <= src && Rest(path, text, src)
    && (!closed ==> stack != [] && src == |text|)
    && forall u {:trigger Look(u)} :: Look(u) ==>
         && Folded(text, absolute, stack, src)
         && path[..dst] == Written(absolute, stack, closed)
         && (closed ==> limit == Limit(absolute, stack))
  }

  // Look is true; a proof says Look(0) where it needs what is under it.
  predicate Look(u: int) { true }

  /** The leading ".." components, which cannot be taken away. */
  function Fixed(stack: seq<string>): (k: nat)
    ensures k <= |stack| && (forall i :: 0 <= i < k ==> stack[i] == "..") && (k < |stack| ==> stack[k] != "..")
  {
    if stack == [] || stack[0] != ".." then 0 else 1 + Fixed(stack[1..])
  }

  /** backtrack_limit: just behind the root and the leading ".." components. */
  function Limit(absolute: bool, stack: seq<string>): nat {
    |Root(absolute)| + |Closed(stack[..Fixed(stack)])|
  }

  /** The first part of s is entered; what follows its '/' is left. */
  lemma PartEntered(absolute: bool, stack: seq<string>, s: string, next: nat)
    requires next == PartLength(s) + (if PartLength(s) < |s| then 1 else 0)
    ensures
      var stack' := Enter(absolute, stack, s[..PartLength(s)]);
      Fold(absolute, stack, Split(s)) == Fold(absolute, stack', Split(s[next..]))
  {
    var k := PartLength(s);
    var stack' := Enter(absolute, stack, s[..k]);
    if k == |s| {
      assert s[..k] == s && s[next..] == "";
      assert Split(s) == [s] && Split("") == [""];
      assert [s][1..] == [] && [""][1..] == [];
      assert Fold(absolute, stack', [""]) == stack';
    } else {
      assert ([s[..k]] + Split(s[k + 1..]))[1..] == Split(s[k + 1..]);
    }
  }

  /** *dst++ = *src++ */
  method CopyOne(path: array<char>, ghost text: string, dst: nat, src: nat)
    requires dst <= src < |text| && Rest(path[..], text, src)
    modifies path
    ensures Rest(path[..], text, src + 1) && path[..dst + 1] == old(path[..dst]) + [text[src]]
  {
    path[dst] := path[src];
  }

  /** The bytes from src to the next '/', moved down to dst. */
  method CopyChars(path: array<char>, ghost text: string, dst0: nat, src0: nat) returns (dst: nat, src: nat)
    requires dst0 <= src0 && Rest(path[..], text, src0)
    modifies path
    ensures src == src0 + PartLength(text[src0..]) && dst - dst0 == src - src0 && Rest(path[..], text, src)
    ensures path[..dst] == old(path[..dst0]) + text[src0..src]
  {
    dst, src := dst0, src0;
    ghost var head := path[..dst0];
    while !AtPartEnd(path[src])
      invariant src0 <= src <= src0 + PartLength(text[src0..]) && dst - dst0 == src - src0 && Rest(path[..], text, src)
      invariant path[..dst] == head + text[src0..src]
      decreases |text| - src
    {
      PartGoesOn(path[..], text, src0, src);
      CopyNext(path, text, head, src0, dst, src);
      dst, src := dst + 1, src + 1;
    }
    PartGoesOn(path[..], text, src0, src);
  }

  predicate AtPartEnd(c: char) { c == NUL || c == '/' }

  lemma PartGoesOn(path: seq<char>, text: string, src0: nat, src: nat)
    requires src0 <= |text| && src0 <= src <= src0 + PartLength(text[src0..]) && Rest(path, text, src)
    ensures AtPartEnd(path[src]) <==> src == src0 + PartLength(text[src0..])
  {
    if src < |text| {
      assert path[src] == text[src] == text[src0..][src - src0];
    }
  }

  method CopyNext(path: array<char>, ghost text: string, ghost head: string, ghost src0: nat, dst: nat, src: nat)
    requires src0 <= src && dst <= src < |text| && Rest(path[..], text, src)
    requires path[..dst] == head + text[src0..src]
    modifies path
    ensures Rest(path[..], text, src + 1) && path[..dst + 1] == head + text[src0..src + 1]
  {
    CopyOne(path, text, dst, src);
    Append(head, text[src0..src], text[src]);
    assert text[src0..src] + [text[src]] == text[src0..src + 1];
  }

  /** The bytes from src to the next '/', and the '/', moved down to dst. */
  method CopyPart(path: array<char>, ghost text: string, dst0: nat, src0: nat) returns (dst: nat, src: nat)
    requires dst0 <= src0 && Rest(path[..], text, src0)
    modifies path
    ensures src == src0 + PartLength(text[src0..]) + (if src0 + PartLength(text[src0..]) < |text| then 1 else 0)
    ensures dst - dst0 == src - src0 && Rest(path[..], text, src)
    ensures path[..dst] == old(path[..dst0]) + text[src0..src]
  {
    ghost var head := path[..dst0];
    dst, src := CopyChars(path, text, dst0, src0);
    if path[src] != NUL {
      CopyNext(path, text, head, src0, dst, src);
      dst, src := dst + 1, src + 1;
    }
  }

  /** Skips the '/'s at src. */
  method SkipSlashes(path: array<char>, ghost text: string, ghost absolute: bool, ghost stack: seq<string>, src0: nat)
    returns (src: nat)
    requires Rest(path[..], text, src0)
    ensures src0 <= src && Rest(path[..], text, src) && (src < |text| ==> text[src] != '/')
    ensures Folded(text, absolute, stack, src0) ==> Folded(text, absolute, stack, src)
  {
    src := src0;
    while path[src] == '/'
      invariant src0 <= src <= |text|
      invariant Folded(text, absolute, stack, src0) ==> Folded(text, absolute, stack, src)
      decreases |text| - src
    {
      EnterEmpty(absolute, stack, text[src..]);
      assert text[src..][1..] == text[src + 1..];
      src := src + 1;
    }
  }

  lemma ClosedStep(stack: seq<string>)
    requires stack != []
    ensures Closed(stack) == Closed(stack[..|stack| - 1]) + (stack[|stack| - 1] + "/")
  {
    ThreeThen(Closed(stack[..|stack| - 1]), stack[|stack| - 1], "/", "");
  }

  /** The limit lies at or before the end of what is written, and in the second case
      there is a '/' there. */
  lemma LimitWithin(absolute: bool, stack: seq<string>)
    ensures
      var w := Written(absolute, stack, true);
      Limit(absolute, stack) <= |w| && (Limit(absolute, stack) < |w| ==> w[|w| - 1] == '/')
  {
    var k := Fixed(stack);
    assert stack == stack[..k] + stack[k..];
    ClosedConcat(stack[..k], stack[k..]);
    if k < |stack| {
      ClosedStep(stack);
    } else {
      assert stack[..k] == stack;
    }
  }

  /** A component that is not ".." does not move the limit. */
  lemma LimitStays(absolute: bool, front: seq<string>, last: string)
    requires last != ".."
    ensures Limit(absolute, front + [last]) == Limit(absolute, front)
  {
    FixedPrefix(front, last);
    assert (front + [last])[..Fixed(front)] == front[..Fixed(front)];
  }

  lemma {:induction false} FixedPrefix(stack: seq<string>, part: string)
    ensures part != ".." ==> Fixed(stack + [part]) == Fixed(stack)
    ensures part == ".." && Fixed(stack) == |stack| ==> Fixed(stack + [part]) == |stack| + 1
  {
    if stack == [] {
      assert [] + [part] == [part] && [part][1..] == [];
    } else {
      assert (stack + [part])[1..] == stack[1..] + [part];
      FixedPrefix(stack[1..], part);
    }
  }

  ghost predicate IsBack(written: seq<char>, limit: nat, e: nat) {
    && limit <= e < |written| && (e == limit || written[e - 1] == '/')
    && forall k :: e <= k < |written| - 1 ==> written[k] != '/'
  }

  /** The loop that moves dst back: to the first of the limit and a '/', here e. */
  method ScanBack(path: array<char>, dst0: nat, limit: nat, ghost e: nat) returns (dst: nat)
    requires dst0 <= path.Length && IsBack(path[..dst0], limit, e)
    ensures dst == e
  {
    dst := dst0 - 1;
    while dst != limit && path[dst - 1] != '/'
      invariant e <= dst < dst0
    {
      dst := dst - 1;
    }
  }

  /** The end of the closed stack, taken apart before its last component. */
  lemma LastWritten(path: seq<char>, absolute: bool, stack: seq<string>)
    requires IsNormal(absolute, stack) && stack != [] && stack[|stack| - 1] != ".."
    requires path == Written(absolute, stack, true)
    ensures
      var w := Written(absolute, stack[..|stack| - 1], true);
      && |w| < |path| && path[..|w|] == w
      && forall k :: |w| <= k < |path| - 1 ==> path[k] != '/'
  {
    var front, last := stack[..|stack| - 1], stack[|stack| - 1];
    var w := Written(absolute, front, true);
    ClosedStep(stack);
    ThreeThen(Root(absolute), Closed(front), last + "/", "");
    LastPart(path, w, last);
  }

  lemma LastPart(path: seq<char>, w: seq<char>, last: string)
    requires path == w + (last + "/") && '/' !in last
    ensures |w| < |path| && path[..|w|] == w
    ensures forall k :: |w| <= k < |path| - 1 ==> path[k] != '/'
  {
    forall k | |w| <= k < |path| - 1
      ensures path[k] != '/'
    {
      assert path[k] == last[k - |w|];
    }
  }

  /** Takes the last component back. */
  method Backtrack(path: array<char>, ghost absolute: bool, ghost stack: seq<string>, dst0: nat, limit: nat)
    returns (dst: nat)
    requires IsNormal(absolute, stack) && stack != [] && stack[|stack| - 1] != ".."
    requires dst0 <= path.Length && path[..dst0] == Written(absolute, stack, true) && limit == Limit(absolute, stack)
    ensures dst <= dst0 && path[..dst] == Written(absolute, stack[..|stack| - 1], true)
  {
    ghost var e := PlaceBack(path[..dst0], absolute, stack, limit);
    assert path[..e] == path[..dst0][..e];
    dst := ScanBack(path, dst0, limit, e);
  }

  lemma PlaceBack(written: seq<char>, absolute: bool, stack: seq<string>, limit: nat) returns (e: nat)
    requires IsNormal(absolute, stack) && stack != [] && stack[|stack| - 1] != ".."
    requires written == Written(absolute, stack, true) && limit == Limit(absolute, stack)
    ensures IsBack(written, limit, e) && written[..e] == Written(absolute, stack[..|stack| - 1], true)
  {
    var front, last := stack[..|stack| - 1], stack[|stack| - 1];
    LastWritten(written, absolute, stack);
    assert stack == front + [last];
    LimitStays(absolute, front, last);
    LimitWithin(absolute, front);
    e := |Written(absolute, front, true)|;
  }

  lemma WrittenGrows(absolute: bool, stack: seq<string>, part: string)
    ensures Written(absolute, stack + [part], false) == Written(absolute, stack, true) + part
    ensures Written(absolute, stack + [part], true) == Written(absolute, stack, true) + part + "/"
  {
    assert (stack + [part])[..|stack|] == stack;
  }

  /** Nothing can be taken back exactly when dst is at the limit. */
  lemma AtLimit(absolute: bool, stack: seq<string>)
    requires IsNormal(absolute, stack)
    ensures |Written(absolute, stack, true)| == Limit(absolute, stack) <==>
      stack == [] || stack[|stack| - 1] == ".."
  {
    var k := Fixed(stack);
    if k == |stack| {
      assert stack[..k] == stack;
    } else {
      assert stack[k] != "..";
      assert stack[|stack| - 1] != "..";
      ClosedStep(stack);
      LimitStays(absolute, stack[..|stack| - 1], stack[|stack| - 1]);
      assert stack == stack[..|stack| - 1] + [stack[|stack| - 1]];
      LimitWithin(absolute, stack[..|stack| - 1]);
    }
  }

  function NextSource(text: string, src: nat): (next: nat)
    requires src <= |text|
    ensures src <= next <= |text|
  {
    var k := src + PartLength(text[src..]);
    if k < |text| then k + 1 else k
  }

  function PartAt(text: string, src: nat): string
    requires src <= |text|
  {
    text[src..][..PartLength(text[src..])]
  }

  lemma FoldedPart(text: string, absolute: bool, stack: seq<string>, src: nat)
    requires Folded(text, absolute, stack, src)
    ensures Folded(text, absolute, Enter(absolute, stack, PartAt(text, src)), NextSource(text, src))
  {
    var next := NextSource(text, src);
    PartEntered(absolute, stack, text[src..], next - src);
    assert text[src..][next - src..] == text[next..];
    EnterKeepsNormal(absolute, stack, PartAt(text, src));
  }

  lemma PartText(text: string, src: nat)
    requires src <= |text|
    ensures var part := PartAt(text, src);
      text[src..NextSource(text, src)] == if src + |part| < |text| then part + "/" else part
  {
    assert text[src..][..PartLength(text[src..])] == text[src..src + PartLength(text[src..])];
  }

  /** What is written when a part is copied. */
  lemma WrittenPart(text: string, absolute: bool, stack: seq<string>, src: nat)
    requires src <= |text|
    ensures var part := PartAt(text, src);
      Written(absolute, stack, true) + text[src..NextSource(text, src)] ==
      Written(absolute, stack + [part], src + |part| < |text|)
  {
    PartText(text, src);
    WrittenGrows(absolute, stack, PartAt(text, src));
  }

  /** A part is copied: the last case of a round, and ".." at the front of a relative path. */
  lemma PartCopied(path: seq<char>, text: string, absolute: bool, stack: seq<string>, dst: nat, src: nat, limit: nat)
    requires Folded(text, absolute, stack, src) && Rest(path, text, NextSource(text, src)) && src < |text|
    requires Enter(absolute, stack, PartAt(text, src)) == stack + [PartAt(text, src)]
    requires dst <= NextSource(text, src)
    requires path[..dst] == Written(absolute, stack, true) + text[src..NextSource(text, src)]
    requires limit == Limit(absolute, stack + [PartAt(text, src)])
    ensures
      var closed := src + |PartAt(text, src)| < |text|;
      Between(path, text, absolute, stack + [PartAt(text, src)], closed, dst, NextSource(text, src), limit)
  {
    FoldedPart(text, absolute, stack, src);
    WrittenPart(text, absolute, stack, src);
  }

  method CopyRound(path: array<char>, ghost text: string, ghost absolute: bool, ghost stack: seq<string>,
                   dst0: nat, src0: nat, limit: nat)
    returns (dst: nat, src: nat)
    requires Between(path[..], text, absolute, stack, true, dst0, src0, limit) && src0 < |text|
    requires var part := PartAt(text, src0); part != "" && part != "." && part != ".."
    modifies path
    ensures src == NextSource(text, src0)
    ensures var part := PartAt(text, src0);
      Between(path[..], text, absolute, stack + [part], src0 + |part| < |text|, dst, src, limit)
  {
    assert Look(0);
    dst, src := CopyPart(path, text, dst0, src0);
    LimitStays(absolute, stack, PartAt(text, src0));
    PartCopied(path[..], text, absolute, stack, dst, src0, limit);
  }

  lemma PartIs(text: string, src: nat, k: nat)
    requires src + k <= |text| && (src + k < |text| ==> text[src + k] == '/')
    requires forall i :: src <= i < src + k ==> text[i] != '/'
    ensures PartAt(text, src) == text[src..src + k] && NextSource(text, src) == src + k + (if src + k < |text| then 1 else 0)
  {
    PartLengthIs(text[src..], k);
    assert text[src..][..k] == text[src..src + k];
  }

  /** A component that leaves the buffer as it is. */
  lemma PartSkipped(path: seq<char>, text: string, absolute: bool, stack: seq<string>, dst: nat, src: nat, limit: nat)
    requires Between(path, text, absolute, stack, true, dst, src, limit)
    requires Enter(absolute, stack, PartAt(text, src)) == stack
    ensures Between(path, text, absolute, stack, true, dst, NextSource(text, src), limit)
  {
    assert Look(0);
    FoldedPart(text, absolute, stack, src);
  }

  /** ".." when there is a component to take back. */
  method PopRound(path: array<char>, ghost text: string, ghost absolute: bool, ghost stack: seq<string>,
                  dst0: nat, ghost src: nat, limit: nat)
    returns (dst: nat)
    requires Between(path[..], text, absolute, stack, true, dst0, src, limit)
    requires PartAt(text, src) == ".." && dst0 != limit
    ensures stack != [] &&
      Between(path[..], text, absolute, stack[..|stack| - 1], true, dst, NextSource(text, src), limit)
  {
    assert Look(0);
    AtLimit(absolute, stack);
    dst := Backtrack(path, absolute, stack, dst0, limit);
    PopPart(text, absolute, stack, src, limit);
  }

  lemma PopPart(text: string, absolute: bool, stack: seq<string>, src: nat, limit: nat)
    requires Folded(text, absolute, stack, src) && limit == Limit(absolute, stack)
    requires PartAt(text, src) == ".." && stack != [] && stack[|stack| - 1] != ".."
    ensures Folded(text, absolute, stack[..|stack| - 1], NextSource(text, src))
    ensures limit == Limit(absolute, stack[..|stack| - 1])
  {
    FoldedPart(text, absolute, stack, src);
    LimitStays(absolute, stack[..|stack| - 1], stack[|stack| - 1]);
    assert stack == stack[..|stack| - 1] + [stack[|stack| - 1]];
  }

  lemma KeptLimit(stack: seq<string>)
    requires IsNormal(false, stack) && (stack == [] || stack[|stack| - 1] == "..")
    ensures Limit(false, stack + [".."]) == |Written(false, stack + [".."], true)|
  {
    FixedPrefix(stack, "..");
    assert (stack + [".."])[..|stack| + 1] == stack + [".."];
    assert Fixed(stack) == |stack|;
  }

  lemma KeptPart(path: seq<char>, text: string, stack: seq<string>, dst0: nat, dst: nat, src: nat)
    requires IsNormal(false, stack) && dst0 == |Written(false, stack, true)| == Limit(false, stack)
    requires Folded(text, false, stack, src) && Rest(path, text, NextSource(text, src)) && src < |text|
    requires PartAt(text, src) == ".." && dst <= NextSource(text, src)
    requires path[..dst] == Written(false, stack, true) + text[src..NextSource(text, src)]
    ensures Between(path, text, false, stack + [".."], src + 2 < |text|, dst, NextSource(text, src), dst)
  {
    AtLimit(false, stack);
    KeptLimit(stack);
    PartCopied(path, text, false, stack, dst, src, Limit(false, stack + [".."]));
  }

  /** ".." at the front of a relative path: copied, with the '/' behind it if there is
      one, and never to be taken back. */
  method KeepRound(path: array<char>, ghost text: string, ghost stack: seq<string>, dst0: nat, src0: nat)
    returns (dst: nat, src: nat, limit: nat)
    requires Between(path[..], text, false, stack, true, dst0, src0, dst0)
    requires src0 + 2 <= |text| && PartAt(text, src0) == ".."
    requires NextSource(text, src0) == src0 + 2 + (if src0 + 2 < |text| then 1 else 0)
    modifies path
    ensures src == src0 + 2 && (path[src] != NUL <==> src < |text|)
    ensures Between(path[..], text, false, stack + [".."], src < |text|, dst, NextSource(text, src0), limit)
  {
    assert Look(0);
    dst, src := CopyDots(path, text, dst0, src0);
    limit := dst;
    KeptPart(path[..], text, stack, dst0, dst, src0);
  }

  method CopyDots(path: array<char>, ghost text: string, dst0: nat, src0: nat) returns (dst: nat, src: nat)
    requires dst0 <= src0 && src0 + 2 <= |text| && Rest(path[..], text, src0)
    requires NextSource(text, src0) == src0 + 2 + (if src0 + 2 < |text| then 1 else 0)
    modifies path
    ensures src == src0 + 2 && (path[src] != NUL <==> src < |text|)
    ensures dst <= NextSource(text, src0) && Rest(path[..], text, NextSource(text, src0))
    ensures path[..dst] == old(path[..dst0]) + text[src0..NextSource(text, src0)]
  {
    ghost var head := path[..dst0];
    dst, src := dst0, src0;
    CopyNext(path, text, head, src0, dst, src);
    dst, src := dst + 1, src + 1;
    CopyNext(path, text, head, src0, dst, src);
    dst, src := dst + 1, src + 1;
    if path[src] != NUL {
      ghost var before := path[..dst];
      path[dst] := path[src];
      dst := dst + 1;
      assert path[..dst] == before + [text[src]];
      Append(head, text[src0..src], text[src]);
      assert text[src0..src] + [text[src]] == text[src0..src + 1];
    }
  }

  method DotDotRound(path: array<char>, ghost text: string, absolute: bool, ghost stack: seq<string>,
                     dst0: nat, src0: nat, limit0: nat)
    returns (dst: nat, src: nat, limit: nat, ghost stack': seq<string>, ghost closed: bool)
    requires Between(path[..], text, absolute, stack, true, dst0, src0, limit0)
    requires src0 + 2 <= |text| && PartAt(text, src0) == ".."
    requires NextSource(text, src0) == src0 + 2 + (if src0 + 2 < |text| then 1 else 0)
    modifies path
    ensures src == NextSource(text, src0)
    ensures Between(path[..], text, absolute, stack', closed, dst, src, limit)
  {
    dst, limit, stack', closed := dst0, limit0, stack, true;
    src := src0 + 2;
    if dst0 != limit0 {
      dst := PopRound(path, text, absolute, stack, dst0, src0, limit);
      stack' := stack[..|stack| - 1];
    } else if !absolute {
      src := src - 2;
      dst, src, limit := KeepRound(path, text, stack, dst0, src);
      stack', closed := stack + [".."], src < |text|;
    } else {
      RootKept(path[..], text, stack, dst0, src0, limit0);
    }
    if path[src] != NUL {
      src := src + 1;
    }
  }

  /** ".." at the root stays there. */
  lemma RootKept(path: seq<char>, text: string, stack: seq<string>, dst: nat, src: nat, limit: nat)
    requires Between(path, text, true, stack, true, dst, src, limit) && dst == limit
    requires PartAt(text, src) == ".."
    ensures Between(path, text, true, stack, true, dst, NextSource(text, src), limit)
  {
    assert Look(0);
    AtLimit(true, stack);
    PartSkipped(path, text, true, stack, dst, src, limit);
  }

  /** One part of the path. */
  method Round(path: array<char>, ghost text: string, absolute: bool, ghost stack: seq<string>,
               dst0: nat, src0: nat, limit0: nat)
    returns (dst: nat, src: nat, limit: nat, ghost stack': seq<string>, ghost closed: bool)
    requires Between(path[..], text, absolute, stack, true, dst0, src0, limit0)
    requires src0 < |text| && text[src0] != '/'
    modifies path
    ensures src0 < src && Between(path[..], text, absolute, stack', closed, dst, src, limit)
  {
    dst, src, limit, stack', closed := dst0, src0, limit0, stack, true;
    assert Look(0);
    var dots := Dots(path, text, src);
    if dots == 1 {
      src := DotRound(path, text, absolute, stack, dst0, src0, limit0);
    } else if dots == 2 {
      dst, src, limit, stack', closed := DotDotRound(path, text, absolute, stack, dst0, src0, limit0);
    } else {
      dst, src := CopyRound(path, text, absolute, stack, dst0, src0, limit0);
      stack', closed := stack + [PartAt(text, src0)], src0 + |PartAt(text, src0)| < |text|;
    }
  }

  /** The tests for "." and "..": how many dots the part is, 0 if it is something else. */
  method Dots(path: array<char>, ghost text: string, src: nat) returns (n: nat)
    requires Rest(path[..], text, src) && src < |text| && text[src] != '/'
    ensures PartAt(text, src) != "" && src < NextSource(text, src)
    ensures n == if PartAt(text, src) == "." then 1 else if PartAt(text, src) == ".." then 2 else 0
    ensures n != 0 ==> NextSource(text, src) == src + n + (if src + n < |text| then 1 else 0)
  {
    if path[src] == '.' {
      if path[src + 1] == '/' || path[src + 1] == NUL {
        PartIs(text, src, 1);
        return 1;
      } else if path[src + 1] == '.' && (path[src + 2] == '/' || path[src + 2] == NUL) {
        PartIs(text, src, 2);
        return 2;
      }
    }
    OrdinaryPart(text, src);
    return 0;
  }

  /** ".": nothing is written. */
  method DotRound(path: array<char>, ghost text: string, ghost absolute: bool, ghost stack: seq<string>,
                  ghost dst: nat, src0: nat, ghost limit: nat)
    returns (src: nat)
    requires Between(path[..], text, absolute, stack, true, dst, src0, limit)
    requires src0 < |text| < path.Length && path[|text|] == NUL && NUL !in text
    requires PartAt(text, src0) == "." && NextSource(text, src0) == src0 + 1 + (if src0 + 1 < |text| then 1 else 0)
    requires src0 + 1 < |text| ==> path[src0 + 1] != NUL
    ensures src == NextSource(text, src0) && Between(path[..], text, absolute, stack, true, dst, src, limit)
  {
    PartSkipped(path[..], text, absolute, stack, dst, src0, limit);
    src := src0 + 1;
    if path[src] != NUL {
      src := src + 1;
    }
  }

  /** A part that the tests for "." and ".." do not take is neither. */
  lemma OrdinaryPart(text: string, src: nat)
    requires src < |text| && text[src] != '/'
    requires !(text[src] == '.' && (src + 1 == |text| || text[src + 1] == '/'))
    requires !(src + 1 < |text| && text[src] == text[src + 1] == '.' && (src + 2 == |text| || text[src + 2] == '/'))
    ensures var part := PartAt(text, src); part != "" && part != "." && part != ".." && NextSource(text, src) > src
  {
    var part := PartAt(text, src);
    assert text[src..][0] == text[src];
    assert forall i :: 0 <= i < |part| ==> part[i] == text[src + i];
  }

  /** "." for nothing, and no '/' at the end except for the root. */
  function Trimmed(w: string): string {
    if w == "" then "." else if |w| > 1 && w[|w| - 1] == '/' then w[..|w| - 1] else w
  }

  /** What is written at the end of the text, less a '/' at its end, is the clean path. */
  lemma Finished(text: string, absolute: bool, stack: seq<string>, closed: bool, src: nat)
    requires Folded(text, absolute, stack, src) && src == |text| && absolute == IsAbsolute(text)
    requires !closed ==> stack != []
    ensures Clean(text) == Trimmed(Written(absolute, stack, closed))
  {
    assert text[src..] == "" && Split("") == [""] && [""][1..] == [];
    assert Fold(absolute, stack, [""]) == stack;
    if stack != [] {
      var last := stack[|stack| - 1];
      ClosedStep(stack);
      assert last[|last| - 1] != '/';
      assert Closed(stack) == Join(stack) + "/";
      assert (Root(absolute) + Closed(stack)) == (Root(absolute) + Join(stack)) + "/";
    }
  }

  /** The root of an absolute path is kept, with one '/'. */
  method StartClean(path: array<char>, ghost text: string) returns (absolute: bool, dst: nat, src: nat)
    requires Rest(path[..], text, 0)
    modifies path
    ensures absolute == IsAbsolute(text)
    ensures Between(path[..], text, absolute, [], true, dst, src, dst)
    ensures src < |text| ==> text[src] != '/'
  {
    src, dst := 0, 0;
    absolute := path[0] == '/';
    NothingFolded(text, absolute);
    if absolute {
      CopyOne(path, text, dst, src);
      dst, src := dst + 1, src + 1;
      src := SkipSlashes(path, text, absolute, [], src);
    }
    StartsBetween(path[..], text, absolute, dst, src);
  }

  lemma NothingFolded(text: string, absolute: bool)
    requires absolute == IsAbsolute(text)
    ensures Folded(text, absolute, [], 0) && (absolute ==> Folded(text, absolute, [], 1))
  {
    assert text[0..] == text;
    if absolute {
      EnterEmpty(absolute, [], text);
    }
  }

  lemma StartsBetween(path: seq<char>, text: string, absolute: bool, dst: nat, src: nat)
    requires dst <= src && Rest(path, text, src) && Folded(text, absolute, [], src)
    requires path[..dst] == Root(absolute)
    ensures Between(path, text, absolute, [], true, dst, src, dst)
  {
  }

  method CleanParts(path: array<char>, ghost text: string, absolute: bool, dst0: nat, src0: nat)
    returns (dst: nat, ghost stack: seq<string>, ghost closed: bool)
    requires Between(path[..], text, absolute, [], true, dst0, src0, dst0) && (src0 < |text| ==> text[src0] != '/')
    modifies path
    ensures dst <= path.Length && Folded(text, absolute, stack, |text|) && (!closed ==> stack != [])
    ensures path[..dst] == Written(absolute, stack, closed)
  {
    stack, closed := [], true;
    dst := dst0;
    var src, limit := src0, dst0;
    while path[src] != NUL
      invariant Between(path[..], text, absolute, stack, closed, dst, src, limit)
      invariant src < |text| ==> text[src] != '/'
      decreases |text| - src
    {
      dst, src, limit, stack, closed := Round(path, text, absolute, stack, dst, src, limit);
      src := SkipBetween(path, text, absolute, stack, closed, dst, src, limit);
    }
    assert Look(0);
  }

  method SkipBetween(path: array<char>, ghost text: string, ghost absolute: bool, ghost stack: seq<string>,
                     ghost closed: bool, ghost dst: nat, src0: nat, ghost limit: nat)
    returns (src: nat)
    requires Between(path[..], text, absolute, stack, closed, dst, src0, limit)
    ensures src0 <= src && (src < |text| ==> text[src] != '/')
    ensures Between(path[..], text, absolute, stack, closed, dst, src, limit)
  {
    assert Look(0);
    src := SkipSlashes(path, text, absolute, stack, src0);
  }

  /** CleanPath: the reference on what stands before the first NUL. */
  method CleanPath(unclean: string) returns (r: string)
    ensures r == Clean(UpToNul(unclean))
  {
    ghost var text := UpToNul(unclean);
    var path := new char[|unclean| + 1](i requires 0 <= i <= |unclean| => if i < |unclean| then unclean[i] else NUL);
    var absolute, length, src := StartClean(path, text);
    ghost var stack, closed;
    length, stack, closed := CleanParts(path, text, absolute, length, src);
    Finished(text, absolute, stack, closed, |text|);
    r := Trim(path, length);
  }

  method Trim(path: array<char>, dst: nat) returns (r: string)
    requires dst <= path.Length
    ensures r == Trimmed(path[..dst])
  {
    var length := dst;
    if length != 0 {
      if length > 1 && path[length - 1] == '/' {
        length := length - 1;
      }
      r := path[..length];
    } else {
      r := ".";
    }
  }
}
