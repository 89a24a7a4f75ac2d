/** What CleanPath of base/io/path.cc gives, without the stack that computes it: of all paths with
    the meaning of the given one, the one in clean form. */
module PathForms {
  import opened Path

  /** Clean: the root, ".", or components without empty ones and ".", and ".." at most at the front
      of a relative path. */
  ghost predicate IsCleanForm(t: string) {
    || t == "/" || t == "."
    || (t != "" && if t[0] == '/' then IsNormal(true, Split(t[1..])) else IsNormal(false, Split(t)))
  }

  lemma {:induction false} JoinCons(p: string, ps: seq<string>)
    requires ps != []
    ensures Join([p] + ps) == p + "/" + Join(ps)
  {
    var n := |ps| - 1;
    assert ([p] + ps)[..|ps|] == [p] + ps[..n];
    ClosedConcat([p], ps[..n]);
    assert [p][..0] == [] && Closed([p]) == p + "/";
    ThreeThen(p, "/", Closed(ps[..n]), ps[n]);
    ThreeThen(p + "/", Closed(ps[..n]), ps[n], "");
  }

  /** Joining undoes splitting. */
  lemma {:induction false} JoinSplit(s: string)
    ensures Split(s) != [] && Join(Split(s)) == s
    decreases |s|
  {
    var k := PartLength(s);
    if k == |s| {
      assert [s][..0] == [];
    } else {
      JoinSplit(s[k + 1..]);
      JoinCons(s[..k], Split(s[k + 1..]));
      assert s == s[..k] + "/" + s[k + 1..];
    }
  }

  /** The stack that a path leaves. */
  function StackOf(s: string): seq<string> { Fold(IsAbsolute(s), [], Split(s)) }

  lemma StackIsNormal(s: string)
    ensures IsNormal(IsAbsolute(s), StackOf(s)) && Clean(s) == Render(IsAbsolute(s), StackOf(s))
  {
    SplitHasNoSlash(s);
    FoldIsNormal(IsAbsolute(s), [], Split(s));
  }

  lemma RenderIsForm(absolute: bool, stack: seq<string>)
    requires IsNormal(absolute, stack)
    ensures IsCleanForm(Render(absolute, stack)) && IsAbsolute(Render(absolute, stack)) == absolute
  {
    if stack != [] {
      var t := Render(absolute, stack);
      JoinIsRelative(stack);
      SplitJoin(stack);
      if absolute {
        assert t[1..] == Join(stack);
      } else {
        assert t == Join(stack);
      }
    }
  }

  /** A path in clean form is its own clean path. */
  lemma FormIsFixed(t: string)
    requires IsCleanForm(t)
    ensures Clean(t) == t
  {
    if t == "/" || t == "." {
      EmptyStackIsFixed(t == "/");
      assert Render(t == "/", []) == t;
    } else if t[0] == '/' {
      JoinSplit(t[1..]);
      AbsoluteIsFixed(Split(t[1..]));
      assert "/" + t[1..] == t;
    } else {
      JoinSplit(t);
      RelativeIsFixed(Split(t));
    }
  }

  /** The directory k levels up. */
  function Up(dir: seq<string>, k: nat): seq<string> {
    dir[..if k <= |dir| then |dir| - k else 0]
  }

  lemma {:induction false} WalkUp(dir: seq<string>, parts: seq<string>)
    requires forall i :: 0 <= i < |parts| ==> parts[i] == ".."
    ensures Walk(dir, parts) == Up(dir, |parts|)
    decreases parts
  {
    if parts != [] {
      WalkUp(Go(dir, ".."), parts[1..]);
    }
  }

  lemma {:induction false} WalkDown(dir: seq<string>, parts: seq<string>)
    requires forall i :: 0 <= i < |parts| ==> IsPart(parts[i]) && parts[i] != ".."
    ensures Walk(dir, parts) == dir + parts
    decreases parts
  {
    if parts != [] {
      WalkDown(dir + [parts[0]], parts[1..]);
      assert (dir + [parts[0]]) + parts[1..] == dir + parts;
    }
  }

  lemma {:induction false} WalkConcat(dir: seq<string>, a: seq<string>, b: seq<string>)
    ensures Walk(dir, a + b) == Walk(Walk(dir, a), b)
    decreases a
  {
    if a == [] {
      assert a + b == b;
    } else {
      assert (a + b)[1..] == a[1..] + b;
      WalkConcat(Go(dir, a[0]), a[1..], b);
    }
  }

  /** A normal stack walked from a directory: up by its ".."s, then down its other components. */
  lemma WalkNormal(cwd: seq<string>, stack: seq<string>)
    requires IsNormal(false, stack)
    ensures Walk(cwd, stack) == Up(cwd, Fixed(stack)) + stack[Fixed(stack)..]
  {
    var k := Fixed(stack);
    assert stack == stack[..k] + stack[k..];
    WalkConcat(cwd, stack[..k], stack[k..]);
    WalkUp(cwd, stack[..k]);
    BehindFixed(stack);
    WalkDown(Up(cwd, k), stack[k..]);
  }

  lemma BehindFixed(stack: seq<string>)
    requires IsNormal(false, stack)
    ensures forall i :: Fixed(stack) <= i < |stack| ==> stack[i] != ".."
  {
  }

  // ------------------------------------------------------------------ one clean form

  function Longest(parts: seq<string>): nat {
    if parts == [] then 0
    else
      var m := Longest(parts[1..]);
      if m < |parts[0]| then |parts[0]| else m
  }

  lemma {:induction false} LongestIs(parts: seq<string>, i: nat)
    requires i < |parts|
    ensures |parts[i]| <= Longest(parts)
  {
    if 0 < i {
      LongestIs(parts[1..], i - 1);
    }
  }

  /** A name that is none of the components. */
  lemma NewName(a: seq<string>, b: seq<string>) returns (x: string)
    ensures x !in a && x !in b
  {
    x := seq(Longest(a) + Longest(b) + 1, _ => 'x');
    forall i | 0 <= i < |a| ensures a[i] != x { LongestIs(a, i); }
    forall i | 0 <= i < |b| ensures b[i] != x { LongestIs(b, i); }
  }

  /** m times the name x. */
  function Deep(x: string, m: nat): (dir: seq<string>)
    ensures |dir| == m && forall i :: 0 <= i < m ==> dir[i] == x
  {
    seq(m, _ => x)
  }

  lemma DeeperHasName(x: string, p: nat, q: nat, a: seq<string>, b: seq<string>)
    requires Deep(x, p) + a == Deep(x, q) + b && q < p
    ensures x in b
  {
    var r := Deep(x, q) + b;
    assert r[q] == x;
    assert b[0] == r[q];
  }

  lemma SameDepth(x: string, p: nat, q: nat, a: seq<string>, b: seq<string>)
    requires x !in a && x !in b && Deep(x, p) + a == Deep(x, q) + b
    ensures p == q && a == b
  {
    if q < p {
      DeeperHasName(x, p, q, a, b);
    } else if p < q {
      DeeperHasName(x, q, p, b, a);
    } else {
      assert a == (Deep(x, p) + a)[p..] && b == (Deep(x, p) + b)[p..];
    }
  }

  lemma NormalStacksAgree(s: seq<string>, t: seq<string>)
    requires IsNormal(false, s) && IsNormal(false, t)
    requires forall cwd :: Walk(cwd, s) == Walk(cwd, t)
    ensures s == t
  {
    var x := NewName(s, t);
    AgreeFromDeep(x, Fixed(s), Fixed(t), s, t);
  }

  lemma AgreeFromDeep(x: string, j: nat, k: nat, s: seq<string>, t: seq<string>)
    requires IsNormal(false, s) && IsNormal(false, t) && x !in s && x !in t && j == Fixed(s) && k == Fixed(t)
    requires Walk(Deep(x, j + k), s) == Walk(Deep(x, j + k), t)
    ensures s == t
  {
    WalkDeep(x, j + k, k, s);
    WalkDeep(x, j + k, j, t);
    SameDepth(x, k, j, s[j..], t[k..]);
    SameParts(s, t, j);
  }

  lemma SameParts(s: seq<string>, t: seq<string>, k: nat)
    requires k == Fixed(s) == Fixed(t) && s[k..] == t[k..]
    ensures s == t
  {
    assert s[..k] == t[..k];
    assert s == s[..k] + s[k..] && t == t[..k] + t[k..];
  }

  lemma WalkDeep(x: string, m: nat, left: nat, stack: seq<string>)
    requires IsNormal(false, stack) && m == left + Fixed(stack)
    ensures Walk(Deep(x, m), stack) == Deep(x, left) + stack[Fixed(stack)..]
  {
    WalkNormal(Deep(x, m), stack);
    assert Up(Deep(x, m), Fixed(stack)) == Deep(x, left);
  }

  lemma ResolveIs(cwd: seq<string>, s: string)
    ensures IsAbsolute(s) ==> Resolve(cwd, s) == StackOf(s)
    ensures !IsAbsolute(s) ==> Resolve(cwd, s) == Walk(cwd, StackOf(s))
  {
    SplitHasNoSlash(s);
    if IsAbsolute(s) {
      FoldIsWalk([], Split(s));
    } else {
      FoldResolves(cwd, [], Split(s));
    }
  }

  /** From deep enough a relative path leads deep, an absolute one always to the same place. */
  lemma RelativeIsNotAbsolute(s: string, t: string)
    requires IsAbsolute(s) && !IsAbsolute(t)
    ensures exists cwd :: Resolve(cwd, s) != Resolve(cwd, t)
  {
    StackIsNormal(t);
    var cwd := seq(Fixed(StackOf(t)) + |StackOf(s)| + 1, _ => "");
    ResolveIs(cwd, s);
    ResolveIs(cwd, t);
    WalkNormal(cwd, StackOf(t));
    assert |Resolve(cwd, t)| > |StackOf(s)|;
  }

  /** What leads where s leads from everywhere has its stack. */
  lemma SameStack(s: string, t: string)
    requires forall cwd :: Resolve(cwd, s) == Resolve(cwd, t)
    ensures IsAbsolute(s) == IsAbsolute(t) && StackOf(s) == StackOf(t)
  {
    if IsAbsolute(s) != IsAbsolute(t) {
      if IsAbsolute(s) {
        RelativeIsNotAbsolute(s, t);
      } else {
        RelativeIsNotAbsolute(t, s);
      }
    }
    StackIsNormal(s);
    StackIsNormal(t);
    if IsAbsolute(s) {
      ResolveIs([], s);
      ResolveIs([], t);
    } else {
      forall cwd ensures Walk(cwd, StackOf(s)) == Walk(cwd, StackOf(t)) {
        ResolveIs(cwd, s);
        ResolveIs(cwd, t);
      }
      NormalStacksAgree(StackOf(s), StackOf(t));
    }
  }

  /** The clean path is the one path in clean form that leads where the given one leads, from every
      directory. */
  lemma OneCleanForm(s: string, t: string)
    ensures t == Clean(s) <==> IsCleanForm(t) && forall cwd :: Resolve(cwd, t) == Resolve(cwd, s)
  {
    if t == Clean(s) {
      StackIsNormal(s);
      RenderIsForm(IsAbsolute(s), StackOf(s));
      forall cwd ensures Resolve(cwd, t) == Resolve(cwd, s) { CleanKeepsMeaning(cwd, s); }
    } else if IsCleanForm(t) && forall cwd :: Resolve(cwd, t) == Resolve(cwd, s) {
      SameStack(s, t);
      FormIsFixed(t);
    }
  }
}
