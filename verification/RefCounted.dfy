/** base/ref_counted.h: a counter shared by threads.  The first part is the protocol of Ref and
    Unref under every interleaving of their atomic steps; the second is scoped_refptr. */
module RefCounted {
  /** A reference is held, or its Unref has read a count other than 1 and is about to subtract. */
  datatype Phase = Held | Loaded

  /** `refs` are the references outstanding, `trues` how many Unrefs returned true. */
  datatype State = State(ref: int, refs: map<nat, Phase>, trues: nat)

  /** One atomic step.  Load and Subtract are the two halves of Unref. */
  datatype Step = Ref(holder: nat, copy: nat) | Load(holder: nat) | Subtract(holder: nat)

  /** What a step returns, if it ends an Unref. */
  datatype Outcome = Goes | Returns(last: bool)

  const INITIAL := State(1, map[0 := Held], 0)

  /** A thread steps only with a reference that is its own. */
  predicate Enabled(s: State, step: Step) {
    && step.holder in s.refs
    && (step.Subtract? <==> s.refs[step.holder] == Loaded)
    && (step.Ref? ==> step.copy !in s.refs)
  }

  function Next(s: State, step: Step): (State, Outcome)
    requires Enabled(s, step)
  {
    match step
    case Ref(_, copy) => (s.(ref := s.ref + 1, refs := s.refs[copy := Held]), Goes)
    case Load(holder) =>
      if s.ref == 1 then (s.(refs := s.refs - {holder}, trues := s.trues + 1), Returns(true))
      else (s.(refs := s.refs[holder := Loaded]), Goes)
    case Subtract(holder) =>
      var last := s.ref == 1;
      (State(s.ref - 1, s.refs - {holder}, s.trues + if last then 1 else 0), Returns(last))
  }

  /** While a reference is out the count is their number and no Unref returned true; then just
      one did. */
  predicate Counts(s: State) {
    if s.refs == map[] then s.trues == 1 else s.ref == |s.refs| && s.trues == 0
  }

  lemma StepKeepsCount(s: State, step: Step)
    requires Counts(s) && Enabled(s, step)
    ensures Counts(Next(s, step).0)
    ensures s.ref == |s.refs| >= 1
    ensures forall last :: Next(s, step).1 == Returns(last) ==>
              step.holder !in Next(s, step).0.refs && (last <==> Next(s, step).0.refs == map[])
  {
    var refs := s.refs;
    assert refs.Keys != {};
    if !step.Ref? {
      var left := refs - {step.holder};
      assert left.Keys == refs.Keys - {step.holder};
      assert |left| == |refs| - 1;
      assert left == map[] <==> |left.Keys| == 0;
    }
    match step
    case Ref(_, copy) =>
      assert refs[copy := Held].Keys == refs.Keys + {copy};
    case Load(holder) =>
      assert refs[holder := Loaded].Keys == refs.Keys;
    case Subtract(_) =>
  }

  // --------------------------------------------------------------------------- whole runs

  /** The states of a run are those its steps lead to. */
  ghost predicate IsRun(states: seq<State>, steps: seq<Step>) {
    && |states| == |steps| + 1 && states[0] == INITIAL
    && forall i :: 0 <= i < |steps| ==> Enabled(states[i], steps[i]) && states[i + 1] == Next(states[i], steps[i]).0
  }

  lemma {:induction false} RunCounts(states: seq<State>, steps: seq<Step>, k: nat)
    requires IsRun(states, steps) && k <= |steps|
    ensures Counts(states[k])
  {
    if k == 0 {
      assert map[0 := Held].Keys == {0};
    } else {
      var before: nat := k - 1;
      RunCounts(states, steps, before);
      StepKeepsCount(states[before], steps[before]);
      assert states[before + 1] == Next(states[before], steps[before]).0;
    }
  }

  /** In every run the count a step reads is the number of references out, and an Unref returns
      true exactly when no other is left; nothing comes after it. */
  lemma OnlyTheLastUnrefIsTrue(states: seq<State>, steps: seq<Step>, k: nat)
    requires IsRun(states, steps) && k < |steps|
    ensures states[k].ref == |states[k].refs| >= 1
    ensures Next(states[k], steps[k]).1 == Returns(true) <==> k == |steps| - 1 && states[|steps|].refs == map[]
    ensures Next(states[k], steps[k]).1 == Returns(false) ==> states[k + 1].refs != map[]
  {
    RunCounts(states, steps, k);
    StepKeepsCount(states[k], steps[k]);
    var next: nat := k + 1;
    assert states[next] == Next(states[k], steps[k]).0;
    if next < |steps| {
      assert steps[next].holder in states[next].refs;
    }
    if Next(states[k], steps[k]).1 == Goes {
      GoingOnLeavesOne(states[k], steps[k]);
    }
  }

  /** A step that does not end an Unref leaves a reference. */
  lemma GoingOnLeavesOne(s: State, step: Step)
    requires Enabled(s, step) && Next(s, step).1 == Goes
    ensures Next(s, step).0.refs != map[]
  {
    var refs := Next(s, step).0.refs;
    assert step.holder in refs;
  }

  // ------------------------------------------------------------------------- scoped_refptr

  class Counted {
    var ref: int
    var deleted: bool

    constructor ()
      ensures ref == 1 && !deleted
    {
      ref, deleted := 1, false;
    }

    method Ref()
      requires 1 <= ref && !deleted
      modifies this
      ensures ref == old(ref) + 1 && !deleted
    {
      ref := ref + 1;
    }

    /** RefCounted::Unref in one thread: deletes the object after the last reference. */
    method Unref()
      requires 1 <= ref && !deleted
      modifies this
      ensures deleted == (old(ref) == 1)
      ensures !deleted ==> ref == old(ref) - 1
    {
      var last := ref == 1;
      if !last {
        last := ref == 1;
        ref := ref - 1;
      }
      deleted := last;
    }
  }

  type Ptrs = map<ScopedRefptr, Counted?>

  ghost function PtrsOf(world: set<ScopedRefptr>): Ptrs
    reads world
  {
    map h | h in world :: h.ptr
  }

  ghost function Owners(ptrs: Ptrs, o: Counted): set<ScopedRefptr> {
    set h | h in ptrs && ptrs[h] == o
  }

  function Bit(b: bool): nat { if b then 1 else 0 }

  /** One handle changes what it points at. */
  lemma OwnersAfterSet(ptrs: Ptrs, h: ScopedRefptr, p: Counted?, o: Counted)
    ensures |Owners(ptrs[h := p], o)| == |Owners(ptrs, o)| - Bit(h in ptrs && ptrs[h] == o) + Bit(p == o)
  {
    var before, after := Owners(ptrs, o), Owners(ptrs[h := p], o);
    if p == o {
      assert after == before + {h};
    } else {
      assert after == before - {h};
    }
  }

  lemma OwnersAfterRemoval(ptrs: Ptrs, h: ScopedRefptr, o: Counted)
    requires h in ptrs
    ensures |Owners(ptrs - {h}, o)| == |Owners(ptrs, o)| - Bit(ptrs[h] == o)
  {
    assert Owners(ptrs - {h}, o) == Owners(ptrs, o) - {h};
  }

  /** Every object counts its handles, and one more if it is `extra`; those without are deleted. */
  ghost predicate Balanced(ptrs: Ptrs, objects: set<Counted>, extra: Counted?)
    reads objects
  {
    && (forall h :: h in ptrs && ptrs[h] != null ==> ptrs[h] in objects)
    && (forall o :: o in objects ==>
          var n := |Owners(ptrs, o)| + Bit(o == extra);
          if o.deleted then n == 0 else o.ref == n >= 1)
  }

  /** What `extra` is about: a reference that no handle holds. */
  lemma ExtraMoves(ptrs: Ptrs, objects: set<Counted>, p: Counted?, h: ScopedRefptr)
    requires Balanced(ptrs, objects, p) && h in ptrs && (p == null || p in objects)
    ensures Balanced(ptrs[h := p], objects, ptrs[h])
  {
    forall o | o in objects
      ensures |Owners(ptrs[h := p], o)| + Bit(o == ptrs[h]) == |Owners(ptrs, o)| + Bit(o == p)
    {
      OwnersAfterSet(ptrs, h, p, o);
    }
  }

  /** A new object has a reference that no handle holds. */
  lemma NewObject(ptrs: Ptrs, objects: set<Counted>, p: Counted)
    requires Balanced(ptrs, objects, null) && p !in objects && p.ref == 1 && !p.deleted
    ensures Balanced(ptrs, objects + {p}, p)
  {
    assert Owners(ptrs, p) == {};
  }

  class ScopedRefptr {
    var ptr: Counted?

    /** scoped_refptr(T*): takes over a reference that no handle holds. */
    constructor (p: Counted?, ghost world: set<ScopedRefptr>, ghost objects: set<Counted>)
      requires Balanced(PtrsOf(world), objects, p) && (p != null ==> p in objects)
      ensures ptr == p && fresh(this)
      ensures PtrsOf(world + {this}) == old(PtrsOf(world))[this := p]
      ensures Balanced(PtrsOf(world + {this}), objects, null)
    {
      ptr := p;
      new;
      ghost var before: Ptrs := old(PtrsOf(world));
      assert PtrsOf(world + {this}) == before[this := p];
      forall o: Counted ensures |Owners(before[this := p], o)| == |Owners(before, o)| + Bit(o == p) {
        OwnersAfterSet(before, this, p, o);
      }
    }

    /** scoped_refptr(const scoped_refptr&). */
    constructor Copy(r: ScopedRefptr, ghost world: set<ScopedRefptr>, ghost objects: set<Counted>)
      requires r in world && Balanced(PtrsOf(world), objects, null)
      modifies objects
      ensures ptr == r.ptr && fresh(this)
      ensures PtrsOf(world + {this}) == old(PtrsOf(world))[this := ptr]
      ensures Balanced(PtrsOf(world + {this}), objects, null)
    {
      ptr := r.ptr;
      new;
      if ptr != null {
        Live(PtrsOf(world), objects, r);
        ptr.Ref();
      }
      assert PtrsOf(world + {this}) == old(PtrsOf(world))[this := ptr];
      forall o | o in objects ensures |Owners(PtrsOf(world + {this}), o)| == |Owners(old(PtrsOf(world)), o)| + Bit(o == ptr) {
        OwnersAfterSet(old(PtrsOf(world)), this, ptr, o);
      }
    }

    /** scoped_refptr(scoped_refptr&&): the reference goes over. */
    constructor Move(r: ScopedRefptr, ghost world: set<ScopedRefptr>, ghost objects: set<Counted>)
      requires r in world && Balanced(PtrsOf(world), objects, null)
      modifies r
      ensures fresh(this) && ptr == old(r.ptr) && r.ptr == null
      ensures PtrsOf(world + {this}) == old(PtrsOf(world))[r := null][this := ptr]
      ensures Balanced(PtrsOf(world + {this}), objects, null)
    {
      ptr := r.ptr;
      new;
      r.ptr := null;
      ghost var before: Ptrs := old(PtrsOf(world));
      ghost var without: Ptrs := before[r := null];
      ghost var after: Ptrs := without[this := ptr];
      assert PtrsOf(world + {this}) == after;
      forall o | o in objects ensures |Owners(after, o)| == |Owners(before, o)| {
        OwnersAfterSet(before, r, null, o);
        OwnersAfterSet(without, this, ptr, o);
      }
    }

    /** ~scoped_refptr: the handle is no longer in the world. */
    method Destroy(ghost world: set<ScopedRefptr>, ghost objects: set<Counted>)
      requires this in world && Balanced(PtrsOf(world), objects, null)
      modifies objects
      ensures PtrsOf(world - {this}) == old(PtrsOf(world)) - {this}
      ensures Balanced(PtrsOf(world - {this}), objects, null)
    {
      ghost var before, after := PtrsOf(world), PtrsOf(world - {this});
      assert after == before - {this};
      forall o | o in objects ensures |Owners(after, o)| + Bit(o == ptr) == |Owners(before, o)| {
        OwnersAfterRemoval(before, this, o);
      }
      if ptr != null {
        Live(before, objects, this);
      }
      Release(ptr, after, objects);
    }

    /** operator=(T*): the new reference is taken before the old one is given up. */
    method AssignRaw(p: Counted?, ghost world: set<ScopedRefptr>, ghost objects: set<Counted>)
      requires this in world && Balanced(PtrsOf(world), objects, null)
      requires p != null ==> p in objects && !p.deleted
      modifies this, objects
      ensures PtrsOf(world) == old(PtrsOf(world))[this := p]
      ensures Balanced(PtrsOf(world), objects, null)
    {
      Acquire(p, PtrsOf(world), objects);
      var was := ptr;
      SetPtr(p, world, objects);
      Release(was, PtrsOf(world), objects);
    }

    method SetPtr(p: Counted?, ghost world: set<ScopedRefptr>, ghost objects: set<Counted>)
      requires this in world && Balanced(PtrsOf(world), objects, p) && (p != null ==> p in objects)
      modifies this
      ensures PtrsOf(world) == old(PtrsOf(world))[this := p]
      ensures Balanced(PtrsOf(world), objects, old(ptr)) && (old(ptr) != null ==> old(ptr) in objects)
    {
      ghost var before := PtrsOf(world);
      ExtraMoves(before, objects, p, this);
      ptr := p;
      assert PtrsOf(world) == before[this := p];
    }

    /** operator=(const scoped_refptr&). */
    method Assign(r: ScopedRefptr, ghost world: set<ScopedRefptr>, ghost objects: set<Counted>)
      requires this in world && r in world && Balanced(PtrsOf(world), objects, null)
      modifies this, objects
      ensures PtrsOf(world) == old(PtrsOf(world))[this := old(r.ptr)]
      ensures Balanced(PtrsOf(world), objects, null)
    {
      if r.ptr != null {
        Live(PtrsOf(world), objects, r);
      }
      AssignRaw(r.ptr, world, objects);
    }

    method Swap(r: ScopedRefptr, ghost world: set<ScopedRefptr>, ghost objects: set<Counted>)
      requires this in world && r in world && Balanced(PtrsOf(world), objects, null)
      modifies this, r
      ensures PtrsOf(world) == old(PtrsOf(world))[this := old(r.ptr)][r := old(this.ptr)]
      ensures Balanced(PtrsOf(world), objects, null)
    {
      ghost var before := PtrsOf(world);
      var p := ptr;
      ptr := r.ptr;
      r.ptr := p;
      ghost var between: Ptrs := before[this := before[r]];
      ghost var after: Ptrs := between[r := before[this]];
      assert PtrsOf(world) == after;
      forall o | o in objects ensures |Owners(after, o)| == |Owners(before, o)| {
        OwnersAfterSet(before, this, before[r], o);
        OwnersAfterSet(between, r, before[this], o);
      }
    }

    /** operator=(const scoped_refptr&&), which only a const rvalue reaches: r is copied and
        keeps its reference. */
    method MoveAssignConst(r: ScopedRefptr, ghost world: set<ScopedRefptr>, ghost objects: set<Counted>)
      requires this in world && r in world && Balanced(PtrsOf(world), objects, null)
      modifies this, objects
      ensures PtrsOf(world) == old(PtrsOf(world))[this := old(r.ptr)]
      ensures Balanced(PtrsOf(world), objects, null)
    {
      var copy := new ScopedRefptr.Copy(r, world, objects);
      ghost var more := world + {copy};
      ghost var before: Ptrs := old(PtrsOf(world));
      assert copy !in before;
      SwapAndDrop(before, copy, this, r.ptr);
      copy.Swap(this, more, objects);
      copy.Destroy(more, objects);
      assert more - {copy} == world;
    }

    /** operator=(scoped_refptr<U>&&), also for U = T: r gives its reference up, unless it is this
        handle itself. */
    method MoveAssign(r: ScopedRefptr, ghost world: set<ScopedRefptr>, ghost objects: set<Counted>)
      requires this in world && r in world && Balanced(PtrsOf(world), objects, null)
      modifies this, r, objects
      ensures PtrsOf(world) == old(PtrsOf(world))[r := null][this := old(r.ptr)]
      ensures Balanced(PtrsOf(world), objects, null)
    {
      var taken := new ScopedRefptr.Move(r, world, objects);
      ghost var more := world + {taken};
      ghost var before: Ptrs := old(PtrsOf(world))[r := null];
      assert taken !in before;
      SwapAndDrop(before, taken, this, taken.ptr);
      taken.Swap(this, more, objects);
      taken.Destroy(more, objects);
      assert more - {taken} == world;
    }
  }

  lemma SwapAndDrop(ptrs: Ptrs, temp: ScopedRefptr, h: ScopedRefptr, p: Counted?)
    requires temp !in ptrs && h in ptrs
    ensures ptrs[temp := p][temp := ptrs[h]][h := p] - {temp} == ptrs[h := p]
  {
  }

  /** Takes a reference that no handle holds yet. */
  method Acquire(p: Counted?, ghost ptrs: Ptrs, ghost objects: set<Counted>)
    requires (p != null ==> p in objects && !p.deleted) && Balanced(ptrs, objects, null)
    modifies objects
    ensures Balanced(ptrs, objects, p)
  {
    if p != null {
      p.Ref();
    }
  }

  /** Gives up the reference that no handle holds. */
  method Release(p: Counted?, ghost ptrs: Ptrs, ghost objects: set<Counted>)
    requires (p != null ==> p in objects) && Balanced(ptrs, objects, p)
    modifies objects
    ensures Balanced(ptrs, objects, null)
  {
    if p != null {
      p.Unref();
    }
  }

  lemma Live(ptrs: Ptrs, objects: set<Counted>, h: ScopedRefptr)
    requires Balanced(ptrs, objects, null) && h in ptrs && ptrs[h] != null
    ensures !ptrs[h].deleted && 1 <= ptrs[h].ref
  {
    assert h in Owners(ptrs, ptrs[h]);
  }
}
