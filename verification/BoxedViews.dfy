/** Views of structures nested inside other structures (gi/boxed.cpp): a view has no memory of its own but points into
    that of its parent, whose JS object it keeps alive through a reserved slot. */
module BoxedViews {
  import opened Basics

  /** A boxed wrapper with its C memory: `size` bytes at `offset` into the memory that was first wrapped by object
      `block`. An object without a parent owns that memory or wraps memory of C; one with a parent is a view. `nested`
      holds the objects stashed by field. */
  datatype Obj = Obj(parent: Option<nat>, owns: bool, block: nat, offset: nat, size: nat, nested: map<nat, nat>)

  /** A field that is itself a structure, with its place in the parent structure. */
  datatype Field = Field(index: nat, offset: nat, size: nat, hasPointers: bool)

  /** The JS objects that have not been collected, the memory that has not been freed, and the objects JS code holds
      on to directly. */
  datatype State = State(objs: map<nat, Obj>, blocks: map<nat, nat>, held: set<nat>, next: nat)

  datatype Step =
    | Construct(size: nat)
    | Wrap(size: nat)                     // memory that C owns, without a copy
    | FreeByC(block: nat)
    | Read(id: nat, field: Field)
    | Write(id: nat, field: Field, source: nat)
    | LetGo(id: nat)
    | Collect(dead: set<nat>)

  const INITIAL: State := State(map[], map[], {}, 0)

  // ----- transitions

  /** get_nested_interface_object: the stashed object if there is one, otherwise a new view. */
  function AfterRead(s: State, id: nat, f: Field): State
    requires id in s.objs
  {
    var parent := s.objs[id];
    if f.index in parent.nested then s.(held := s.held + {parent.nested[f.index]})
    else
      State(s.objs[s.next := View(parent, id, f)], s.blocks, s.held + {s.next}, s.next + 1)
  }

  /** The view of a field of object `id`. */
  function View(parent: Obj, id: nat, f: Field): Obj {
    Obj(Some(id), false, parent.block, parent.offset + f.offset, f.size, map[])
  }

  /** set_nested_interface_object: a copied structure with pointers in it keeps its source alive. */
  function AfterWrite(s: State, id: nat, f: Field, source: nat): State
    requires id in s.objs
  {
    if f.hasPointers then s.(objs := s.objs[id := s.objs[id].(nested := s.objs[id].nested[f.index := source])]) else s
  }

  /** Finalizing an object frees its memory if it owns any. */
  function AfterCollect(s: State, dead: set<nat>): State {
    var objs := map id | id in s.objs && id !in dead :: s.objs[id];
    var blocks := map b | b in s.blocks && !(b in dead && b in s.objs && s.objs[b].owns) :: s.blocks[b];
    s.(objs := objs, blocks := blocks)
  }

  function AfterWrap(s: State, size: nat, owns: bool): State {
    var obj := Obj(None, owns, s.next, 0, size, map[]);
    State(s.objs[s.next := obj], s.blocks[s.next := size], s.held + {s.next}, s.next + 1)
  }

  function Next(s: State, step: Step): State {
    match step
    case Construct(size) => AfterWrap(s, size, true)
    case Wrap(size) => AfterWrap(s, size, false)
    case FreeByC(b) => s.(blocks := s.blocks - {b})
    case Read(id, f) => if id in s.objs then AfterRead(s, id, f) else s
    case Write(id, f, source) => if id in s.objs then AfterWrite(s, id, f, source) else s
    case LetGo(id) => s.(held := s.held - {id})
    case Collect(dead) => AfterCollect(s, dead)
  }

  /** What an object keeps alive. */
  predicate RefersTo(o: Obj, id: nat) {
    o.parent == Some(id) || id in o.nested.Values
  }

  /** Nothing that stays refers to what goes: true of the unreachable objects. */
  predicate Unreachable(s: State, dead: set<nat>) {
    dead !! s.held && forall id, d :: id in s.objs && id !in dead && d in dead ==> !RefersTo(s.objs[id], d)
  }

  predicate Fits(o: Obj, f: Field) { f.offset + f.size <= o.size }

  /** JS code uses objects it holds, introspected fields lie inside their structure, only unreachable objects are
      collected, and C does not free what a wrapper owns. */
  predicate Enabled(s: State, step: Step) {
    match step
    case Construct(_) => true
    case Wrap(_) => true
    case FreeByC(b) => b in s.blocks && (b in s.objs ==> !s.objs[b].owns)
    case Read(id, f) => id in s.held && id in s.objs && Fits(s.objs[id], f)
    case Write(id, f, source) =>
      id in s.held && source in s.held && id in s.objs && source in s.objs && Fits(s.objs[id], f)
      && s.objs[source].size == f.size
    case LetGo(_) => true
    case Collect(dead) => Unreachable(s, dead)
  }

  // ----- invariant

  ghost predicate ObjValid(s: State, id: nat)
    requires id in s.objs
  {
    var o := s.objs[id];
    && id < s.next
    && (forall d :: RefersTo(o, d) ==> d in s.objs)
    && if o.parent.None? then
         o.block == id && o.offset == 0 && (o.owns ==> id in s.blocks) && (id in s.blocks ==> s.blocks[id] == o.size)
       else !o.owns && o.parent.value < id && o.parent.value in s.objs && InsideParent(o, s.objs[o.parent.value])
  }

  predicate InsideParent(view: Obj, parent: Obj) {
    view.block == parent.block && parent.offset <= view.offset && view.offset + view.size <= parent.offset + parent.size
  }

  ghost predicate Valid(s: State) {
    && (forall id :: id in s.objs ==> ObjValid(s, id))
    && (forall id :: id in s.held ==> id in s.objs)
    && (forall b :: b in s.blocks ==> b < s.next)
  }

  /** The object at the end of the parent chain. */
  ghost function RootOf(s: State, id: nat): nat
    requires Valid(s) && id in s.objs
    decreases id
  {
    assert ObjValid(s, id);
    if s.objs[id].parent.None? then id else RootOf(s, s.objs[id].parent.value)
  }

  lemma {:induction false} AddKeepsValid(s: State, o: Obj, blocks: map<nat, nat>)
    requires Valid(s)
    requires forall b :: b in s.blocks ==> b in blocks && (b < s.next ==> blocks[b] == s.blocks[b])
    requires forall b :: b in blocks ==> b == s.next || b in s.blocks
    requires ObjValid(State(s.objs[s.next := o], blocks, s.held, s.next + 1), s.next)
    ensures Valid(State(s.objs[s.next := o], blocks, s.held + {s.next}, s.next + 1))
  {
    var s' := State(s.objs[s.next := o], blocks, s.held + {s.next}, s.next + 1);
    forall id | id in s'.objs ensures ObjValid(s', id) {
      if id != s.next {
        assert ObjValid(s, id);
      } else {
        assert ObjValid(State(s.objs[s.next := o], blocks, s.held, s.next + 1), s.next);
      }
    }
  }

  lemma {:induction false} ReadKeepsValid(s: State, id: nat, f: Field)
    requires Valid(s) && Enabled(s, Read(id, f))
    ensures Valid(Next(s, Read(id, f)))
  {
    var parent := s.objs[id];
    if f.index in parent.nested {
      assert ObjValid(s, id) && RefersTo(parent, parent.nested[f.index]);
      HoldKeepsValid(s, parent.nested[f.index]);
    } else {
      ViewIsValid(s, id, f);
      AddKeepsValid(s, View(parent, id, f), s.blocks);
    }
  }

  lemma {:induction false} HoldKeepsValid(s: State, id: nat)
    requires Valid(s) && id in s.objs
    ensures Valid(s.(held := s.held + {id}))
  {
    var s' := s.(held := s.held + {id});
    forall i | i in s'.objs ensures ObjValid(s', i) { assert ObjValid(s, i); }
  }

  lemma {:induction false} ViewIsValid(s: State, id: nat, f: Field)
    requires Valid(s) && id in s.objs && Fits(s.objs[id], f)
    ensures ObjValid(State(s.objs[s.next := View(s.objs[id], id, f)], s.blocks, s.held, s.next + 1), s.next)
  {
    var view := View(s.objs[id], id, f);
    assert ObjValid(s, id);
    assert InsideParent(view, s.objs[id]);
    forall d | RefersTo(view, d) ensures d == id {}
  }

  lemma {:induction false} WriteKeepsValid(s: State, id: nat, f: Field, source: nat)
    requires Valid(s) && Enabled(s, Write(id, f, source))
    ensures Valid(Next(s, Write(id, f, source)))
  {
    var s' := Next(s, Write(id, f, source));
    forall i | i in s'.objs ensures ObjValid(s', i) {
      assert ObjValid(s, i);
      forall d | RefersTo(s'.objs[i], d) ensures d in s'.objs { assert d == source || RefersTo(s.objs[i], d); }
    }
  }

  lemma {:induction false} CollectKeepsValid(s: State, dead: set<nat>)
    requires Valid(s) && Unreachable(s, dead)
    ensures Valid(Next(s, Collect(dead)))
  {
    var s' := Next(s, Collect(dead));
    forall i | i in s'.objs ensures ObjValid(s', i) {
      assert ObjValid(s, i);
      forall d | RefersTo(s'.objs[i], d) ensures d in s'.objs { assert RefersTo(s.objs[i], d); }
      if s.objs[i].parent.Some? { assert RefersTo(s.objs[i], s.objs[i].parent.value); }
    }
  }

  lemma {:induction false} StepKeepsValid(s: State, step: Step)
    requires Valid(s) && Enabled(s, step)
    ensures Valid(Next(s, step))
  {
    match step
    case Construct(size) => AddKeepsValid(s, Obj(None, true, s.next, 0, size, map[]), s.blocks[s.next := size]);
    case Wrap(size) => AddKeepsValid(s, Obj(None, false, s.next, 0, size, map[]), s.blocks[s.next := size]);
    case FreeByC(b) =>
      var s' := Next(s, step);
      forall i | i in s'.objs ensures ObjValid(s', i) { assert ObjValid(s, i); }
    case Read(id, f) => ReadKeepsValid(s, id, f);
    case Write(id, f, source) => WriteKeepsValid(s, id, f, source);
    case LetGo(id) =>
      var s' := Next(s, step);
      forall i | i in s'.objs ensures ObjValid(s', i) { assert ObjValid(s, i); }
    case Collect(dead) => CollectKeepsValid(s, dead);
  }

  function Run(s: State, steps: seq<Step>): State
    decreases |steps|
  {
    if steps == [] then s else Run(Next(s, steps[0]), steps[1..])
  }

  predicate Legal(s: State, steps: seq<Step>)
    decreases |steps|
  {
    steps == [] || (Enabled(s, steps[0]) && Legal(Next(s, steps[0]), steps[1..]))
  }

  lemma {:induction false} RunKeepsValid(s: State, steps: seq<Step>)
    requires Valid(s) && Legal(s, steps)
    ensures Valid(Run(s, steps))
    decreases |steps|
  {
    if steps != [] {
      StepKeepsValid(s, steps[0]);
      RunKeepsValid(Next(s, steps[0]), steps[1..]);
    }
  }

  /** The chain of parents ends in an object without a parent, whose memory contains the view. */
  lemma {:induction false} ChainInsideRoot(s: State, id: nat)
    requires Valid(s) && id in s.objs
    ensures var r, o := RootOf(s, id), s.objs[id];
            r in s.objs && s.objs[r].parent.None? && o.block == r && o.offset + o.size <= s.objs[r].size
    decreases id
  {
    assert ObjValid(s, id);
    if s.objs[id].parent.Some? { ChainInsideRoot(s, s.objs[id].parent.value); }
  }

  /** Only what is stashed in an object changes. */
  predicate SamePlace(a: Obj, b: Obj) {
    a.parent == b.parent && a.owns == b.owns && a.block == b.block && a.offset == b.offset && a.size == b.size
  }

  /** Objects are not brought back, and stay where they are. */
  lemma {:induction false} AliveBefore(s: State, steps: seq<Step>, id: nat)
    requires Valid(s) && Legal(s, steps) && id in Run(s, steps).objs && id < s.next
    ensures id in s.objs && SamePlace(s.objs[id], Run(s, steps).objs[id])
    decreases |steps|
  {
    if steps != [] {
      StepKeepsValid(s, steps[0]);
      AliveBefore(Next(s, steps[0]), steps[1..], id);
    }
  }

  /** The memory of a wrapper without a parent is freed, in the wrapper's lifetime, by C only. */
  lemma {:induction false} FreedByCOnly(s: State, steps: seq<Step>, r: nat)
    requires Valid(s) && Legal(s, steps) && r in Run(s, steps).objs && Run(s, steps).objs[r].parent.None?
    ensures r in Run(s, steps).blocks <==> (r >= s.next || r in s.blocks) && FreeByC(r) !in steps
    decreases |steps|
  {
    if steps != [] {
      var s' := Next(s, steps[0]);
      StepKeepsValid(s, steps[0]);
      FreedByCOnly(s', steps[1..], r);
      assert forall x :: x in steps <==> x == steps[0] || x in steps[1..];
      if r < s'.next { AliveBefore(s', steps[1..], r); }
      if r < s.next { AliveBefore(s, steps, r); }
    } else {
      assert ObjValid(s, r);
    }
  }

  /** No live view of memory that a wrapper owns dangles: after any sequence of constructions, reads, writes and
      collections of unreachable objects, every object that is alive lies inside the memory of the object at the end
      of its parent chain, which is alive, too; and that memory has been freed exactly if it was C's and C has freed
      it. */
  lemma {:induction false} NoViewDangles(steps: seq<Step>, id: nat)
    requires Legal(INITIAL, steps) && id in Run(INITIAL, steps).objs
    ensures var s := Run(INITIAL, steps);
            && Valid(s)
            && var r, o := RootOf(s, id), s.objs[id];
            && r in s.objs && s.objs[r].parent.None? && o.block == r && o.offset + o.size <= s.objs[r].size
            && (r in s.blocks <==> FreeByC(r) !in steps)
            && (r in s.blocks ==> s.blocks[r] == s.objs[r].size)
            && (s.objs[r].owns ==> r in s.blocks)
  {
    RunKeepsValid(INITIAL, steps);
    var s := Run(INITIAL, steps);
    ChainInsideRoot(s, id);
    assert ObjValid(s, RootOf(s, id));
    FreedByCOnly(INITIAL, steps, RootOf(s, id));
  }

  /** Bytes of an object's structure are within memory that has not been freed, if the root of its parent chain owns
      it. */
  ghost predicate InLiveMemory(s: State, id: nat, at: nat, size: nat)
    requires Valid(s) && id in s.objs
  {
    var r, o := RootOf(s, id), s.objs[id];
    r in s.objs && (s.objs[r].owns ==> r in s.blocks && o.block == r && o.offset + at + size <= s.blocks[r])
  }

  lemma {:induction false} FieldInLiveMemory(steps: seq<Step>, id: nat, at: nat, size: nat)
    requires Legal(INITIAL, steps) && id in Run(INITIAL, steps).objs && at + size <= Run(INITIAL, steps).objs[id].size
    ensures Valid(Run(INITIAL, steps)) && InLiveMemory(Run(INITIAL, steps), id, at, size)
  {
    NoViewDangles(steps, id);
  }

  /** So a write between such structures copies from live memory into live memory. */
  lemma {:induction false} WritesStayInside(steps: seq<Step>, id: nat, f: Field, source: nat)
    requires Legal(INITIAL, steps) && Enabled(Run(INITIAL, steps), Write(id, f, source))
    ensures Valid(Run(INITIAL, steps))
    ensures InLiveMemory(Run(INITIAL, steps), id, f.offset, f.size)
    ensures InLiveMemory(Run(INITIAL, steps), source, 0, f.size)
  {
    FieldInLiveMemory(steps, id, f.offset, f.size);
    FieldInLiveMemory(steps, source, 0, f.size);
  }

  /** Without the reserved slot (a view that does not refer to its parent) the parent could be collected first: the
      closure condition on collections is what the slot provides. */
  lemma {:induction false} SlotKeepsParent(s: State, dead: set<nat>, view: nat)
    requires Valid(s) && Unreachable(s, dead) && view in s.objs && view !in dead
    ensures RootOf(s, view) !in dead
    decreases view
  {
    assert ObjValid(s, view);
    if s.objs[view].parent.Some? {
      assert RefersTo(s.objs[view], s.objs[view].parent.value);
      SlotKeepsParent(s, dead, s.objs[view].parent.value);
    }
  }

  // ----- the code

  lemma {:induction false} CollectNone(s: State)
    ensures AfterCollect(s, {}) == s
  {
    assert AfterCollect(s, {}).objs == s.objs && AfterCollect(s, {}).blocks == s.blocks;
  }

  /** One more finalizer. */
  lemma {:induction false} CollectOne(s: State, done: set<nat>, id: nat)
    requires id !in done
    ensures var now, then_ := AfterCollect(s, done), AfterCollect(s, done + {id});
            && then_.objs == (if id in now.objs then now.objs - {id} else now.objs)
            && then_.blocks == (if id in now.objs && now.objs[id].owns then now.blocks - {id} else now.blocks)
  {
    var now, then_ := AfterCollect(s, done), AfterCollect(s, done + {id});
    assert then_.objs.Keys == now.objs.Keys - {id};
    var freed: set<nat> := if id in now.objs && now.objs[id].owns then {id} else {};
    assert then_.blocks.Keys == now.blocks.Keys - freed;
  }

  /** A view of a field of object `id`: its bytes are the field's bytes in that object. */
  predicate IsField(view: Obj, id: nat, parent: Obj, f: Field) {
    && view.parent == Some(id) && view.block == parent.block
    && view.offset == parent.offset + f.offset && view.size == f.size
  }

  class Realm {
    var objs: map<nat, Obj>
    var blocks: map<nat, nat>
    var held: set<nat>
    var next: nat

    constructor ()
      ensures Now() == INITIAL
    {
      objs, blocks, held, next := map[], map[], {}, 0;
    }

    function Now(): State
      reads this
    {
      State(objs, blocks, held, next)
    }

    /** get_nested_interface_object */
    method GetNested(id: nat, f: Field) returns (view: nat)
      requires Enabled(Now(), Read(id, f))
      modifies this
      ensures Now() == Next(old(Now()), Read(id, f)) && view in held
      ensures f.index in old(objs)[id].nested ==> view == old(objs)[id].nested[f.index] && objs == old(objs)
      ensures f.index !in old(objs)[id].nested ==> view in objs && IsField(objs[view], id, old(objs)[id], f)
    {
      if f.index in objs[id].nested {
        view := objs[id].nested[f.index];
        held := held + {view};
      } else {
        view := next;
        next := next + 1;
        objs := objs[view := Obj(Some(id), false, objs[id].block, objs[id].offset + f.offset, f.size, map[])];
        held := held + {view};
      }
    }

    /** set_nested_interface_object; the bytes copied are not modelled. */
    method SetNested(id: nat, f: Field, source: nat)
      requires Enabled(Now(), Write(id, f, source))
      modifies this
      ensures Now() == Next(old(Now()), Write(id, f, source))
    {
      if f.hasPointers {
        objs := objs[id := objs[id].(nested := objs[id].nested[f.index := source])];
      }
    }

    /** The finalizers of one collection, which run in no particular order. */
    method FinalizeAll(dead: set<nat>)
      modifies this
      ensures Now() == Next(old(Now()), Collect(dead))
      ensures forall id :: id in objs <==> id in old(objs) && id !in dead
      ensures forall id :: id in objs ==> objs[id] == old(objs)[id]
      ensures forall b :: b in blocks <==> b in old(blocks) && !(b in dead && b in old(objs) && old(objs)[b].owns)
    {
      ghost var was := Now();
      ghost var done: set<nat> := {};
      var todo := dead;
      CollectNone(was);
      while todo != {}
        invariant todo !! done && todo + done == dead && Now() == AfterCollect(was, done)
        decreases todo
      {
        var id :| id in todo;
        CollectOne(was, done, id);
        if id in objs {
          if objs[id].owns { blocks := blocks - {id}; }
          objs := objs - {id};
        }
        todo, done := todo - {id}, done + {id};
      }
      assert done == dead;
    }
  }
}
