/** A whole call with its memory: the container marshallers run over the cells of one call and one heap, phase by phase,
    and the heap frees what the books of Ownership say. */
module WholeCall {
  import opened Basics
  import opened JsValues
  import opened Ledger
  import opened CValues
  import opened Containers
  import opened Invoke
  import opened Ownership
  import M = Marshal
  import L = MarshalLoops
  import CallCoverage
  import CM = ContainerMarshallers

  /** The JS values passed, and which of the arguments may be null. */
  datatype Inputs = Inputs(vs: seq<JS>, nullable: seq<bool>)

  predicate Sized(w: World, ins: Inputs) { |ins.vs| == |ins.nullable| == |w.specs| }

  // ----- what the conversions do to the heap

  predicate PassedIn(s: Option<Spec>) { s.Some? && !s.value.passing.ByOut? }

  ghost function Conversion(w: World, num: Readings, ins: Inputs, i: nat, next: nat): M.Marshalled
    requires Sized(w, ins) && i < |w.specs| && w.specs[i].Some?
  {
    M.To(num, w.specs[i].value.ty, ins.vs[i], ins.nullable[i], Transfer.Nothing, next)
  }

  /** The heap before argument `i` is converted, and what the conversions so far freed on the way. */
  ghost function HeapBefore(w: World, num: Readings, ins: Inputs, i: nat, next: nat): nat
    requires Sized(w, ins) && i <= |w.specs|
  {
    if i == 0 then next
    else
      var before := HeapBefore(w, num, ins, i - 1, next);
      if !PassedIn(w.specs[i - 1]) || Conversion(w, num, ins, i - 1, before).Err? then before
      else Conversion(w, num, ins, i - 1, before).next
  }

  ghost function ScratchBefore(w: World, num: Readings, ins: Inputs, i: nat, next: nat): Bag
    requires Sized(w, ins) && i <= |w.specs|
  {
    if i == 0 then Empty
    else
      var before, scratch := HeapBefore(w, num, ins, i - 1, next), ScratchBefore(w, num, ins, i - 1, next);
      if !PassedIn(w.specs[i - 1]) || Conversion(w, num, ins, i - 1, before).Err? then scratch
      else Plus(scratch, Conversion(w, num, ins, i - 1, before).scratch)
  }

  /** The world gives the values these inputs are converted to, one after the other on one heap. */
  ghost predicate Predicted(w: World, p: Plan, env: Env, num: Readings, ins: Inputs, next: nat) {
    && Sized(w, ins) && Describes(w, p)
    && forall i {:trigger PredictedAt(w, num, ins, i, next)} ::
         0 <= i < ConvertedFrom(p, env, 0) && PassedIn(w.specs[i]) ==> PredictedAt(w, num, ins, i, next)
  }

  ghost predicate PredictedAt(w: World, num: Readings, ins: Inputs, i: nat, next: nat)
    requires Sized(w, ins) && i < |w.specs| == |w.given| && w.specs[i].Some?
  {
    var r := Conversion(w, num, ins, i, HeapBefore(w, num, ins, i, next));
    r.Ok? && r.c == w.given[i]
  }

  /** Only what there is can fail to be converted back. */
  ghost predicate FailsOnValues(w: World, p: Plan, env: Env)
    requires Describes(w, p)
  {
    forall pos {:trigger FailsOnValue(w, p, env, pos)} :: CallCoverage.InPlan(p, pos) ==> FailsOnValue(w, p, env, pos)
  }

  ghost predicate FailsOnValue(w: World, p: Plan, env: Env, pos: Pos)
    requires Describes(w, p) && CallCoverage.InPlan(p, pos)
  {
    pos in env.outFails && SpecAt(w, pos).Some? ==>
      !SpecAt(w, pos).value.passing.ByIn? && Pointer(OutCell(w, p, env, pos)).Some?
  }

  // ----- the argument cells

  datatype Words = Words(ins: seq<CM.Word>, outs: seq<CM.Word>, originals: seq<CM.Word>)

  function Now(state: CM.CallCells): Words
    reads state.ins, state.outs, state.originals
  {
    Words(state.ins[..], state.outs[..], state.originals[..])
  }

  ghost predicate Fits(state: CM.CallCells, p: Plan) {
    state.Valid() && state.offset > 0 && state.ins.Length == |p.args| + state.offset
  }

  function CellOf(offset: nat, pos: Pos): nat
    requires offset > 0
  {
    if pos.Arg? then offset + pos.i else offset - 1
  }

  /** The cells of a container hold these two values. */
  ghost predicate Hold(words: Words, at: nat, passing: Passing, given: CVal, received: CVal) {
    at < |words.ins| == |words.outs| == |words.originals|
    && match passing
       case ByIn => words.ins[at] == CM.Value(given)
       case ByOut => words.outs[at] == CM.Value(received)
       case ByInOut => words.outs[at] == CM.Value(received) && words.originals[at] == CM.Value(given)
  }

  ghost predicate Ready(w: World, p: Plan, env: Env, words: Words, offset: nat, cleared: Option<Pos>, pos: Pos)
    requires Describes(w, p) && CallCoverage.InPlan(p, pos) && offset > 0
  {
    SpecAt(w, pos).Some? ==>
      Hold(words, CellOf(offset, pos), SpecAt(w, pos).value.passing, Given(w, pos),
           if cleared == Some(pos) then CNull else OutCell(w, p, env, pos))
  }

  ghost predicate AllReady(w: World, p: Plan, env: Env, words: Words, offset: nat, cleared: Option<Pos>, k: nat)
    requires Describes(w, p) && offset > 0 && k <= |p.args|
  {
    && Ready(w, p, env, words, offset, cleared, Return)
    && forall i :: 0 <= i < k ==> Ready(w, p, env, words, offset, cleared, Arg(i))
  }

  /** As in() leaves the cells of argument `i`. */
  ghost predicate Entered(w: World, words: Words, offset: nat, i: nat)
    requires i < |w.specs| == |w.given|
  {
    w.specs[i].Some? ==>
      var s := w.specs[i].value;
      Hold(words, offset + i, s.passing, w.given[i], if s.passing.ByInOut? then w.given[i] else CNull)
  }

  // ----- the phases

  function FamilyOf(s: Spec, pos: Pos): CM.Family {
    match s.passing
    case ByIn => CM.InFamily
    case ByInOut => CM.InOutFamily
    case ByOut => if pos.Return? then CM.ReturnFamily else CM.OutFamily
  }

  method EnterOne(heap: Heap, num: Readings, w: World, ins: Inputs, state: CM.CallCells, i: nat, ghost p: Plan,
                  ghost next: nat)
    requires Describes(w, p) && Sized(w, ins) && Fits(state, p) && i < |p.args|
    requires heap.next == HeapBefore(w, num, ins, i, next)
    requires PassedIn(w.specs[i]) ==> PredictedAt(w, num, ins, i, next)
    requires forall j :: 0 <= j < i ==> Entered(w, Now(state), state.offset, j)
    modifies heap, state.ins, state.outs, state.originals
    ensures heap.next == HeapBefore(w, num, ins, i + 1, next)
    ensures forall j :: 0 <= j <= i ==> Entered(w, Now(state), state.offset, j)
    ensures state.outs[state.offset - 1] == old(state.outs[state.offset - 1])
    ensures L.Freed(old(heap.freed),
                    if PassedIn(w.specs[i]) then Conversion(w, num, ins, i, old(heap.next)).scratch else Empty,
                    heap.freed)
  {
    if w.specs[i].None? { return; }
    var s, at := w.specs[i].value, state.offset + i;
    var m := new CM.BasicTypeContainer(FamilyOf(s, Arg(i)), s.ty, s.transfer, ins.nullable[i], at);
    ghost var was := Now(state);
    var ok := m.In(heap, num, state, ins.vs[i]);
    assert Entered(w, Now(state), state.offset, i);
    forall j | 0 <= j < i ensures Entered(w, Now(state), state.offset, j) { assert Entered(w, was, state.offset, j); }
  }

  /** The conversions before the first that fails, which is not run. */
  method EnterAll(heap: Heap, num: Readings, w: World, p: Plan, env: Env, ins: Inputs, state: CM.CallCells)
    returns (k: nat)
    requires Predicted(w, p, env, num, ins, heap.next) && Fits(state, p)
    modifies heap, state.ins, state.outs, state.originals
    ensures k == ConvertedFrom(p, env, 0) && heap.next == HeapBefore(w, num, ins, k, old(heap.next))
    ensures L.Freed(old(heap.freed), ScratchBefore(w, num, ins, k, old(heap.next)), heap.freed)
    ensures forall i :: 0 <= i < k ==> Entered(w, Now(state), state.offset, i)
    ensures state.outs[state.offset - 1] == old(state.outs[state.offset - 1])
  {
    ghost var next, before := heap.next, heap.freed;
    k := 0;
    while k < |p.args| && Converts(p, env, k)
      invariant k <= |p.args| && ConvertedFrom(p, env, 0) == ConvertedFrom(p, env, k)
      invariant heap.next == HeapBefore(w, num, ins, k, next)
      invariant L.Freed(before, ScratchBefore(w, num, ins, k, next), heap.freed)
      invariant forall i :: 0 <= i < k ==> Entered(w, Now(state), state.offset, i)
      invariant state.outs[state.offset - 1] == old(state.outs[state.offset - 1])
    {
      ghost var now, scratch := heap.freed, ScratchBefore(w, num, ins, k, next);
      EnterOne(heap, num, w, ins, state, k, p, next);
      if PassedIn(w.specs[k]) {
        ghost var r := Conversion(w, num, ins, k, HeapBefore(w, num, ins, k, next));
        L.BothFreed(before, scratch, now, r.scratch, heap.freed);
      }
      k := k + 1;
    }
  }

  /** The C function: unless it sets an error it writes the out cells, and returns. */
  method Callee(w: World, p: Plan, env: Env, state: CM.CallCells)
    requires Describes(w, p) && Fits(state, p) && CallCoverage.Calls(p, env)
    requires forall i :: 0 <= i < |p.args| ==> Entered(w, Now(state), state.offset, i)
    requires state.outs[state.offset - 1] == CM.Value(CNull)
    modifies state`threwGError, state.outs
    ensures state.threwGError == (p.canThrow && env.setsError)
    ensures AllReady(w, p, env, Now(state), state.offset, None, |p.args|)
  {
    if p.canThrow && env.setsError {
      forall i | 0 <= i < |p.args| ensures Ready(w, p, env, Now(state), state.offset, None, Arg(i)) {
        assert Entered(w, Now(state), state.offset, i);
      }
    } else {
      WriteOuts(w, p, env, state);
    }
    state.threwGError := p.canThrow && env.setsError;
  }

  method WriteOuts(w: World, p: Plan, env: Env, state: CM.CallCells)
    requires Describes(w, p) && Fits(state, p) && Accepted(p, env)
    requires forall i :: 0 <= i < |p.args| ==> Entered(w, Now(state), state.offset, i)
    modifies state.outs
    ensures AllReady(w, p, env, Now(state), state.offset, None, |p.args|)
  {
    ghost var was := Now(state);
    if w.ret.Some? { state.outs[state.offset - 1] := CM.Value(w.returned); }
    var i := 0;
    while i < |p.args|
      invariant 0 <= i <= |p.args|
      invariant AllReady(w, p, env, Now(state), state.offset, None, i)
      invariant forall at :: state.offset + i <= at < |was.outs| ==> state.outs[at] == was.outs[at]
    {
      assert Entered(w, was, state.offset, i);
      if w.specs[i].Some? && !w.specs[i].value.passing.ByIn? {
        WriteOut(w, p, env, state, i);
      } else {
        assert Ready(w, p, env, Now(state), state.offset, None, Arg(i));
      }
      i := i + 1;
    }
  }

  method WriteOut(w: World, p: Plan, env: Env, state: CM.CallCells, i: nat)
    requires Describes(w, p) && Fits(state, p) && Accepted(p, env) && i < |p.args|
    requires w.specs[i].Some? && !w.specs[i].value.passing.ByIn?
    requires AllReady(w, p, env, Now(state), state.offset, None, i)
    requires w.specs[i].value.passing.ByInOut? ==> state.originals[state.offset + i] == CM.Value(w.given[i])
    modifies state.outs
    ensures AllReady(w, p, env, Now(state), state.offset, None, i + 1)
    ensures forall at :: 0 <= at < state.outs.Length && at != state.offset + i ==> state.outs[at] == old(state.outs[at])
  {
    ghost var was := Now(state);
    state.outs[state.offset + i] := CM.Value(w.received[i]);
    forall j | 0 <= j <= i ensures Ready(w, p, env, Now(state), state.offset, None, Arg(j)) {
      assert j < i ==> Ready(w, p, env, was, state.offset, None, Arg(j));
    }
  }

  /** What the log `t` says was freed since `base` has been freed. */
  ghost predicate Booked(w: World, p: Plan, env: Env, base: Bag, t: Trace, now: Bag)
    requires Describes(w, p)
  {
    Within(p, t) && L.Freed(base, FreedBy(w, p, env, t), now)
  }

  lemma Enter(w: World, p: Plan, env: Env, base: Bag, t: Trace, now: Bag, e: Event, later: Bag)
    requires Describes(w, p) && Booked(w, p, env, base, t, now)
    requires e.Released? || e.Unshown? ==> CallCoverage.InPlan(p, e.pos)
    requires L.Freed(now, FreedAt(w, p, env, e), later)
    ensures Booked(w, p, env, base, Then(t, e), later)
  {
    L.BothFreed(base, FreedBy(w, p, env, t), now, FreedAt(w, p, env, e), later);
  }

  ghost function ClearedAt(w: World, pos: Pos, ok: bool): Option<Pos>
    requires !ok && pos.Arg? ==> pos.i < |w.specs|
  {
    if !ok && SpecAt(w, pos).Some? && SpecAt(w, pos).value.transfer.Everything? then Some(pos) else None
  }

  /** The cell that a failed out() has cleared. */
  ghost function Cleared(w: World, p: Plan, env: Env): Option<Pos>
    requires Describes(w, p)
  {
    if OutFailed(p, env) then ClearedAt(w, OutPos(ShownFrom(p, env, 0)), false) else None
  }

  method ShowOne(heap: Heap, w: World, p: Plan, env: Env, state: CM.CallCells, pos: Pos, s: Spec)
    returns (ok: bool)
    requires Describes(w, p) && Fits(state, p) && FailsOnValues(w, p, env)
    requires CallCoverage.InPlan(p, pos) && !pos.Instance? && SpecAt(w, pos) == Some(s) && ContainerType(s.ty)
    requires AllReady(w, p, env, Now(state), state.offset, None, |p.args|)
    modifies heap`freed, state.outs
    ensures ok <==> pos !in env.outFails
    ensures L.Freed(old(heap.freed), FreedAt(w, p, env, if ok then Shown(pos) else Unshown(pos)), heap.freed)
    ensures AllReady(w, p, env, Now(state), state.offset,
                     if !ok && s.transfer.Everything? then Some(pos) else None, |p.args|)
  {
    assert Ready(w, p, env, Now(state), state.offset, None, pos) && FailsOnValue(w, p, env, pos);
    var at := CellOf(state.offset, pos);
    var m := new CM.BasicTypeContainer(FamilyOf(s, pos), s.ty, s.transfer, false, at);
    ghost var was := Now(state);
    ok := m.Out(heap, state, pos !in env.outFails);
    forall i | 0 <= i < |p.args|
      ensures Ready(w, p, env, Now(state), state.offset,
                    if !ok && s.transfer.Everything? then Some(pos) else None, Arg(i))
    {
      assert Ready(w, p, env, was, state.offset, None, Arg(i));
    }
  }

  /** One turn of the out loop. */
  method ShowStep(heap: Heap, w: World, p: Plan, env: Env, state: CM.CallCells, pos: Pos, ghost base: Bag,
                  ghost t: Trace) returns (ok: bool)
    requires Describes(w, p) && Fits(state, p) && FailsOnValues(w, p, env)
    requires CallCoverage.InPlan(p, pos) && !pos.Instance?
    requires AllReady(w, p, env, Now(state), state.offset, None, |p.args|) && Booked(w, p, env, base, t, heap.freed)
    modifies heap`freed, state.outs
    ensures ok <==> pos !in env.outFails
    ensures Booked(w, p, env, base, Then(t, if pos in env.outFails then Unshown(pos) else Shown(pos)), heap.freed)
    ensures AllReady(w, p, env, Now(state), state.offset, ClearedAt(w, pos, ok), |p.args|)
  {
    ok := pos !in env.outFails;
    ghost var now := heap.freed;
    var s := if pos.Return? then w.ret else w.specs[pos.i];
    if s.Some? {
      ok := ShowOne(heap, w, p, env, state, pos, s.value);
    }
    Enter(w, p, env, base, t, now, if ok then Shown(pos) else Unshown(pos), heap.freed);
  }

  method ShowTurn(heap: Heap, w: World, p: Plan, env: Env, state: CM.CallCells, n: nat, ghost base: Bag,
                  ghost start: Trace) returns (ok: bool)
    requires Describes(w, p) && Fits(state, p) && FailsOnValues(w, p, env) && n <= |p.args|
    requires AllReady(w, p, env, Now(state), state.offset, None, |p.args|)
    requires Booked(w, p, env, base, OutEvents(p, env, n, start), heap.freed)
    modifies heap`freed, state.outs
    ensures ok <==> Shows(p, env, n)
    ensures Booked(w, p, env, base, OutEvents(p, env, n + 1, start), heap.freed)
    ensures AllReady(w, p, env, Now(state), state.offset, ClearedAt(w, OutPos(n), ok), |p.args|)
  {
    ok := true;
    if !env.wantsRaw && SlotAt(p, OutPos(n)).Some? {
      ok := ShowStep(heap, w, p, env, state, OutPos(n), base, OutEvents(p, env, n, start));
    }
  }

  predicate AllShow(p: Plan, env: Env, m: nat)
    requires m <= |p.args| + 1
  {
    forall j :: 0 <= j < m ==> Shows(p, env, j)
  }

  /** The out loop, up to the first out() that fails. */
  method ShowAll(heap: Heap, w: World, p: Plan, env: Env, state: CM.CallCells, ghost base: Bag, ghost start: Trace)
    returns (m: nat)
    requires Describes(w, p) && Fits(state, p) && FailsOnValues(w, p, env)
    requires AllReady(w, p, env, Now(state), state.offset, None, |p.args|)
    requires Booked(w, p, env, base, start, heap.freed)
    modifies heap`freed, state.outs
    ensures m <= |p.args| + 1 && AllShow(p, env, m) && (m <= |p.args| ==> !Shows(p, env, m))
    ensures Booked(w, p, env, base, OutEvents(p, env, if m <= |p.args| then m + 1 else m, start), heap.freed)
    ensures AllReady(w, p, env, Now(state), state.offset, ClearedAt(w, OutPos(m), m > |p.args|), |p.args|)
  {
    m := 0;
    while m <= |p.args|
      invariant m <= |p.args| + 1 && AllShow(p, env, m)
      invariant Booked(w, p, env, base, OutEvents(p, env, m, start), heap.freed)
      invariant AllReady(w, p, env, Now(state), state.offset, None, |p.args|)
    {
      var ok := ShowTurn(heap, w, p, env, state, m, base, start);
      if !ok { return; }
      m := m + 1;
    }
  }

  method ReleaseOne(heap: Heap, w: World, p: Plan, env: Env, state: CM.CallCells, pos: Pos, s: Spec)
    requires Describes(w, p) && Fits(state, p)
    requires CallCoverage.InPlan(p, pos) && !pos.Instance? && SpecAt(w, pos) == Some(s) && ContainerType(s.ty)
    requires Ready(w, p, env, Now(state), state.offset, Cleared(w, p, env), pos)
    requires state.CallCompleted() <==> Completed(p, env)
    modifies heap`freed
    ensures L.Freed(old(heap.freed), FreedAt(w, p, env, Event.Released(pos)), heap.freed)
  {
    var m := new CM.BasicTypeContainer(FamilyOf(s, pos), s.ty, s.transfer, false, CellOf(state.offset, pos));
    m.Release(heap, state);
  }

  /** One turn of the release pass. */
  method ReleaseStep(heap: Heap, w: World, p: Plan, env: Env, state: CM.CallCells, pos: Pos, ghost base: Bag,
                     ghost t: Trace)
    requires Describes(w, p) && Fits(state, p) && CallCoverage.InPlan(p, pos)
    requires !pos.Instance? ==> Ready(w, p, env, Now(state), state.offset, Cleared(w, p, env), pos)
    requires Booked(w, p, env, base, t, heap.freed) && !Skipped(p, CallCoverage.MarkedFailed(p, env), pos)
    requires state.CallCompleted() <==> Completed(p, env)
    modifies heap`freed
    ensures Booked(w, p, env, base, Then(t, Event.Released(pos)), heap.freed)
  {
    ghost var now := heap.freed;
    var s := if pos.Return? then w.ret else if pos.Arg? then w.specs[pos.i] else None;
    if s.Some? {
      ReleaseOne(heap, w, p, env, state, pos, s.value);
    }
    Enter(w, p, env, base, t, now, Event.Released(pos), heap.freed);
  }

  method ReleaseTurn(heap: Heap, w: World, p: Plan, env: Env, state: CM.CallCells, n: nat, ghost base: Bag,
                     ghost start: Trace)
    requires Describes(w, p) && Fits(state, p) && n < ConvertedFrom(p, env, 0) + 2
    requires AllReady(w, p, env, Now(state), state.offset, Cleared(w, p, env), ConvertedFrom(p, env, 0))
    requires state.failed <==> CallCoverage.MarkedFailed(p, env)
    requires state.CallCompleted() <==> Completed(p, env)
    requires Booked(w, p, env, base, ReleaseEvents(p, env, state.failed, n, start), heap.freed)
    modifies heap`freed
    ensures Booked(w, p, env, base, ReleaseEvents(p, env, state.failed, n + 1, start), heap.freed)
  {
    var pos := ReleasePos(n);
    ghost var t := ReleaseEvents(p, env, state.failed, n, start);
    if !Skipped(p, state.failed, pos) {
      if env.wantsRaw && pos.Return? {
        Enter(w, p, env, base, t, heap.freed, SavedReturn, heap.freed);
      } else {
        ReleaseStep(heap, w, p, env, state, pos, base, t);
      }
    }
  }

  /** The release pass. */
  method ReleaseAll(heap: Heap, w: World, p: Plan, env: Env, state: CM.CallCells, k: nat, ghost base: Bag,
                    ghost start: Trace)
    requires Describes(w, p) && Fits(state, p) && k == ConvertedFrom(p, env, 0)
    requires AllReady(w, p, env, Now(state), state.offset, Cleared(w, p, env), k)
    requires Booked(w, p, env, base, start, heap.freed)
    requires state.failed <==> CallCoverage.MarkedFailed(p, env)
    requires state.CallCompleted() <==> Completed(p, env)
    modifies heap`freed
    ensures Booked(w, p, env, base, ReleaseEvents(p, env, state.failed, k + 2, start), heap.freed)
  {
    var n := 0;
    while n < k + 2
      invariant 0 <= n <= k + 2
      invariant Booked(w, p, env, base, ReleaseEvents(p, env, state.failed, n, start), heap.freed)
    {
      ReleaseTurn(heap, w, p, env, state, n, base, start);
      n := n + 1;
    }
  }

  // ----- the whole call

  lemma FirstUnshown(p: Plan, env: Env, m: nat)
    requires m <= |p.args| + 1 && AllShow(p, env, m) && (m <= |p.args| ==> !Shows(p, env, m))
    ensures ShownFrom(p, env, 0) == m
  {
  }

  /** An event that frees nothing. */
  lemma BookQuiet(w: World, p: Plan, env: Env, base: Bag, t: Trace, now: Bag, e: Event)
    requires Describes(w, p) && Booked(w, p, env, base, t, now) && !e.Released? && !e.Unshown?
    ensures Booked(w, p, env, base, Then(t, e), now)
  {
    Enter(w, p, env, base, t, now, e, now);
  }

  lemma {:induction false} QuietConversions(w: World, p: Plan, env: Env, k: nat, t: Trace, base: Bag)
    requires Describes(w, p) && k <= |p.args| && Booked(w, p, env, base, t, base)
    ensures Booked(w, p, env, base, InEvents(p, env, k, t), base)
  {
    if k > 0 {
      QuietConversions(w, p, env, k - 1, t, base);
      BookQuiet(w, p, env, base, InEvents(p, env, k - 1, t), base,
                Event.Converted(Arg(k - 1), JsArg(env, Rank(p.args, k - 1))));
    }
  }

  /** Nothing is freed by what it records up to the call. */
  lemma {:induction false} QuietStart(w: World, p: Plan, env: Env, base: Bag)
    requires Describes(w, p)
    ensures Booked(w, p, env, base, CallCoverage.LogBeforeCall(p, env), base)
  {
    var k := ConvertedFrom(p, env, 0);
    var converted := InEvents(p, env, k, InstanceIn(p, Start));
    BookQuiet(w, p, env, base, Start, base, Event.Converted(Instance, None));
    QuietConversions(w, p, env, k, InstanceIn(p, Start), base);
    BookQuiet(w, p, env, base, converted, base, Called);
    if k < |p.args| {
      BookQuiet(w, p, env, base, converted, base, Refused(Arg(k), JsArg(env, Rank(p.args, k))));
    }
  }

  /** From C's call to the end of the out loop. */
  method CallAndShow(heap: Heap, w: World, p: Plan, env: Env, state: CM.CallCells)
    requires Describes(w, p) && Fits(state, p) && FailsOnValues(w, p, env) && CallCoverage.Calls(p, env)
    requires forall i :: 0 <= i < |p.args| ==> Entered(w, Now(state), state.offset, i)
    requires state.outs[state.offset - 1] == CM.Value(CNull)
    modifies heap`freed, state, state.outs
    ensures Booked(w, p, env, old(heap.freed), CallCoverage.LogBeforeRelease(p, env), heap.freed)
    ensures AllReady(w, p, env, Now(state), state.offset, Cleared(w, p, env), |p.args|)
    ensures state.failed <==> CallCoverage.MarkedFailed(p, env)
    ensures state.CallCompleted() <==> Completed(p, env)
  {
    QuietStart(w, p, env, heap.freed);
    Callee(w, p, env, state);
    var m := ShowAll(heap, w, p, env, state, heap.freed, CallCoverage.LogBeforeCall(p, env));
    FirstUnshown(p, env, m);
    state.failed := m <= |p.args|;
  }

  /** Where C is not called, the cells stay as in() left them. */
  lemma EnteredReady(w: World, p: Plan, env: Env, words: Words, offset: nat, k: nat)
    requires Describes(w, p) && offset > 0 && k == ConvertedFrom(p, env, 0) < |p.args|
    requires |words.ins| == |words.outs| == |words.originals| >= offset
    requires words.outs[offset - 1] == CM.Value(CNull)
    requires forall i :: 0 <= i < k ==> Entered(w, words, offset, i)
    ensures AllReady(w, p, env, words, offset, Cleared(w, p, env), k)
  {
    forall i | 0 <= i < k ensures Ready(w, p, env, words, offset, None, Arg(i)) {
      assert Entered(w, words, offset, i);
    }
  }

  /** Everything after the conversions. */
  method Finish(heap: Heap, w: World, p: Plan, env: Env, state: CM.CallCells, k: nat)
    requires Describes(w, p) && Fits(state, p) && FailsOnValues(w, p, env) && CallCoverage.Reached(p, env)
    requires k == ConvertedFrom(p, env, 0) && forall i :: 0 <= i < k ==> Entered(w, Now(state), state.offset, i)
    requires state.outs[state.offset - 1] == CM.Value(CNull)
    modifies heap`freed, state, state.outs
    ensures Booked(w, p, env, old(heap.freed), RunLog(p, env), heap.freed)
  {
    ghost var base := heap.freed;
    if k == |p.args| {
      CallAndShow(heap, w, p, env, state);
    } else {
      state.failed := true;
      QuietStart(w, p, env, base);
      EnteredReady(w, p, env, Now(state), state.offset, k);
    }
    CallCoverage.LogEndsWithReleases(p, env);
    ReleaseAll(heap, w, p, env, state, k, base, CallCoverage.LogBeforeRelease(p, env));
  }

  /** A call from the first conversion to the last release: what was freed is what the books of its log say, besides the
      temporary buffers of conversions. */
  method RunWhole(heap: Heap, num: Readings, w: World, p: Plan, env: Env, ins: Inputs)
    requires Predicted(w, p, env, num, ins, heap.next) && FailsOnValues(w, p, env) && CallCoverage.Reached(p, env)
    modifies heap
    ensures var k := ConvertedFrom(p, env, 0);
            && Within(p, RunLog(p, env))
            && heap.next == HeapBefore(w, num, ins, k, old(heap.next))
            && L.Freed(old(heap.freed),
                       Plus(ScratchBefore(w, num, ins, k, old(heap.next)), FreedBy(w, p, env, RunLog(p, env))),
                       heap.freed)
  {
    ghost var next, before := heap.next, heap.freed;
    var state := new CM.CallCells(p.isMethod, |p.args|);
    var k := EnterAll(heap, num, w, p, env, ins, state);
    ghost var base := heap.freed;
    Finish(heap, w, p, env, state, k);
    L.BothFreed(before, ScratchBefore(w, num, ins, k, next), base, FreedBy(w, p, env, RunLog(p, env)), heap.freed);
  }
}
