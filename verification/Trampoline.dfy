/** Reference counting of callback trampolines (CallbackIn in gi/arg-cache.cpp, GjsCallbackTrampoline in
    gi/function.cpp): a state machine over calls of one cached callback argument, callbacks from C, garbage
    collections and shutdown. Calls may overlap; the results say when the counts survive that. */
module Trampoline {
  import opened Basics

  datatype Scope = Call | Async | Notified | Forever

  /** A trampoline and its reference count, followed by those who hold a reference: the calls that created it and have
      not released it, C through the destroy notify, the extra reference of an async callback (first pending, then in
      the queue for the next collection), the forever list, and the invocations that are running. `stranded` is the
      reference nobody holds when in() gives up after creating the trampoline. */
  datatype Tramp = Tramp(scope: Scope, count: int, frames: nat, notify: bool, pending: bool, queued: nat, listed: bool,
                         running: nat, stranded: bool)

  /** `slot` is the closure remembered in the cached argument (m_ffi_closure), `frames` the calls in progress, the
      innermost last. */
  datatype State = State(tramps: seq<Tramp>, slot: Option<nat>, frames: seq<Option<nat>>)

  datatype Step =
    | PassNull                                          // in() with a null callback
    | Pass(scope: Scope, destroy: bool, wrongObject: bool)   // in() with a function
    | Release                                           // release() of the innermost call
    | Invoke(i: nat)
    | Return(i: nat, blocked: bool)                     // blocked: invalid, collecting, or on another thread
    | Notify(i: nat)
    | Collect
    | Shutdown

  function B(b: bool): nat { if b then 1 else 0 }

  function Holders(t: Tramp): nat {
    t.frames + B(t.notify) + B(t.pending) + t.queued + B(t.listed) + t.running + B(t.stranded)
  }

  // ----- transitions

  function Add(t: Tramp, n: int): Tramp { t.(count := t.count + n) }

  function Create(scope: Scope, destroy: bool): Tramp {
    var created := Tramp(scope, 1, 1, false, false, 0, false, 0, false);
    var shared := if destroy then Add(created, 1).(notify := true) else created;
    var kept := if scope.Async? then Add(shared, 1).(pending := true) else shared;
    if !destroy && (scope.Forever? || scope.Notified?) then Add(kept, 1).(listed := true) else kept
  }

  function Invoked(t: Tramp): Tramp {
    Add(t, 1).(running := t.running + 1)
  }

  /** An async callback that ran hands its extra reference to the queue for the next collection. */
  function Returned(t: Tramp, blocked: bool): Tramp
    requires t.running > 0
  {
    var done := Add(t, -1).(running := t.running - 1);
    if t.scope.Async? && !blocked then done.(pending := false, queued := t.queued + 1) else done
  }

  function DroppedByC(t: Tramp): Tramp { Add(t, -1).(notify := false) }

  function Collected(t: Tramp): Tramp { Add(t, 0 - t.queued as int).(queued := 0) }

  function Forgotten(t: Tramp): Tramp { if t.listed then Add(t, -1).(listed := false) else t }

  /** A collection empties the queue of async callbacks, shutdown the list of callbacks kept forever. */
  function Swept(ts: seq<Tramp>, shutdown: bool): (r: seq<Tramp>)
    ensures |r| == |ts|
    ensures forall i :: 0 <= i < |ts| ==> r[i] == if shutdown then Forgotten(ts[i]) else Collected(ts[i])
  {
    seq(|ts|, i requires 0 <= i < |ts| => if shutdown then Forgotten(ts[i]) else Collected(ts[i]))
  }

  function Update(s: State, i: nat, t: Tramp): State
    requires i < |s.tramps|
  {
    s.(tramps := s.tramps[i := t])
  }

  /** release() drops a reference to whatever the slot remembers. */
  function Unref(s: State): State {
    if s.slot.Some? && s.slot.value < |s.tramps| then Update(s, s.slot.value, Add(s.tramps[s.slot.value], -1)) else s
  }

  /** The innermost call ends. */
  function EndFrame(s: State): State
    requires s.frames != []
  {
    var frame, rest := s.frames[|s.frames| - 1], s.frames[..|s.frames| - 1];
    if frame.Some? && frame.value < |s.tramps| && s.tramps[frame.value].frames > 0
    then State(s.tramps[frame.value := s.tramps[frame.value].(frames := s.tramps[frame.value].frames - 1)], s.slot,
               rest)
    else s.(frames := rest)
  }

  function Passed(s: State, t: Tramp): State {
    if t.stranded then s.(tramps := s.tramps + [t])
    else State(s.tramps + [t], Some(|s.tramps|), s.frames + [Some(|s.tramps|)])
  }

  const STRANDED := Tramp(Notified, 1, 0, false, false, 0, false, 0, true)

  function Next(s: State, step: Step): State {
    match step
    case PassNull => State(s.tramps, None, s.frames + [None])
    case Pass(scope, destroy, wrongObject) =>
      Passed(s, if wrongObject && scope.Notified? then STRANDED else Create(scope, destroy))
    case Release => if s.frames == [] then s else EndFrame(Unref(s))
    case Invoke(i) => if i < |s.tramps| then Update(s, i, Invoked(s.tramps[i])) else s
    case Return(i, blocked) =>
      if i < |s.tramps| && s.tramps[i].running > 0 then Update(s, i, Returned(s.tramps[i], blocked)) else s
    case Notify(i) => if i < |s.tramps| then Update(s, i, DroppedByC(s.tramps[i])) else s
    case Collect => s.(tramps := Swept(s.tramps, false))
    case Shutdown => s.(tramps := Swept(s.tramps, true))
  }

  /** What the engine and C can do at all: invocations return, calls end, and a destroy notify runs once. */
  predicate Possible(s: State, step: Step) {
    match step
    case Release => s.frames != []
    case Invoke(i) => i < |s.tramps|
    case Return(i, _) => i < |s.tramps| && s.tramps[i].running > 0
    case Notify(i) => i < |s.tramps| && s.tramps[i].notify
    case _ => true
  }

  // ----- counts and holders

  predicate Counted(t: Tramp) { t.count == Holders(t) }

  predicate CountsHold(s: State) { forall i :: 0 <= i < |s.tramps| ==> Counted(s.tramps[i]) }

  /** How many of the calls in progress are those of trampoline `i`. */
  function Times(frames: seq<Option<nat>>, i: nat): nat {
    if frames == [] then 0 else Times(frames[..|frames| - 1], i) + B(frames[|frames| - 1] == Some(i))
  }

  /** True of every state that is reached: the holders named are there. */
  predicate Consistent(s: State) {
    && (s.slot.Some? ==> s.slot.value < |s.tramps|)
    && (forall f :: 0 <= f < |s.frames| && s.frames[f].Some? ==> s.frames[f].value < |s.tramps|)
    && (forall i :: 0 <= i < |s.tramps| ==> Framed(s, i))
  }

  predicate Framed(s: State, i: nat)
    requires i < |s.tramps|
  {
    s.tramps[i].frames == Times(s.frames, i)
  }

  const INITIAL: State := State([], None, [])

  function Top(frames: seq<Option<nat>>): Option<nat> {
    if frames == [] then None else frames[|frames| - 1]
  }

  /** The steps that keep the counts: a call ends while the slot still remembers its own callback, and an async callback
      that ran still has its extra reference to give away. */
  predicate Matched(s: State, step: Step) {
    match step
    case Release => s.slot == Top(s.frames)
    case Return(i, blocked) => blocked || i >= |s.tramps| || !s.tramps[i].scope.Async? || s.tramps[i].pending
    case _ => true
  }

  lemma {:induction false} TimesPush(frames: seq<Option<nat>>, f: Option<nat>, i: nat)
    ensures Times(frames + [f], i) == Times(frames, i) + B(f == Some(i))
  {
    assert (frames + [f])[..|frames|] == frames;
  }

  lemma {:induction false} TimesBeyond(frames: seq<Option<nat>>, n: nat)
    requires forall f :: 0 <= f < |frames| && frames[f].Some? ==> frames[f].value < n
    ensures Times(frames, n) == 0
  {
    if frames != [] { TimesBeyond(frames[..|frames| - 1], n); }
  }

  lemma {:induction false} UpdateConsistent(s: State, i: nat, t: Tramp)
    requires Consistent(s) && i < |s.tramps| && t.frames == s.tramps[i].frames
    ensures Consistent(Update(s, i, t))
    ensures CountsHold(s) ==> (CountsHold(Update(s, i, t)) <==> Counted(t))
  {
    var s' := Update(s, i, t);
    forall j | 0 <= j < |s'.tramps| ensures Framed(s', j) { assert Framed(s, j); }
    assert s'.tramps[i] == t;
  }

  lemma {:induction false} CountedStep(t: Tramp, blocked: bool)
    requires Counted(t)
    ensures Counted(Invoked(t)) && Counted(Collected(t)) && Counted(Forgotten(t))
    ensures t.notify ==> Counted(DroppedByC(t))
    ensures t.running > 0 ==> (Counted(Returned(t, blocked)) <==> blocked || !t.scope.Async? || t.pending)
  {
    if t.running > 0 { CountedReturn(t, blocked); }
  }

  lemma CountedReturn(t: Tramp, blocked: bool)
    requires Counted(t) && t.running > 0
    ensures Counted(Returned(t, blocked)) <==> blocked || !t.scope.Async? || t.pending
  {
  }

  lemma {:induction false} SweptConsistent(s: State, shutdown: bool)
    requires Consistent(s) && CountsHold(s)
    ensures var s' := s.(tramps := Swept(s.tramps, shutdown)); Consistent(s') && CountsHold(s')
  {
    var s' := s.(tramps := Swept(s.tramps, shutdown));
    forall j | 0 <= j < |s'.tramps| ensures Counted(s'.tramps[j]) && Framed(s', j) {
      CountedStep(s.tramps[j], false);
      assert Framed(s, j);
    }
  }

  lemma {:induction false} SweptFramed(s: State, shutdown: bool)
    requires Consistent(s)
    ensures Consistent(s.(tramps := Swept(s.tramps, shutdown)))
  {
    var s' := s.(tramps := Swept(s.tramps, shutdown));
    forall j | 0 <= j < |s'.tramps| ensures Framed(s', j) { assert Framed(s, j); }
  }

  lemma {:induction false} PassedConsistent(s: State, t: Tramp)
    requires Consistent(s) && Counted(t) && t.frames == B(!t.stranded)
    ensures Consistent(Passed(s, t)) && (CountsHold(s) ==> CountsHold(Passed(s, t)))
  {
    var s', n := Passed(s, t), |s.tramps|;
    TimesBeyond(s.frames, n);
    forall j | 0 <= j < |s'.tramps| ensures Framed(s', j) {
      TimesPush(s.frames, Some(n), j);
      if j < n { assert Framed(s, j); }
    }
  }

  lemma {:induction false} NullConsistent(s: State)
    requires Consistent(s)
    ensures Consistent(Next(s, PassNull)) && (CountsHold(s) ==> CountsHold(Next(s, PassNull)))
  {
    var s' := Next(s, PassNull);
    forall j | 0 <= j < |s'.tramps| ensures Framed(s', j) {
      TimesPush(s.frames, None, j);
      assert Framed(s, j);
    }
  }

  /** What the end of the innermost call does to trampoline `i`. */
  lemma {:induction false} ReleasedTramp(s: State, i: nat)
    requires Consistent(s) && s.frames != [] && i < |s.tramps|
    ensures var s', t := Next(s, Release), s.tramps[i];
            && |s'.tramps| == |s.tramps| && s'.slot == s.slot && s'.frames == s.frames[..|s.frames| - 1]
            && t.frames >= B(Top(s.frames) == Some(i))
            && s'.tramps[i] == t.(count := t.count - B(s.slot == Some(i)),
                               frames := t.frames - B(Top(s.frames) == Some(i)))
  {
    assert Framed(s, i);
    if Top(s.frames).Some? { assert Framed(s, Top(s.frames).value); }
  }

  /** What a step does to a trampoline that exists. */
  function After(s: State, step: Step, i: nat): Tramp
    requires i < |s.tramps|
  {
    var t := s.tramps[i];
    match step
    case Release =>
      var ended := Top(s.frames) == Some(i) && t.frames > 0;
      t.(count := t.count - B(s.slot == Some(i)), frames := if ended then t.frames - 1 else t.frames)
    case Invoke(j) => if i == j then Invoked(t) else t
    case Return(j, blocked) => if i == j && t.running > 0 then Returned(t, blocked) else t
    case Notify(j) => if i == j then DroppedByC(t) else t
    case Collect => Collected(t)
    case Shutdown => Forgotten(t)
    case _ => t
  }

  lemma {:induction false} NextTramp(s: State, step: Step, i: nat)
    requires Consistent(s) && Possible(s, step) && i < |s.tramps|
    ensures var s' := Next(s, step);
            |s'.tramps| == |s.tramps| + B(step.Pass?) && s'.tramps[i] == After(s, step, i)
  {
    if step.Release? { ReleasedTramp(s, i); }
  }

  lemma {:induction false} ReleaseConsistent(s: State)
    requires Consistent(s) && s.frames != []
    ensures Consistent(Next(s, Release))
    ensures CountsHold(s) ==> (CountsHold(Next(s, Release)) <==> s.slot == Top(s.frames))
  {
    var s' := Next(s, Release);
    forall i | 0 <= i < |s.tramps|
      ensures |s'.tramps| == |s.tramps| && Framed(s', i)
      ensures Counted(s.tramps[i]) ==> (Counted(s'.tramps[i]) <==> (s.slot == Some(i) <==> Top(s.frames) == Some(i)))
    {
      ReleasedTramp(s, i);
      assert Framed(s, i);
    }
    if |s.tramps| == 0 { assert s'.frames == s.frames[..|s.frames| - 1]; }
    if CountsHold(s) && CountsHold(s') {
      if s.slot.Some? { assert Counted(s'.tramps[s.slot.value]); }
      if Top(s.frames).Some? { assert Counted(s'.tramps[Top(s.frames).value]); }
    }
  }

  /** From a state whose counts hold, a step keeps them if and only if it is matched. */
  lemma {:induction false} StepIff(s: State, step: Step)
    requires Consistent(s) && CountsHold(s) && Possible(s, step)
    ensures Consistent(Next(s, step)) && (CountsHold(Next(s, step)) <==> Matched(s, step))
  {
    match step
    case PassNull => NullConsistent(s);
    case Pass(scope, destroy, wrongObject) =>
      PassedConsistent(s, if wrongObject && scope.Notified? then STRANDED else Create(scope, destroy));
    case Release => ReleaseConsistent(s);
    case Invoke(i) =>
      CountedStep(s.tramps[i], false);
      UpdateConsistent(s, i, Invoked(s.tramps[i]));
    case Return(i, blocked) =>
      CountedStep(s.tramps[i], blocked);
      UpdateConsistent(s, i, Returned(s.tramps[i], blocked));
    case Notify(i) =>
      CountedStep(s.tramps[i], false);
      UpdateConsistent(s, i, DroppedByC(s.tramps[i]));
    case Collect => SweptConsistent(s, false);
    case Shutdown => SweptConsistent(s, true);
  }

  /** Whatever the counts, the holders named are there. */
  lemma {:induction false} StepConsistent(s: State, step: Step)
    requires Consistent(s) && Possible(s, step)
    ensures Consistent(Next(s, step))
  {
    match step
    case PassNull => NullConsistent(s);
    case Pass(scope, destroy, wrongObject) =>
      PassedConsistent(s, if wrongObject && scope.Notified? then STRANDED else Create(scope, destroy));
    case Release => ReleaseConsistent(s);
    case Invoke(i) => UpdateConsistent(s, i, Invoked(s.tramps[i]));
    case Return(i, blocked) => UpdateConsistent(s, i, Returned(s.tramps[i], blocked));
    case Notify(i) => UpdateConsistent(s, i, DroppedByC(s.tramps[i]));
    case Collect => SweptFramed(s, false);
    case Shutdown => SweptFramed(s, true);
  }

  lemma {:induction false} ReleasedFrames(s: State)
    requires Consistent(s) && s.frames != [] && Top(s.frames).Some?
    ensures s.tramps[Top(s.frames).value].frames > 0
  {
    assert Framed(s, Top(s.frames).value);
  }

  // ----- the code that takes and drops the references

  class Callbacks {
    var tramps: seq<Tramp>
    var ffiClosure: Option<nat>           // CallbackIn::m_ffi_closure, by index of its trampoline
    var frames: seq<Option<nat>>

    constructor ()
      ensures Now() == INITIAL
    {
      tramps, ffiClosure, frames := [], None, [];
    }

    function Now(): State
      reads this
    {
      State(tramps, ffiClosure, frames)
    }

    method Ref(i: nat)
      requires i < |tramps|
      modifies this`tramps
      ensures tramps == old(tramps)[i := Add(old(tramps)[i], 1)]
    {
      tramps := tramps[i := tramps[i].(count := tramps[i].count + 1)];
    }

    method Unref(i: nat)
      requires i < |tramps|
      modifies this`tramps
      ensures tramps == old(tramps)[i := Add(old(tramps)[i], -1)]
    {
      tramps := tramps[i := tramps[i].(count := tramps[i].count - 1)];
    }

    /** CallbackIn::in */
    method In(scope: Scope, isNull: bool, hasDestroy: bool, wrongObject: bool) returns (ok: bool)
      modifies this
      ensures ok <==> isNull || !(wrongObject && scope.Notified?)
      ensures Now() == Next(old(Now()), if isNull then PassNull else Pass(scope, hasDestroy, wrongObject))
    {
      if isNull {
        ffiClosure, frames := None, frames + [None];
        return true;
      }
      var i := |tramps|;
      if scope.Notified? && wrongObject {
        tramps := tramps + [STRANDED];
        return false;
      }
      var t := Tramp(scope, 1, 1, false, false, 0, false, 0, false);
      if hasDestroy { t := t.(count := t.count + 1, notify := true); }
      if scope.Async? { t := t.(count := t.count + 1, pending := true); }
      if !hasDestroy && (scope.Forever? || scope.Notified?) { t := t.(count := t.count + 1, listed := true); }
      tramps, ffiClosure, frames := tramps + [t], Some(i), frames + [Some(i)];
      return true;
    }

    /** CallbackIn::release, at the end of the innermost call */
    method Release()
      requires frames != [] && Consistent(Now())
      modifies this
      ensures Now() == Next(old(Now()), Step.Release)
    {
      if Top(frames).Some? { ReleasedFrames(Now()); }
      if ffiClosure.Some? { Unref(ffiClosure.value); }
      var ended := frames[|frames| - 1];
      if ended.Some? {
        tramps := tramps[ended.value := tramps[ended.value].(frames := tramps[ended.value].frames - 1)];
      }
      frames := frames[..|frames| - 1];
    }

    /** invoke_callback_closure and callback_closure; `blocked` when JS must not run. */
    method InvokeCallback(i: nat, blocked: bool)
      requires i < |tramps|
      modifies this
      ensures Now() == Next(Next(old(Now()), Invoke(i)), Return(i, blocked))
    {
      Ref(i);
      tramps := tramps[i := tramps[i].(running := tramps[i].running + 1)];
      assert Now() == Next(old(Now()), Invoke(i));
      if !blocked && tramps[i].scope.Async? {
        tramps := tramps[i := tramps[i].(pending := false, queued := tramps[i].queued + 1)];
      }
      Unref(i);
      tramps := tramps[i := tramps[i].(running := tramps[i].running - 1)];
    }

    /** The clearing of m_async_closures when a collection begins, and of s_forever_closure_list at shutdown. */
    method Sweep(shutdown: bool)
      modifies this
      ensures Now() == Next(old(Now()), if shutdown then Step.Shutdown else Step.Collect)
    {
      ghost var was := tramps;
      var i := 0;
      while i < |tramps|
        invariant 0 <= i <= |tramps| == |was| && ffiClosure == old(ffiClosure) && frames == old(frames)
        invariant forall j :: 0 <= j < |was| ==> tramps[j] == if j < i then Swept(was, shutdown)[j] else was[j]
      {
        var t := tramps[i];
        if shutdown {
          if t.listed { t := t.(count := t.count - 1, listed := false); }
        } else {
          t := t.(count := t.count - t.queued, queued := 0);
        }
        tramps := tramps[i := t];
        i := i + 1;
      }
      assert tramps == Swept(was, shutdown);
    }
  }
}
