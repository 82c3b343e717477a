/** The life of a closure (gi/closure.cpp, gi/closure.h): invalidated, invoked, destroyed, and outlived by its context
    or not, in any order. */
module Closure {
  /** Everything that changes in one closure's life. `rooted` says how it was created; `registered` is its entry among
      the context's notifiers; `counted` its contribution to the closure counter; `invalid` the flag GLib keeps so
      that invalidation happens once. `walked` records that the context's finalization called the closure back. */
  datatype Life = Life(rooted: bool, cx: bool, callable: bool, registered: bool, counted: int, invalid: bool,
                       destroyed: bool, contextDown: bool, walked: bool)

  datatype Step = Invalidate | FinalizeContext | Invoke | Destroy

  function Born(rooted: bool): Life {
    Life(rooted, true, true, rooted, 1, false, false, false, false)
  }

  // ----- the specification, function by function

  function WithoutContext(l: Life): Life {
    if !l.cx then l
    else if l.callable && l.rooted then l.(registered := false, cx := false)
    else l.(cx := false)
  }

  function AfterReset(l: Life): Life {
    WithoutContext(l).(callable := false, cx := false)
  }

  /** The invalidate notifier: which one it is was decided at creation. */
  function AfterNotifier(l: Life): Life {
    var dropped := l.(counted := l.counted - 1);
    if l.rooted && !l.callable then dropped else AfterReset(dropped)
  }

  /** g_closure_invalidate */
  function AfterInvalidate(l: Life): Life {
    if l.invalid then l else AfterNotifier(l.(invalid := true))
  }

  /** The context walks its notifiers, without removing any, and is gone. */
  function AfterFinalize(l: Life): Life {
    var called := l.registered && !l.contextDown;
    var after := if called && l.callable then AfterInvalidate(AfterReset(l.(cx := false))) else l;
    after.(contextDown := true, walked := l.walked || called)
  }

  function Next(l: Life, step: Step): Life {
    match step
    case Invalidate => AfterInvalidate(l)
    case FinalizeContext => AfterFinalize(l)
    case Invoke => if l.callable then l else AfterReset(l)
    case Destroy => WithoutContext(AfterInvalidate(l)).(destroyed := true)
  }

  /** Nobody uses a destroyed closure; a context goes down once. */
  predicate Enabled(l: Life, step: Step) {
    if step.FinalizeContext? then !l.contextDown else !l.destroyed
  }

  // ----- what holds at every moment of every life

  predicate Sound(l: Life) {
    && (l.cx <==> l.callable)
    && (l.cx <==> !l.invalid)
    && l.counted == (if l.invalid then 0 else 1)
    && (l.destroyed ==> l.invalid)
    && (l.registered <==> if l.contextDown then l.walked else l.rooted && l.cx)
    && (l.walked ==> l.contextDown && l.invalid)
  }

  lemma {:induction false} StepKeepsSound(l: Life, step: Step)
    requires Sound(l) && Enabled(l, step)
    ensures Sound(Next(l, step))
    ensures Next(l, step).counted <= l.counted
  {
  }

  function Run(l: Life, steps: seq<Step>): Life
    decreases |steps|
  {
    if steps == [] then l else Run(Next(l, steps[0]), steps[1..])
  }

  predicate Legal(l: Life, steps: seq<Step>)
    decreases |steps|
  {
    steps == [] || (Enabled(l, steps[0]) && Legal(Next(l, steps[0]), steps[1..]))
  }

  lemma {:induction false} RunKeepsSound(l: Life, steps: seq<Step>)
    requires Sound(l) && Legal(l, steps)
    ensures Sound(Run(l, steps)) && Run(l, steps).rooted == l.rooted
    decreases |steps|
  {
    if steps != [] {
      StepKeepsSound(l, steps[0]);
      RunKeepsSound(Next(l, steps[0]), steps[1..]);
    }
  }

  /** In every order of events: the closure is valid exactly while its callable is held, and until it is invalidated;
      while the context lives, a notifier is registered exactly for a rooted closure that is valid; and the counter
      has dropped by one exactly if the closure has been invalidated. */
  lemma {:induction false} EveryLife(rooted: bool, steps: seq<Step>)
    requires Legal(Born(rooted), steps)
    ensures var l := Run(Born(rooted), steps);
            && (l.cx <==> l.callable) && (l.cx <==> !l.invalid)
            && (!l.contextDown ==> (l.registered <==> rooted && l.cx))
            && l.counted == (if l.invalid then 0 else 1)
  {
    RunKeepsSound(Born(rooted), steps);
  }

  /** The context went down at step `k`, and nothing but invocations came before. */
  predicate EndsFirst(steps: seq<Step>, k: int) {
    0 <= k < |steps| && steps[k].FinalizeContext? && forall j :: 0 <= j < k ==> steps[j].Invoke?
  }

  lemma EndsFirstTail(steps: seq<Step>)
    requires steps != []
    ensures (exists k :: EndsFirst(steps, k)) <==>
            steps[0].FinalizeContext? || (steps[0].Invoke? && exists k :: EndsFirst(steps[1..], k))
  {
    var rest := steps[1..];
    if steps[0].FinalizeContext? { assert EndsFirst(steps, 0); }
    if k :| EndsFirst(steps, k) && k > 0 {
      assert forall j :: 0 <= j < k - 1 ==> rest[j] == steps[j + 1];
      assert EndsFirst(rest, k - 1);
    }
    if k :| EndsFirst(rest, k) && steps[0].Invoke? {
      assert forall j :: 1 <= j <= k ==> steps[j] == rest[j - 1];
      assert EndsFirst(steps, k + 1);
    }
  }

  /** A context that is down leaves its notifier set as it is. */
  lemma {:induction false} SetStays(l: Life, steps: seq<Step>)
    requires Sound(l) && Legal(l, steps) && l.contextDown
    ensures Run(l, steps).registered == l.registered && Run(l, steps).contextDown
    decreases |steps|
  {
    if steps != [] {
      StepKeepsSound(l, steps[0]);
      OnlyFinalizing(l, steps[0]);
      SetStays(Next(l, steps[0]), steps[1..]);
    }
  }

  lemma {:induction false} StaleFrom(l: Life, steps: seq<Step>)
    requires Sound(l) && Legal(l, steps) && !l.contextDown && Run(l, steps).contextDown
    ensures Run(l, steps).registered <==> l.rooted && l.cx && exists k :: EndsFirst(steps, k)
    decreases |steps|
  {
    StepKeepsSound(l, steps[0]);
    EndsFirstTail(steps);
    if steps[0].FinalizeContext? {
      SetStays(Next(l, steps[0]), steps[1..]);
    } else {
      OnlyFinalizing(l, steps[0]);
      StaleFrom(Next(l, steps[0]), steps[1..]);
    }
  }

  /** What a context leaves registered when it goes down: a closure's entry stays, for good, if and only if the closure
      is rooted and nothing but invocations had happened to it until then. */
  lemma {:induction false} StaleIff(rooted: bool, steps: seq<Step>)
    requires Legal(Born(rooted), steps) && Run(Born(rooted), steps).contextDown
    ensures Run(Born(rooted), steps).registered <==> rooted && exists k :: EndsFirst(steps, k)
  {
    StaleFrom(Born(rooted), steps);
  }

  /** The context and the closure end by the steps that end them, and the closure is invalid exactly after it has been
      invalidated or destroyed, or its context ended while it was rooted. */
  lemma {:induction false} InvalidIff(rooted: bool, steps: seq<Step>)
    requires Legal(Born(rooted), steps)
    ensures var l := Run(Born(rooted), steps);
            && (l.contextDown <==> FinalizeContext in steps) && (l.destroyed <==> Destroy in steps)
            && (l.invalid <==> Invalidate in steps || Destroy in steps || (rooted && FinalizeContext in steps))
  {
    EndsFrom(Born(rooted), steps);
  }

  lemma {:induction false} EndsFrom(l: Life, steps: seq<Step>)
    requires Sound(l) && Legal(l, steps)
    ensures Run(l, steps).contextDown <==> l.contextDown || FinalizeContext in steps
    ensures Run(l, steps).destroyed <==> l.destroyed || Destroy in steps
    ensures Run(l, steps).invalid <==>
            l.invalid || Invalidate in steps || Destroy in steps || (l.rooted && FinalizeContext in steps)
    decreases |steps|
  {
    if steps != [] {
      var step, rest := steps[0], steps[1..];
      assert forall x :: x in steps <==> x == step || x in rest;
      StepKeepsSound(l, step);
      StepEnds(l, step);
      EndsFrom(Next(l, step), rest);
    }
  }

  lemma StepEnds(l: Life, step: Step)
    requires Sound(l) && Enabled(l, step)
    ensures var l' := Next(l, step);
            && l'.rooted == l.rooted && (l'.contextDown <==> l.contextDown || step.FinalizeContext?)
            && (l'.destroyed <==> l.destroyed || step.Destroy?)
            && (l'.invalid <==> l.invalid || step.Invalidate? || step.Destroy? || (l.rooted && step.FinalizeContext?))
  {
  }

  /** So a destroyed closure is registered with a context exactly if that was called to its end first. No living context
      has it registered, and one that went down calls nobody again. */
  lemma {:induction false} NothingCallsTheDead(rooted: bool, steps: seq<Step>)
    requires Legal(Born(rooted), steps)
    ensures var l := Run(Born(rooted), steps);
            && (l.destroyed ==> (l.registered <==> rooted && exists k :: EndsFirst(steps, k)))
            && (l.destroyed && l.registered ==> l.contextDown)
            && (l.contextDown ==> !Enabled(l, FinalizeContext))
  {
    RunKeepsSound(Born(rooted), steps);
    if Run(Born(rooted), steps).contextDown {
      StaleIff(rooted, steps);
    } else if k :| EndsFirst(steps, k) {
      FinalizedIsDown(Born(rooted), steps);
    }
  }

  lemma {:induction false} FinalizedIsDown(l: Life, steps: seq<Step>)
    requires Sound(l) && Legal(l, steps) && FinalizeContext in steps
    ensures Run(l, steps).contextDown
    decreases |steps|
  {
    StepKeepsSound(l, steps[0]);
    if steps[0].FinalizeContext? {
      SetStays(Next(l, steps[0]), steps[1..]);
    } else {
      FinalizedIsDown(Next(l, steps[0]), steps[1..]);
    }
  }

  lemma ResetSpares(l: Life)
    ensures WithoutContext(l).contextDown == l.contextDown
    ensures AfterReset(l).contextDown == l.contextDown
  {
  }

  lemma InvalidateSpares(l: Life)
    ensures AfterInvalidate(l).contextDown == l.contextDown
  {
    var dropped := l.(invalid := true, counted := l.counted - 1);
    ResetSpares(dropped);
    assert !l.invalid ==> AfterInvalidate(l) in {dropped, AfterReset(dropped)};
  }

  lemma OnlyFinalizing(l: Life, step: Step)
    requires !step.FinalizeContext?
    ensures Next(l, step).contextDown == l.contextDown
  {
    ResetSpares(l);
    InvalidateSpares(l);
    ResetSpares(AfterInvalidate(l));
  }

  /** Without context finalization the notifier set is exact to the end. */
  lemma {:induction false} ContextDownOnlyByFinalizing(l: Life, steps: seq<Step>)
    requires FinalizeContext !in steps
    ensures Run(l, steps).contextDown == l.contextDown
    decreases |steps|
  {
    if steps != [] {
      assert steps[0] in steps;
      OnlyFinalizing(l, steps[0]);
      ContextDownOnlyByFinalizing(Next(l, steps[0]), steps[1..]);
    }
  }

  lemma {:induction false} UnregisteredAtTheEnd(rooted: bool, steps: seq<Step>)
    requires Legal(Born(rooted), steps) && FinalizeContext !in steps && Run(Born(rooted), steps).destroyed
    ensures !Run(Born(rooted), steps).registered && Run(Born(rooted), steps).counted == 0
  {
    RunKeepsSound(Born(rooted), steps);
    ContextDownOnlyByFinalizing(Born(rooted), steps);
  }

  /** A closure that its context called back stays in the dead context's notifier set even after it is destroyed: the
      walk must not modify what it iterates over. */
  lemma StaleEntry()
    ensures var l := Next(Next(Born(true), FinalizeContext), Destroy);
            Legal(Born(true), [FinalizeContext, Destroy]) && l.destroyed && l.registered && l.contextDown
  {
    assert [FinalizeContext, Destroy][1..] == [Destroy];
  }

  // ----- the code

  class Context {
    var alive: bool
    var notifiers: set<GjsClosure>
    var closureCounter: int

    constructor ()
      ensures alive && notifiers == {} && closureCounter == 0
    {
      alive, notifiers, closureCounter := true, {}, 0;
    }
  }

  class GjsClosure {
    const context: Context
    const root: bool
    var cx: Context?
    var callable: bool
    var invalid: bool             // kept by GLib
    var destroyed: bool
    ghost const others: int       // the closure counter without this closure
    ghost var walked: bool        // the context's finalization has called back

    constructor (context: Context, root: bool)
      requires context.alive
      modifies context
      ensures this.context == context && this.root == root && Valid() && Now() == Born(root)
      ensures context.alive && context.closureCounter == old(context.closureCounter) + 1
      ensures context.notifiers == old(context.notifiers) + if root then {this} else {}
    {
      this.context, this.root := context, root;
      cx, callable, invalid, destroyed := context, true, false, false;
      others, walked := context.closureCounter, false;
      new;
      context.closureCounter := context.closureCounter + 1;
      if root { context.notifiers := context.notifiers + {this}; }
    }

    ghost predicate Valid()
      reads this
    {
      cx == null || cx == context
    }

    ghost function Now(): Life
      reads this, context
    {
      Life(root, cx != null, callable, this in context.notifiers, context.closureCounter - others, invalid, destroyed,
           !context.alive, walked)
    }

    /** Nobody else's notifier is touched. */
    ghost predicate Frame(notifiers: set<GjsClosure>)
      reads context
    {
      context.notifiers == notifiers || context.notifiers == notifiers - {this}
    }

    method UnsetContext()
      requires Valid()
      modifies this`cx, context`notifiers
      ensures Now() == WithoutContext(old(Now()))
      ensures cx == null && Frame(old(context.notifiers))
    {
      if cx == null { return; }
      if callable && root { cx.notifiers := cx.notifiers - {this}; }
      cx := null;
    }

    method Reset()
      requires Valid()
      modifies this`cx, this`callable, context`notifiers
      ensures Now() == AfterReset(old(Now()))
      ensures cx == null && Frame(old(context.notifiers))
    {
      UnsetContext();
      callable := false;
      cx := null;
    }

    method ClosureInvalidated()
      requires Valid()
      modifies this`cx, this`callable, context`notifiers, context`closureCounter
      ensures root ==> Now() == AfterNotifier(old(Now()))
      ensures Frame(old(context.notifiers)) && Valid()
    {
      context.closureCounter := context.closureCounter - 1;
      if !callable { return; }
      Reset();
    }

    method ClosureSetInvalid()
      requires Valid()
      modifies this`cx, this`callable, context`notifiers, context`closureCounter
      ensures !root ==> Now() == AfterNotifier(old(Now()))
      ensures Frame(old(context.notifiers)) && Valid()
    {
      Reset();
      context.closureCounter := context.closureCounter - 1;
    }

    method GInvalidate()
      requires Valid()
      modifies this`cx, this`callable, this`invalid, context`notifiers, context`closureCounter
      ensures Now() == Next(old(Now()), Invalidate)
      ensures Frame(old(context.notifiers)) && Valid()
    {
      if invalid { return; }
      invalid := true;
      if root { ClosureInvalidated(); } else { ClosureSetInvalid(); }
    }

    /** Called by the context while it walks its notifiers. */
    method GlobalContextFinalized()
      requires Valid()
      modifies this`cx, this`callable, this`invalid, context`notifiers, context`closureCounter
      ensures Now() == if old(callable) then AfterInvalidate(AfterReset(old(Now()).(cx := false))) else old(Now())
      ensures old(callable) && old(cx) != null ==> context.notifiers == old(context.notifiers)
      ensures Valid()
    {
      if callable {
        cx := null;
        Reset();
        GInvalidate();
      }
    }

    method InvokeClosure() returns (called: bool)
      requires Valid()
      modifies this`cx, this`callable, context`notifiers
      ensures called == old(callable) && Now() == Next(old(Now()), Invoke) && Valid()
    {
      if !callable {
        Reset();
        return false;
      }
      return true;
    }

    /** The last g_closure_unref: GLib invalidates, then runs the finalize notifier. */
    method Finalize()
      requires Valid()
      modifies this`cx, this`callable, this`invalid, this`destroyed, context`notifiers, context`closureCounter
      ensures Now() == Next(old(Now()), Destroy) && Valid()
    {
      GInvalidate();
      UnsetContext();
      destroyed := true;
    }
  }
}
