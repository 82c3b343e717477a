/** Whole runs of the trampoline machine, told from the steps alone, as a caller and C see them: exactly when the
    counts are right throughout, and exactly when a callback that C may call is alive. */
module TrampolineRuns {
  import opened Basics
  import opened Trampoline

  // ----- runs

  function Front<T>(s: seq<T>): seq<T>
    requires s != []
  {
    s[..|s| - 1]
  }

  function Last<T>(s: seq<T>): T
    requires s != []
  {
    s[|s| - 1]
  }

  function Run(steps: seq<Step>): State {
    if steps == [] then INITIAL else Next(Run(Front(steps)), Last(steps))
  }

  predicate PossibleRun(steps: seq<Step>) {
    steps == [] || (PossibleRun(Front(steps)) && Possible(Run(Front(steps)), Last(steps)))
  }

  /** The counts have held all along. */
  predicate AlwaysCounted(steps: seq<Step>) {
    CountsHold(Run(steps)) && (steps != [] ==> AlwaysCounted(Front(steps)))
  }

  // ----- the same told from the steps alone, as a caller sees them

  /** The trampolines created so far; each is known by its number. */
  function Created(steps: seq<Step>): nat {
    if steps == [] then 0 else Created(Front(steps)) + B(Last(steps).Pass?)
  }

  predicate GivesUp(step: Step) { step.Pass? && step.wrongObject && step.scope.Notified? }

  /** The callback passed last; None if that was null. */
  function LastPassed(steps: seq<Step>): Option<nat> {
    if steps == [] || Last(steps).PassNull? then None
    else if Last(steps).Pass? && !GivesUp(Last(steps)) then Some(Created(Front(steps)))
    else LastPassed(Front(steps))
  }

  /** The calls in progress, by the callback they passed, the innermost last. */
  function InProgress(steps: seq<Step>): seq<Option<nat>> {
    if steps == [] then []
    else
      var before, step := InProgress(Front(steps)), Last(steps);
      if step.PassNull? then before + [None]
      else if step.Pass? && !GivesUp(step) then before + [Some(Created(Front(steps)))]
      else if step.Release? && before != [] then Front(before)
      else before
  }

  /** The step that created trampoline `i`. */
  function Creation(steps: seq<Step>, i: nat): (step: Step)
    requires i < Created(steps)
    ensures step.Pass?
  {
    if i < Created(Front(steps)) then Creation(Front(steps), i) else Last(steps)
  }

  /** How often trampoline `i` was invoked, and returned from a JS function that ran. */
  function Invocations(steps: seq<Step>, i: nat): nat {
    if steps == [] then 0 else Invocations(Front(steps), i) + B(Last(steps) == Invoke(i))
  }

  function RanReturns(steps: seq<Step>, i: nat): nat {
    if steps == [] then 0 else RanReturns(Front(steps), i) + B(Last(steps) == Return(i, false))
  }

  /** How often its JS function has run since the last collection. */
  function RanSinceCollection(steps: seq<Step>, i: nat): nat {
    if steps == [] || Last(steps).Collect? then 0
    else RanSinceCollection(Front(steps), i) + B(Last(steps) == Return(i, false))
  }

  function Returns(steps: seq<Step>, i: nat): nat {
    if steps == [] then 0 else Returns(Front(steps), i) + B(Last(steps).Return? && Last(steps).i == i)
  }

  /** The forever list was emptied after trampoline `i` was created. */
  predicate ShutSince(steps: seq<Step>, i: nat) {
    steps != [] && i < Created(Front(steps)) && (Last(steps).Shutdown? || ShutSince(Front(steps), i))
  }

  predicate KeptForever(creation: Step)
    requires creation.Pass?
  {
    !creation.destroy && (creation.scope.Forever? || creation.scope.Notified?) && !GivesUp(creation)
  }

  /** The discipline a caller can check: whenever a call ends, the callback passed last is its own, or both were null;
      and no async callback runs twice. */
  predicate Disciplined(steps: seq<Step>) {
    steps == [] || (Disciplined(Front(steps)) && Allowed(Front(steps), Last(steps)))
  }

  predicate Allowed(before: seq<Step>, step: Step) {
    match step
    case Release => InProgress(before) == [] || LastPassed(before) == Top(InProgress(before))
    case Return(i, blocked) =>
      blocked || i >= Created(before) || !Creation(before, i).scope.Async? || RanReturns(before, i) == 0
    case _ => true
  }

  /** The state of one trampoline, from its history. */
  predicate Follows(steps: seq<Step>, i: nat, t: Tramp)
    requires i < Created(steps)
  {
    var c := Creation(steps, i);
    && t.scope == c.scope
    && t.stranded == GivesUp(c)
    && (t.pending <==> c.scope.Async? && RanReturns(steps, i) == 0)
    && t.queued == (if c.scope.Async? then RanSinceCollection(steps, i) else 0)
    && (t.notify <==> c.destroy && !GivesUp(c) && Notify(i) !in steps)
    && (t.listed <==> KeptForever(c) && !ShutSince(steps, i))
    && t.running + Returns(steps, i) == Invocations(steps, i)
  }

  predicate Tracks(steps: seq<Step>, s: State) {
    && |s.tramps| == Created(steps) && s.slot == LastPassed(steps) && s.frames == InProgress(steps)
    && forall i {:trigger Follows(steps, i, s.tramps[i])} :: 0 <= i < |s.tramps| ==> Follows(steps, i, s.tramps[i])
  }

  /** Steps speak of trampolines that exist. */
  predicate Bounded(steps: seq<Step>) {
    steps == [] || (Bounded(Front(steps)) && SpeaksOf(Last(steps), Created(Front(steps))))
  }

  predicate SpeaksOf(step: Step, n: nat) {
    match step
    case Invoke(i) => i < n
    case Return(i, _) => i < n
    case Notify(i) => i < n
    case _ => true
  }

  lemma {:induction false} Unborn(steps: seq<Step>, i: nat)
    requires Bounded(steps) && Created(steps) <= i
    ensures Invocations(steps, i) == 0 && Returns(steps, i) == 0 && RanReturns(steps, i) == 0 && Notify(i) !in steps
    ensures RanSinceCollection(steps, i) == 0
    ensures !ShutSince(steps, i)
  {
    if steps != [] {
      Unborn(Front(steps), i);
      assert forall x :: x in steps <==> x in Front(steps) || x == Last(steps);
    }
  }

  lemma {:induction false} FollowsOld(steps: seq<Step>, s: State, i: nat)
    requires steps != [] && i < |s.tramps| == Created(Front(steps)) && Follows(Front(steps), i, s.tramps[i])
    requires Possible(s, Last(steps)) && Consistent(s)
    ensures |Next(s, Last(steps)).tramps| == Created(steps) && Follows(steps, i, Next(s, Last(steps)).tramps[i])
  {
    NextTramp(s, Last(steps), i);
    FollowsAfter(steps, s, i);
  }

  lemma {:induction false} FollowsAfter(steps: seq<Step>, s: State, i: nat)
    requires steps != [] && i < |s.tramps| == Created(Front(steps)) && Follows(Front(steps), i, s.tramps[i])
    requires Possible(s, Last(steps))
    ensures Follows(steps, i, After(s, Last(steps), i))
  {
    assert Notify(i) in steps <==> Notify(i) in Front(steps) || Notify(i) == Last(steps);
  }

  lemma {:induction false} FollowsNew(steps: seq<Step>, s: State)
    requires steps != [] && |s.tramps| == Created(Front(steps)) && Last(steps).Pass? && Bounded(steps)
    ensures |Next(s, Last(steps)).tramps| == Created(steps)
            && Follows(steps, Created(Front(steps)), Next(s, Last(steps)).tramps[Created(Front(steps))])
  {
    Unborn(Front(steps), Created(Front(steps)));
    assert forall x :: x in steps <==> x in Front(steps) || x == Last(steps);
  }

  lemma {:induction false} TracksNext(steps: seq<Step>, s: State)
    requires steps != [] && Consistent(s) && Possible(s, Last(steps)) && Tracks(Front(steps), s)
    requires Last(steps).Pass? ==> Follows(steps, Created(Front(steps)), Next(s, Last(steps)).tramps[|s.tramps|])
    requires |Next(s, Last(steps)).tramps| == Created(steps)
    ensures Tracks(steps, Next(s, Last(steps)))
  {
    var s' := Next(s, Last(steps));
    forall i | 0 <= i < |s'.tramps| ensures Follows(steps, i, s'.tramps[i]) {
      if i < |s.tramps| { FollowsOld(steps, s, i); }
    }
  }

  /** The state of the machine is what the steps tell. */
  lemma {:induction false} RunTracks(steps: seq<Step>)
    requires PossibleRun(steps)
    ensures Consistent(Run(steps)) && Tracks(steps, Run(steps)) && Bounded(steps)
  {
    if steps != [] {
      var s := Run(Front(steps));
      RunTracks(Front(steps));
      StepConsistent(s, Last(steps));
      if Last(steps).Pass? { FollowsNew(steps, s); }
      TracksNext(steps, s);
    } else {
      assert Consistent(INITIAL);
    }
  }

  // ----- main results

  /** In every run, overlapping calls and repeated callbacks included, each count has equalled the number of its
      holders all along if and only if the run was disciplined. */
  lemma {:induction false} CountsExactIff(steps: seq<Step>)
    requires PossibleRun(steps)
    ensures AlwaysCounted(steps) <==> Disciplined(steps)
  {
    if steps != [] {
      var before, s := Front(steps), Run(Front(steps));
      CountsExactIff(before);
      RunTracks(before);
      if AlwaysCounted(before) {
        StepIff(s, Last(steps));
        if Last(steps).Return? { assert Follows(before, Last(steps).i, s.tramps[Last(steps).i]); }
      }
    }
  }

  /** No call is entered while another is in progress, unless both pass null. */
  predicate Serial(steps: seq<Step>) {
    steps == [] || (Serial(Front(steps)) && EntersAlone(Front(steps), Last(steps)))
  }

  predicate EntersAlone(before: seq<Step>, step: Step) {
    if step.PassNull? then Top(InProgress(before)) == None
    else step.Pass? && !GivesUp(step) ==> InProgress(before) == []
  }

  /** No async callback runs twice. */
  predicate FiresOnce(steps: seq<Step>) {
    steps == [] || (FiresOnce(Front(steps)) && OnceMore(Front(steps), Last(steps)))
  }

  predicate OnceMore(before: seq<Step>, step: Step) {
    step.Return? && !step.blocked && step.i < Created(before) && Creation(before, step.i).scope.Async?
    ==> RanReturns(before, step.i) == 0
  }

  /** Serial calls are disciplined. */
  lemma {:induction false} SerialIsDisciplined(steps: seq<Step>)
    requires Serial(steps) && FiresOnce(steps)
    ensures Disciplined(steps)
    ensures InProgress(steps) != [] ==> LastPassed(steps) == Top(InProgress(steps))
    ensures forall f :: 0 <= f < |InProgress(steps)| - 1 ==> InProgress(steps)[f] == None
    ensures |InProgress(steps)| > 1 ==> LastPassed(steps) == None
  {
    if steps != [] { SerialIsDisciplined(Front(steps)); }
  }

  /** In every serial run each count is the number of its holders; a trampoline dies exactly when the last has let
      go. */
  lemma {:induction false} CountsHolders(steps: seq<Step>, i: nat)
    requires PossibleRun(steps) && Serial(steps) && FiresOnce(steps) && i < |Run(steps).tramps|
    ensures var t := Run(steps).tramps[i];
            && t.count == Holders(t)
            && (t.count == 0 <==>
                && t.frames == 0 && !t.notify && !t.pending && t.queued == 0 && !t.listed && t.running == 0
                && !t.stranded)
  {
    SerialIsDisciplined(steps);
    CountsExactIff(steps);
    assert Counted(Run(steps).tramps[i]);
  }

  /** What the scope entitles C to, by what has happened: during the call; once; until it ran the destroy notify; or for
      ever. */
  predicate MayCall(steps: seq<Step>, i: nat)
    requires i < Created(steps)
  {
    var c := Creation(steps, i);
    && !GivesUp(c)
    && match c.scope
       case Call => Some(i) in InProgress(steps)
       case Async => Invocations(steps, i) == 0
       case _ => c.destroy ==> Notify(i) !in steps
  }

  lemma {:induction false} InProgressTimes(frames: seq<Option<nat>>, i: nat)
    ensures Times(frames, i) > 0 <==> Some(i) in frames
  {
    if frames != [] {
      InProgressTimes(frames[..|frames| - 1], i);
      assert forall f :: f in frames <==> f in frames[..|frames| - 1] || f == frames[|frames| - 1];
    }
  }

  lemma {:induction false} RanAtMost(steps: seq<Step>, i: nat)
    ensures RanReturns(steps, i) <= Returns(steps, i)
  {
    if steps != [] { RanAtMost(Front(steps), i); }
  }

  /** A callback that C may call is dead exactly if it was to be kept for ever, the list of those was emptied at
      shutdown, and neither a call nor an invocation holds it. */
  lemma {:induction false} AliveUnlessShutDown(steps: seq<Step>, i: nat)
    requires PossibleRun(steps) && Disciplined(steps) && i < Created(steps) && MayCall(steps, i)
    ensures var t := Run(steps).tramps;
            i < |t| && t[i].count >= 0
            && (t[i].count == 0 <==>
                && KeptForever(Creation(steps, i)) && ShutSince(steps, i) && Some(i) !in InProgress(steps)
                && Invocations(steps, i) == Returns(steps, i))
  {
    RunTracks(steps);
    CountsExactIff(steps);
    var s := Run(steps);
    assert Counted(s.tramps[i]) && Framed(s, i) && Follows(steps, i, s.tramps[i]);
    InProgressTimes(s.frames, i);
    RanAtMost(steps, i);
    AlwaysSound(steps, i);
  }

  /** Only async callbacks are queued, a trampoline belongs to one call at most, a stranded one to none. */
  predicate Sound(t: Tramp) {
    (t.queued > 0 ==> t.scope.Async?) && t.frames <= 1 && (t.stranded ==> t.frames == 0)
  }

  lemma {:induction false} SoundAfter(s: State, step: Step, i: nat)
    requires i < |s.tramps| && Sound(s.tramps[i])
    ensures Sound(After(s, step, i))
  {
  }

  lemma {:induction false} AlwaysSound(steps: seq<Step>, i: nat)
    requires PossibleRun(steps) && i < |Run(steps).tramps|
    ensures Sound(Run(steps).tramps[i])
  {
    var s, step := Run(Front(steps)), Last(steps);
    RunTracks(Front(steps));
    if i < |s.tramps| {
      AlwaysSound(Front(steps), i);
      SoundAfter(s, step, i);
      NextTramp(s, step, i);
    } else {
      NewestSound(s, step, i);
    }
  }

  lemma NewestSound(s: State, step: Step, i: nat)
    requires |s.tramps| <= i < |Next(s, step).tramps|
    ensures Sound(Next(s, step).tramps[i])
  {
  }

  /** C invokes only what it may call at the time. */
  predicate Entitled(steps: seq<Step>) {
    steps == [] || (Entitled(Front(steps)) && Rightful(Front(steps), Last(steps)))
  }

  predicate Rightful(before: seq<Step>, step: Step) {
    step.Invoke? && step.i < Created(before) ==> MayCall(before, step.i)
  }

  lemma DeadAfter(s: State, step: Step, i: nat)
    requires i < |s.tramps| && Possible(s, step) && Counted(s.tramps[i]) && s.tramps[i].count == 0
    requires Counted(After(s, step, i))
    ensures After(s, step, i).count == B(step == Invoke(i))
  {
    var t := s.tramps[i];
    assert t.frames == 0 && !t.notify && !t.pending && t.queued == 0 && !t.listed && t.running == 0 && !t.stranded;
  }

  /** In a disciplined run a dead trampoline comes to life in no other way than by being invoked. */
  lemma {:induction false} RevivedByInvoking(steps: seq<Step>, i: nat)
    requires steps != [] && PossibleRun(steps) && Disciplined(steps) && i < Created(Front(steps))
    requires i < |Run(Front(steps)).tramps| && Run(Front(steps)).tramps[i].count == 0
    ensures i < |Run(steps).tramps| && Run(steps).tramps[i].count == B(Last(steps) == Invoke(i))
  {
    var before, s := Front(steps), Run(Front(steps));
    RunTracks(before);
    CountsExactIff(before);
    CountsExactIff(steps);
    NextTramp(s, Last(steps), i);
    assert Counted(s.tramps[i]) && Counted(Run(steps).tramps[i]);
    DeadAfter(s, Last(steps), i);
  }

  /** So a dead trampoline stays dead if C invokes only what it may call; except that a callback kept for ever, which is
      dead after shutdown, may still be invoked. */
  lemma {:induction false} DeadStaysDead(steps: seq<Step>, n: nat, i: nat)
    requires n <= |steps| && PossibleRun(steps) && Disciplined(steps) && Entitled(steps)
    requires i < Created(steps[..n]) && i < |Run(steps[..n]).tramps| && Run(steps[..n]).tramps[i].count == 0
    ensures i < Created(steps) && i < |Run(steps).tramps|
    ensures Run(steps).tramps[i].count == 0 || (KeptForever(Creation(steps, i)) && ShutSince(steps, i))
  {
    if n == |steps| {
      assert steps[..n] == steps;
    } else {
      assert Front(steps)[..n] == steps[..n];
      DeadStaysDead(Front(steps), n, i);
      StaysDead(steps, i);
    }
  }

  lemma {:induction false} StaysDead(steps: seq<Step>, i: nat)
    requires steps != [] && PossibleRun(steps) && Disciplined(steps) && Entitled(steps)
    requires i < Created(Front(steps)) && i < |Run(Front(steps)).tramps|
    requires Run(Front(steps)).tramps[i].count == 0
             || (KeptForever(Creation(Front(steps), i)) && ShutSince(Front(steps), i))
    ensures i < Created(steps) && i < |Run(steps).tramps|
    ensures Run(steps).tramps[i].count == 0 || (KeptForever(Creation(steps, i)) && ShutSince(steps, i))
  {
    RunTracks(steps);
    if Run(Front(steps)).tramps[i].count == 0 {
      RevivedByInvoking(steps, i);
      if Last(steps) == Invoke(i) { AliveUnlessShutDown(Front(steps), i); }
    }
  }

  /** When a call ends in a disciplined run, its callback dies exactly if nothing but the call held it. */
  lemma {:induction false} CallEnds(steps: seq<Step>, i: nat)
    requires PossibleRun(steps) && Disciplined(steps) && Top(InProgress(steps)) == Some(i) == LastPassed(steps)
    ensures i < |Run(steps).tramps|
    ensures Next(Run(steps), Release).tramps[i].count == 0
       <==> var t := Run(steps).tramps[i];
            !t.notify && !t.pending && t.queued == 0 && !t.listed && t.running == 0
  {
    RunTracks(steps);
    CountsExactIff(steps);
    var s := Run(steps);
    assert Counted(s.tramps[i]) && Framed(s, i) && Follows(steps, i, s.tramps[i]);
    AlwaysSound(steps, i);
    InProgressTimes(s.frames, i);
    ReleasedTramp(s, i);
  }

  // ----- inputs that fail

  lemma RunSnoc(steps: seq<Step>, step: Step)
    ensures Run(steps + [step]) == Next(Run(steps), step)
    ensures PossibleRun(steps + [step]) <==> PossibleRun(steps) && Possible(Run(steps), step)
    ensures Disciplined(steps + [step]) <==> Disciplined(steps) && Allowed(steps, step)
    ensures Created(steps + [step]) == Created(steps) + B(step.Pass?)
    ensures forall i :: Invocations(steps + [step], i) == Invocations(steps, i) + B(step == Invoke(i))
  {
    assert Front(steps + [step]) == steps;
  }

  /** A trampoline of scope call, held by nothing but calls. */
  function InCall(count: int, frames: nat): Tramp {
    Tramp(Call, count, frames, false, false, 0, false, 0, false)
  }

  const P: Step := Pass(Call, false, false)

  /** Overlapping calls: the inner call's trampoline is released twice, the outer one's not at all. */
  lemma OverlapBreaksCounts()
    ensures var steps := [P] + [P] + [Release] + [Release];
            && PossibleRun(steps) && !Disciplined(steps)
            && Run(steps) == State([InCall(1, 0), InCall(-1, 0)], Some(1), [])
  {
    var s1, s2, s3 := [P], [P] + [P], [P] + [P] + [Release];
    RunSnoc([], P);
    assert [] + [P] == s1;
    assert Create(Call, false) == InCall(1, 1);
    assert Run(s1) == State([InCall(1, 1)], Some(0), [Some(0)]);
    RunSnoc(s1, P);
    assert Run(s2) == State([InCall(1, 1), InCall(1, 1)], Some(1), [Some(0), Some(1)]);
    RunSnoc(s2, Release);
    ReleaseInner(Run(s2));
    RunSnoc(s3, Release);
    ReleaseOuter(Run(s3));
    RunTracks(s3);
    assert !Allowed(s3, Release);
  }

  lemma ReleaseInner(s: State)
    requires s == State([InCall(1, 1), InCall(1, 1)], Some(1), [Some(0), Some(1)])
    ensures Next(s, Release) == State([InCall(1, 1), InCall(0, 0)], Some(1), [Some(0)])
  {
    assert Unref(s).tramps == [InCall(1, 1), InCall(0, 1)];
    assert Next(s, Release).tramps == [InCall(1, 1), InCall(0, 0)];
    assert s.frames[..1] == [Some(0)];
  }

  lemma ReleaseOuter(s: State)
    requires s == State([InCall(1, 1), InCall(0, 0)], Some(1), [Some(0)])
    ensures Next(s, Release) == State([InCall(1, 0), InCall(-1, 0)], Some(1), [])
  {
    assert Unref(s).tramps == [InCall(1, 1), InCall(-1, 0)];
    assert Next(s, Release).tramps == [InCall(1, 0), InCall(-1, 0)];
  }

  /** A trampoline that nothing remembers but the fields given. */
  function OfScope(scope: Scope, count: int, pending: bool, queued: nat, listed: bool, running: nat): Tramp {
    Tramp(scope, count, 0, false, pending, queued, listed, running, false)
  }

  /** The run so far has one trampoline and no call in progress. */
  lemma OneMore(steps: seq<Step>, t: Tramp, step: Step, t': Tramp)
    requires Run(steps) == State([t], Some(0), []) && PossibleRun(steps)
    requires step.Invoke? || step.Return? || step.Collect? || step.Shutdown?
    requires step.Invoke? ==> step.i == 0 && t' == Invoked(t)
    requires step.Return? ==> step.i == 0 && t.running > 0 && t' == Returned(t, step.blocked)
    requires step.Collect? ==> t' == Collected(t)
    requires step.Shutdown? ==> t' == Forgotten(t)
    ensures Run(steps + [step]) == State([t'], Some(0), []) && PossibleRun(steps + [step])
  {
    RunSnoc(steps, step);
    assert Next(Run(steps), step).tramps == [t'];
  }

  lemma PassedAndReleased(scope: Scope)
    ensures var steps := [Pass(scope, false, false)] + [Release];
            PossibleRun(steps) && Run(steps) == State([Add(Create(scope, false), -1).(frames := 0)], Some(0), [])
  {
    var p := Pass(scope, false, false);
    RunSnoc([], p);
    assert [] + [p] == [p];
    var s := Run([p]);
    assert s == State([Create(scope, false)], Some(0), [Some(0)]);
    RunSnoc([p], Release);
    ReleaseOnly(Create(scope, false));
  }

  lemma ReleaseOnly(t: Tramp)
    requires t.frames == 1
    ensures Next(State([t], Some(0), [Some(0)]), Release) == State([Add(t, -1).(frames := 0)], Some(0), [])
  {
    var s := State([t], Some(0), [Some(0)]);
    assert Unref(s).tramps == [Add(t, -1)];
    assert Next(s, Release).tramps == [Add(t, -1).(frames := 0)];
  }

  /** An async callback that C fires twice is queued twice, with one reference to pay for it. */
  lemma FiringTwiceBreaksCounts()
    ensures var steps := [Pass(Async, false, false)] + [Release] + [Invoke(0)] + [Return(0, false)]
                         + [Invoke(0)] + [Return(0, false)] + [Collect];
            && PossibleRun(steps) && !Disciplined(steps)
            && Run(steps) == State([OfScope(Async, -1, false, 0, false, 0)], Some(0), [])
  {
    var s2 := [Pass(Async, false, false)] + [Release];
    PassedAndReleased(Async);
    var s3 := s2 + [Invoke(0)];
    OneMore(s2, OfScope(Async, 1, true, 0, false, 0), Invoke(0), OfScope(Async, 2, true, 0, false, 1));
    var s4 := s3 + [Return(0, false)];
    OneMore(s3, OfScope(Async, 2, true, 0, false, 1), Return(0, false), OfScope(Async, 1, false, 1, false, 0));
    var s5 := s4 + [Invoke(0)];
    OneMore(s4, OfScope(Async, 1, false, 1, false, 0), Invoke(0), OfScope(Async, 2, false, 1, false, 1));
    var s6 := s5 + [Return(0, false)];
    OneMore(s5, OfScope(Async, 2, false, 1, false, 1), Return(0, false), OfScope(Async, 1, false, 2, false, 0));
    OneMore(s6, OfScope(Async, 1, false, 2, false, 0), Collect, OfScope(Async, -1, false, 0, false, 0));
    CountsExactIff(s6 + [Collect]);
    assert !Counted(Run(s6 + [Collect]).tramps[0]);
  }

  lemma CreationSnoc(steps: seq<Step>, step: Step, i: nat)
    requires i < Created(steps)
    ensures i < Created(steps + [step]) && Creation(steps + [step], i) == Creation(steps, i)
  {
    assert Front(steps + [step]) == steps;
  }

  lemma PassedAlone(p: Step)
    requires p.Pass? && !GivesUp(p)
    ensures Created([p]) == 1 && Creation([p], 0) == p && LastPassed([p]) == Some(0) && InProgress([p]) == [Some(0)]
    ensures Disciplined([p])
  {
    assert Front([p]) == [];
    assert InProgress([p]) == [] + [Some(0)];
    assert Disciplined([]) && Allowed([], p);
  }

  /** A callback kept for ever is dead after shutdown, although C may still call it. */
  lemma DeadAfterShutdown()
    ensures var steps := [Pass(Forever, false, false)] + [Release] + [Shutdown];
            && PossibleRun(steps) && Disciplined(steps) && Created(steps) == 1 && MayCall(steps, 0)
            && Run(steps).tramps == [OfScope(Forever, 0, false, 0, false, 0)]
  {
    var p := Pass(Forever, false, false);
    var s2 := [p] + [Release];
    PassedAndReleased(Forever);
    OneMore(s2, OfScope(Forever, 1, false, 0, true, 0), Shutdown, OfScope(Forever, 0, false, 0, false, 0));
    PassedAlone(p);
    RunSnoc([p], Release);
    RunSnoc(s2, Shutdown);
    CreationSnoc([p], Release, 0);
    CreationSnoc(s2, Shutdown, 0);
  }
}
