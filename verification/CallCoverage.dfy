/** What every run of the call protocol has in common: which JS argument each slot receives, which values come back, and
    that the release pass visits what the in pass processed. */
module CallCoverage {
  import opened Basics
  import opened Invoke

  function Occurs(t: Trace, e: Event): nat {
    match t
    case Start => 0
    case Then(before, last) => Occurs(before, e) + if last == e then 1 else 0
  }

  /** A run that reached the conversion of arguments. */
  predicate Reached(p: Plan, env: Env) {
    var o := Outcome(p, env);
    o.Failed? || o.ThrewGError? || o.Returned?
  }

  /** All arguments were converted, so that C was called. */
  predicate Calls(p: Plan, env: Env) { ConvertedFrom(p, env, 0) == |p.args| }

  /** state.failed at the time of release. */
  predicate MarkedFailed(p: Plan, env: Env) {
    !Calls(p, env) || ShownFrom(p, env, 0) <= |p.args|
  }

  // ----- the phases of a run

  /** The log of a run up to the call of C, or to the conversion that failed. */
  function LogBeforeCall(p: Plan, env: Env): Trace {
    var k := ConvertedFrom(p, env, 0);
    var converted := InEvents(p, env, k, InstanceIn(p, Start));
    if k < |p.args| then RefusedAt(p, env, k, converted) else Then(converted, Called)
  }

  /** How many positions are asked to convert back: up to the first that fails. */
  function Asked(p: Plan, env: Env): (n: nat)
    ensures n <= |p.args| + 1
  {
    var m := ShownFrom(p, env, 0);
    if m <= |p.args| then m + 1 else m
  }

  /** The log of a run before the release pass. */
  function LogBeforeRelease(p: Plan, env: Env): Trace {
    if Calls(p, env) then OutEvents(p, env, Asked(p, env), LogBeforeCall(p, env)) else LogBeforeCall(p, env)
  }

  lemma LogEndsWithReleases(p: Plan, env: Env)
    requires Reached(p, env)
    ensures RunLog(p, env)
         == ReleaseEvents(p, env, MarkedFailed(p, env), ConvertedFrom(p, env, 0) + 2, LogBeforeRelease(p, env))
  {
  }

  // ----- how often an event occurs in each phase

  lemma {:induction false} OccursIn(p: Plan, env: Env, k: nat, t: Trace, e: Event)
    requires k <= |p.args|
    ensures var here := e.Converted? && e.pos.Arg? && e.pos.i < k && e.js == JsArg(env, Rank(p.args, e.pos.i));
            Occurs(InEvents(p, env, k, t), e) == Occurs(t, e) + if here then 1 else 0
  {
    if k > 0 { OccursIn(p, env, k - 1, t, e); }
  }

  lemma {:induction false} OccursOut(p: Plan, env: Env, m: nat, t: Trace, e: Event)
    requires m <= |p.args| + 1 && (e.Converted? || e.Released? || e.Called?)
    ensures Occurs(OutEvents(p, env, m, t), e) == Occurs(t, e)
  {
    if m > 0 { OccursOut(p, env, m - 1, t, e); }
  }

  /** The place of a position in the release pass. */
  function Turn(pos: Pos): nat {
    match pos
    case Instance => 0
    case Return => 1
    case Arg(i) => i + 2
  }

  predicate InPlan(p: Plan, pos: Pos) { pos.Arg? ==> pos.i < |p.args| }

  lemma {:induction false} OccursRelease(p: Plan, env: Env, failed: bool, n: nat, t: Trace, e: Event)
    requires n <= |p.args| + 2 && (e.Released? ==> InPlan(p, e.pos)) && !e.SavedReturn?
    ensures var here := e.Released? && Turn(e.pos) < n && !Skipped(p, failed, e.pos)
                        && !(env.wantsRaw && e.pos.Return?);
            Occurs(ReleaseEvents(p, env, failed, n, t), e) == Occurs(t, e) + if here then 1 else 0
  {
    if n > 0 { OccursRelease(p, env, failed, n - 1, t, e); }
  }

  // ----- properties of every run

  /** In every run, the conversions are those of the arguments before the first that cannot be converted, each once,
      with the JS argument of its rank; C is called once if there is no such argument, and not at all otherwise. */
  lemma {:induction false} Conversions(p: Plan, env: Env, i: nat, js: Option<nat>)
    requires Reached(p, env) && i < |p.args|
    ensures Occurs(RunLog(p, env), Converted(Arg(i), js))
         == if i < ConvertedFrom(p, env, 0) && js == JsArg(env, Rank(p.args, i)) then 1 else 0
    ensures Occurs(RunLog(p, env), Called) == if Calls(p, env) then 1 else 0
  {
    Phases(p, env, Converted(Arg(i), js));
    Phases(p, env, Called);
  }

  /** How often an event of interest occurs in a whole run. */
  function Expected(p: Plan, env: Env, e: Event): nat
    requires Interesting(p, e)
  {
    match e
    case Converted(pos, js) =>
      if pos.i < ConvertedFrom(p, env, 0) && js == JsArg(env, Rank(p.args, pos.i)) then 1 else 0
    case Called => if Calls(p, env) then 1 else 0
    case Released(pos) =>
      if Turn(pos) < ConvertedFrom(p, env, 0) + 2 && !Skipped(p, MarkedFailed(p, env), pos)
         && !(env.wantsRaw && pos.Return?)
      then 1 else 0
  }

  predicate Interesting(p: Plan, e: Event) {
    match e
    case Converted(pos, _) => pos.Arg? && pos.i < |p.args|
    case Called => true
    case Released(pos) => InPlan(p, pos)
    case _ => false
  }

  lemma {:induction false} OccursBeforeCall(p: Plan, env: Env, e: Event)
    requires Interesting(p, e)
    ensures Occurs(LogBeforeCall(p, env), e) == if e.Released? then 0 else Expected(p, env, e)
  {
    OccursIn(p, env, ConvertedFrom(p, env, 0), InstanceIn(p, Start), e);
  }

  lemma {:induction false} OccursBeforeRelease(p: Plan, env: Env, e: Event)
    requires Interesting(p, e)
    ensures Occurs(LogBeforeRelease(p, env), e) == Occurs(LogBeforeCall(p, env), e)
  {
    if Calls(p, env) { OccursOut(p, env, Asked(p, env), LogBeforeCall(p, env), e); }
  }

  lemma {:induction false} Phases(p: Plan, env: Env, e: Event)
    requires Reached(p, env) && Interesting(p, e)
    ensures Occurs(RunLog(p, env), e) == Expected(p, env, e)
  {
    LogEndsWithReleases(p, env);
    OccursBeforeCall(p, env, e);
    OccursBeforeRelease(p, env, e);
    OccursRelease(p, env, MarkedFailed(p, env), ConvertedFrom(p, env, 0) + 2, LogBeforeRelease(p, env), e);
  }

  // ----- which outcome a run has, from what can go wrong

  /** Nothing stands against converting the arguments. */
  predicate Admitted(p: Plan, env: Env) {
    && |p.args| <= MAX_ARGS
    && env.passed >= p.jsIn
    && !(env.passed > p.jsIn && env.warningsThrow)
    && (p.isMethod ==> Instance !in env.inFails)
  }

  predicate AllConvert(p: Plan, env: Env) { forall i :: 0 <= i < |p.args| ==> Converts(p, env, i) }

  predicate AllShow(p: Plan, env: Env) { forall n :: 0 <= n <= |p.args| ==> Shows(p, env, n) }

  /** The release of a position that is released when nothing failed before. */
  predicate ReleaseFailsFor(p: Plan, env: Env, pos: Pos) {
    pos in env.releaseFails && InPlan(p, pos) && SlotAt(p, pos).Some? && !(env.wantsRaw && pos.Return?)
  }

  predicate SomeReleaseFails(p: Plan, env: Env) {
    exists pos :: pos in env.releaseFails && ReleaseFailsFor(p, env, pos)
  }

  lemma {:induction false} ReleaseFailsIff(p: Plan, env: Env, n: nat)
    requires n <= |p.args| + 2
    ensures ReleaseFails(p, env, false, n)
       <==> exists pos :: pos in env.releaseFails && ReleaseFailsFor(p, env, pos) && Turn(pos) < n
  {
    if n > 0 {
      ReleaseFailsIff(p, env, n - 1);
      var last := ReleasePos(n - 1);
      if ReleaseFailsAt(p, env, false, last) { assert ReleaseFailsFor(p, env, last); }
      forall pos | pos in env.releaseFails && ReleaseFailsFor(p, env, pos) && Turn(pos) == n - 1 ensures pos == last {
        assert pos == ReleasePos(Turn(pos));
      }
    }
  }

  /** The four refusals, whichever comes first, and the three outcomes of a run that is not refused. */
  lemma {:induction false} OutcomeIff(p: Plan, env: Env)
    ensures var o := Outcome(p, env);
            && (o.TooManyArguments? <==> |p.args| > MAX_ARGS)
            && (o.MoreArgumentsNeeded? <==> |p.args| <= MAX_ARGS && env.passed < p.jsIn)
            && (o.WarningThrown? <==> |p.args| <= MAX_ARGS && env.passed > p.jsIn && env.warningsThrow)
            && (o.InstanceRefused? <==>
                && |p.args| <= MAX_ARGS && env.passed >= p.jsIn && !(env.passed > p.jsIn && env.warningsThrow)
                && p.isMethod && Instance in env.inFails)
    ensures var o, well := Outcome(p, env), AllConvert(p, env) && AllShow(p, env) && !SomeReleaseFails(p, env);
            && (o.Failed? <==> Admitted(p, env) && !well)
            && (o.ThrewGError? <==> Admitted(p, env) && well && p.canThrow && env.setsError)
            && (o.Returned? <==> Admitted(p, env) && well && !(p.canThrow && env.setsError))
  {
    var k, m := ConvertedFrom(p, env, 0), ShownFrom(p, env, 0);
    assert AllConvert(p, env) <==> k == |p.args| by { if k < |p.args| { assert !Converts(p, env, k); } }
    assert AllShow(p, env) <==> m == |p.args| + 1 by { if m <= |p.args| { assert !Shows(p, env, m); } }
    ReleaseFailsIff(p, env, |p.args| + 2);
  }

  /** C is called in just the runs that are not refused and in which every argument is converted; and the instance of a
      method is converted in just the runs that are not refused. */
  lemma {:induction false} CalledIff(p: Plan, env: Env)
    ensures Occurs(RunLog(p, env), Called) == if Admitted(p, env) && AllConvert(p, env) then 1 else 0
    ensures Occurs(RunLog(p, env), Converted(Instance, None)) == if Admitted(p, env) && p.isMethod then 1 else 0
  {
    OutcomeIff(p, env);
    if Reached(p, env) {
      var k := ConvertedFrom(p, env, 0);
      assert AllConvert(p, env) <==> k == |p.args| by { if k < |p.args| { assert !Converts(p, env, k); } }
      Phases(p, env, Called);
      InstanceOnce(p, env);
    }
  }

  lemma {:induction false} InstanceOnce(p: Plan, env: Env)
    requires Reached(p, env)
    ensures Occurs(RunLog(p, env), Converted(Instance, None)) == if p.isMethod then 1 else 0
  {
    var e := Event.Converted(Instance, None);
    LogEndsWithReleases(p, env);
    OccursIn(p, env, ConvertedFrom(p, env, 0), InstanceIn(p, Start), e);
    if Calls(p, env) { OccursOut(p, env, Asked(p, env), LogBeforeCall(p, env), e); }
    OccursRelease(p, env, MarkedFailed(p, env), ConvertedFrom(p, env, 0) + 2, LogBeforeRelease(p, env), e);
  }

  /** The slots JS supplies are numbered in order, without gaps: slot `i` takes the JS argument of its rank, no two
      slots take the same one, and together they take exactly the declared number. */
  lemma {:induction false} Ranks(p: Plan, env: Env, i: nat, j: nat)
    requires Consistent(p) && Reached(p, env) && i < j < |p.args|
    requires p.args[i].Some? && !p.args[i].value.skipIn && p.args[j].Some? && !p.args[j].value.skipIn
    ensures JsArg(env, Rank(p.args, i)) == Some(Rank(p.args, i))
    ensures JsArg(env, Rank(p.args, j)) == Some(Rank(p.args, j))
    ensures Rank(p.args, i) < Rank(p.args, j) < p.jsIn
  {
    RankGrows(p.args, i + 1, j);
    RankGrows(p.args, j + 1, |p.args|);
  }

  ghost predicate Supplied(p: Plan, passed: nat) {
    forall i :: 0 <= i < |p.args| && p.args[i].Some? && !p.args[i].value.skipIn ==> Rank(p.args, i) < passed
  }

  /** Every slot that needs a JS argument has one in all calls that are let through, if and only if the in count is
      not below the number of such slots. */
  lemma {:induction false} SuppliedIff(p: Plan)
    ensures (forall passed: nat :: passed >= p.jsIn ==> Supplied(p, passed)) <==> Rank(p.args, |p.args|) <= p.jsIn
  {
    if Rank(p.args, |p.args|) <= p.jsIn {
      forall passed: nat | passed >= p.jsIn ensures Supplied(p, passed) {
        forall i | 0 <= i < |p.args| && p.args[i].Some? && !p.args[i].value.skipIn ensures Rank(p.args, i) < passed {
          RankGrows(p.args, i + 1, |p.args|);
        }
      }
    } else {
      var i := EveryArgumentUsed(p, p.jsIn, |p.args|);
      assert !Supplied(p, p.jsIn);
    }
  }

  lemma {:induction false} RankGrows(args: seq<Option<Slot>>, i: nat, j: nat)
    requires i <= j <= |args|
    ensures Rank(args, i) <= Rank(args, j)
  {
    if i < j { RankGrows(args, i, j - 1); }
  }

  /** Every JS argument the function declares has its slot. */
  lemma {:induction false} EveryArgumentUsed(p: Plan, r: nat, n: nat) returns (i: nat)
    requires n <= |p.args| && r < Rank(p.args, n)
    ensures i < n && p.args[i].Some? && !p.args[i].value.skipIn && Rank(p.args, i) == r
  {
    if r < Rank(p.args, n - 1) {
      i := EveryArgumentUsed(p, r, n - 1);
    } else {
      i := n - 1;
    }
  }

  /** A completed run gives JS exactly the declared number of values: the return value first if it has one, then those
      of the out arguments in order. */
  lemma {:induction false} CollectsDeclared(p: Plan, env: Env)
    requires Runnable(p) && Outcome(p, env).Returned?
    ensures env.wantsRaw ==> Outcome(p, env).values == []
    ensures var values := Outcome(p, env).values;
            !env.wantsRaw ==>
              && |values| == p.jsOut
              && (forall pos :: pos in values <==> InPlan(p, pos) && !pos.Instance? && HasOut(SlotAt(p, pos)))
              && forall a, b :: 0 <= a < b < |values| ==> Turn(values[a]) < Turn(values[b])
  {
    if !env.wantsRaw { DeclaredCollected(p, env); }
  }

  lemma {:induction false} DeclaredCollected(p: Plan, env: Env)
    requires Runnable(p) && Outcome(p, env).Returned? && !env.wantsRaw
    ensures |Outcome(p, env).values| == p.jsOut
    ensures forall pos :: pos in Outcome(p, env).values <==> InPlan(p, pos) && !pos.Instance? && HasOut(SlotAt(p, pos))
    ensures forall a, b :: 0 <= a < b < p.jsOut ==> Turn(Outcome(p, env).values[a]) < Turn(Outcome(p, env).values[b])
  {
    CollectsAll(p, |p.args| + 1);
    forall pos | InPlan(p, pos) && !pos.Instance? ensures pos in Outcome(p, env).values <==> HasOut(SlotAt(p, pos)) {
      CollectedIffOut(p, |p.args| + 1, pos);
    }
    CollectedOrdered(p, |p.args| + 1);
  }

  lemma {:induction false} CollectedIffOut(p: Plan, m: nat, pos: Pos)
    requires m <= |p.args| + 1 && InPlan(p, pos) && !pos.Instance?
    ensures pos in Collected(p, m) <==> Turn(pos) <= m && HasOut(SlotAt(p, pos))
  {
    if m > 0 { CollectedIffOut(p, m - 1, pos); }
  }

  lemma {:induction false} CollectedOrdered(p: Plan, m: nat)
    requires m <= |p.args| + 1
    ensures forall a :: 0 <= a < |Collected(p, m)| ==>
                          var pos := Collected(p, m)[a]; !pos.Instance? && InPlan(p, pos) && Turn(pos) <= m
    ensures forall a, b :: 0 <= a < b < |Collected(p, m)| ==> Turn(Collected(p, m)[a]) < Turn(Collected(p, m)[b])
  {
    if m > 0 { CollectedOrdered(p, m - 1); }
  }

  /** The release pass visits the instance and the return value, if there are any, and precisely the arguments that were
      converted, once each; except that after a failure it passes over the slots JS did not supply. */
  lemma {:induction false} Releases(p: Plan, env: Env, pos: Pos)
    requires Reached(p, env) && InPlan(p, pos)
    ensures Occurs(RunLog(p, env), Event.Released(pos)) ==
            if SlotAt(p, pos).Some?
               && (pos.Arg? ==> Occurs(RunLog(p, env), Converted(pos, JsArg(env, Rank(p.args, pos.i)))) == 1)
               && !(MarkedFailed(p, env) && SlotAt(p, pos).value.skipIn)
               && !(env.wantsRaw && pos.Return?)
            then 1 else 0
  {
    Phases(p, env, Event.Released(pos));
    if pos.Arg? { Conversions(p, env, pos.i, JsArg(env, Rank(p.args, pos.i))); }
  }

  /** The place of an event in a call of a function with `n - 2` arguments. */
  function Stage(n: nat, e: Event): nat {
    match e
    case Converted(pos, _) => Turn(pos)
    case Refused(pos, _) => Turn(pos)
    case Called => n
    case Shown(pos) => n + Turn(pos)
    case Unshown(pos) => n + Turn(pos)
    case Released(pos) => 2 * n + Turn(pos)
    case SavedReturn => 2 * n + Turn(Return)
  }

  /** Each event comes at a later stage than the one before it. */
  predicate Ordered(n: nat, t: Trace) {
    t.Then? ==> Ordered(n, t.before) && (t.before.Then? ==> Stage(n, t.before.e) < Stage(n, t.e))
  }

  /** The events so far come before stage `m`. */
  predicate Before(n: nat, t: Trace, m: nat) { Ordered(n, t) && (t.Then? ==> Stage(n, t.e) < m) }

  /** Conversions, the call, conversions back and releases follow one another, each in the order of the arguments, with
      the instance and the return value first. */
  lemma {:induction false} EventsInOrder(p: Plan, env: Env)
    ensures Ordered(|p.args| + 2, RunLog(p, env))
  {
    if Reached(p, env) {
      LogEndsWithReleases(p, env);
      InOrdered(p, env, ConvertedFrom(p, env, 0), InstanceIn(p, Start));
      if Calls(p, env) { OutOrdered(p, env, Asked(p, env), LogBeforeCall(p, env)); }
      ReleaseOrdered(p, env, MarkedFailed(p, env), ConvertedFrom(p, env, 0) + 2, LogBeforeRelease(p, env));
    }
  }

  lemma {:induction false} InOrdered(p: Plan, env: Env, k: nat, t: Trace)
    requires k <= |p.args| && Before(|p.args| + 2, t, 1)
    ensures Before(|p.args| + 2, InEvents(p, env, k, t), k + 2)
  {
    if k > 0 { InOrdered(p, env, k - 1, t); }
  }

  lemma {:induction false} OutOrdered(p: Plan, env: Env, m: nat, t: Trace)
    requires m <= |p.args| + 1 && Before(|p.args| + 2, t, |p.args| + 3)
    ensures Before(|p.args| + 2, OutEvents(p, env, m, t), |p.args| + 3 + m)
  {
    if m > 0 { OutOrdered(p, env, m - 1, t); }
  }

  lemma {:induction false} ReleaseOrdered(p: Plan, env: Env, failed: bool, n: nat, t: Trace)
    requires n <= |p.args| + 2 && Before(|p.args| + 2, t, 2 * |p.args| + 4)
    ensures Before(|p.args| + 2, ReleaseEvents(p, env, failed, n, t), 2 * |p.args| + 4 + n)
  {
    if n > 0 { ReleaseOrdered(p, env, failed, n - 1, t); }
  }

  /** The raw return value is saved, once, if it is wanted and there is one that a failed run does not pass over. */
  lemma {:induction false} SavedIff(p: Plan, env: Env)
    requires Reached(p, env)
    ensures Occurs(RunLog(p, env), SavedReturn)
         == if env.wantsRaw && !Skipped(p, MarkedFailed(p, env), Return) then 1 else 0
  {
    LogEndsWithReleases(p, env);
    NotConverted(p, env, ConvertedFrom(p, env, 0), InstanceIn(p, Start), SavedReturn);
    if Calls(p, env) { NotShown(p, env, Asked(p, env), LogBeforeCall(p, env), SavedReturn); }
    SavedOnce(p, env, MarkedFailed(p, env), ConvertedFrom(p, env, 0) + 2, LogBeforeRelease(p, env));
  }

  lemma {:induction false} SavedOnce(p: Plan, env: Env, failed: bool, n: nat, t: Trace)
    requires n <= |p.args| + 2
    ensures Occurs(ReleaseEvents(p, env, failed, n, t), SavedReturn)
         == Occurs(t, SavedReturn) + if n >= 2 && env.wantsRaw && !Skipped(p, failed, Return) then 1 else 0
  {
    if n > 0 { SavedOnce(p, env, failed, n - 1, t); }
  }

  // ----- conversions back

  /** The return value and the arguments are asked to convert back, each once, up to the first that cannot; unless the
      caller wants the raw return value. */
  lemma {:induction false} AskedBack(p: Plan, env: Env, n: nat)
    requires Reached(p, env) && n <= |p.args|
    ensures Occurs(RunLog(p, env), if OutPos(n) in env.outFails then Unshown(OutPos(n)) else Shown(OutPos(n)))
         == if AllConvert(p, env) && !env.wantsRaw && SlotAt(p, OutPos(n)).Some?
               && (forall j :: 0 <= j < n ==> Shows(p, env, j)) then 1 else 0
  {
    var e := if OutPos(n) in env.outFails then Unshown(OutPos(n)) else Shown(OutPos(n));
    var k, m := ConvertedFrom(p, env, 0), ShownFrom(p, env, 0);
    assert AllConvert(p, env) <==> k == |p.args| by { if k < |p.args| { assert !Converts(p, env, k); } }
    assert (forall j :: 0 <= j < n ==> Shows(p, env, j)) <==> n <= m by { if m < n { assert !Shows(p, env, m); } }
    LogEndsWithReleases(p, env);
    NotConverted(p, env, k, InstanceIn(p, Start), e);
    if Calls(p, env) { AskedOnce(p, env, Asked(p, env), LogBeforeCall(p, env), n); }
    NotReleased(p, env, MarkedFailed(p, env), k + 2, LogBeforeRelease(p, env), e);
  }

  lemma {:induction false} NotConverted(p: Plan, env: Env, k: nat, t: Trace, e: Event)
    requires k <= |p.args| && !e.Converted?
    ensures Occurs(InEvents(p, env, k, t), e) == Occurs(t, e)
  {
    if k > 0 { NotConverted(p, env, k - 1, t, e); }
  }

  lemma {:induction false} NotReleased(p: Plan, env: Env, failed: bool, n: nat, t: Trace, e: Event)
    requires n <= |p.args| + 2 && !e.Released? && !e.SavedReturn?
    ensures Occurs(ReleaseEvents(p, env, failed, n, t), e) == Occurs(t, e)
  {
    if n > 0 { NotReleased(p, env, failed, n - 1, t, e); }
  }

  lemma {:induction false} AskedOnce(p: Plan, env: Env, m: nat, t: Trace, n: nat)
    requires m <= |p.args| + 1 && n <= |p.args|
    ensures var e := if OutPos(n) in env.outFails then Unshown(OutPos(n)) else Shown(OutPos(n));
            var asked := n < m && !env.wantsRaw && SlotAt(p, OutPos(n)).Some?;
            Occurs(OutEvents(p, env, m, t), e) == Occurs(t, e) + if asked then 1 else 0
  {
    if m > 0 {
      AskedOnce(p, env, m - 1, t, n);
      assert OutPos(m - 1) == OutPos(n) <==> m - 1 == n;
    }
  }

  lemma {:induction false} NotShown(p: Plan, env: Env, m: nat, t: Trace, e: Event)
    requires m <= |p.args| + 1 && !e.Shown? && !e.Unshown?
    ensures Occurs(OutEvents(p, env, m, t), e) == Occurs(t, e)
  {
    if m > 0 { NotShown(p, env, m - 1, t, e); }
  }

  /** An argument is refused, with the JS argument of its rank, exactly if its in() fails and those before it were
      converted. */
  lemma {:induction false} RefusedIff(p: Plan, env: Env, i: nat, js: Option<nat>)
    requires Reached(p, env) && i < |p.args|
    ensures Occurs(RunLog(p, env), Refused(Arg(i), js))
         == if p.args[i].Some? && Arg(i) in env.inFails && (forall j :: 0 <= j < i ==> Converts(p, env, j))
               && js == JsArg(env, Rank(p.args, i)) then 1 else 0
  {
    var e, k := Refused(Arg(i), js), ConvertedFrom(p, env, 0);
    assert (forall j :: 0 <= j < i ==> Converts(p, env, j)) <==> i <= k by {
      if k < i { assert !Converts(p, env, k); }
    }
    assert i < k ==> Converts(p, env, i);
    LogEndsWithReleases(p, env);
    NotConverted(p, env, k, InstanceIn(p, Start), e);
    if Calls(p, env) { NotShown(p, env, Asked(p, env), LogBeforeCall(p, env), e); }
    NotReleased(p, env, MarkedFailed(p, env), k + 2, LogBeforeRelease(p, env), e);
  }
}
