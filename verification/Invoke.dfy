/** The call protocol of Function::invoke and finish_invoke (gi/function.cpp): convert in, call C, convert out, release.
    What the marshallers and the C function do is given by an environment; what the engine does with it is recorded in
    a log, step by step. */
module Invoke {
  import opened Basics

  const MAX_ARGS: nat := 253

  /** What the call loop knows of a cached argument. */
  datatype Slot = Slot(skipIn: bool, skipOut: bool)

  /** An initialised function. `args[i]` is None where no marshaller could be determined. */
  datatype Plan = Plan(isMethod: bool, instance: Slot, ret: Option<Slot>, args: seq<Option<Slot>>, canThrow: bool,
                       jsIn: nat, jsOut: nat, ffiArgc: nat)

  datatype Pos = Instance | Return | Arg(i: nat)

  /** `js` is the index of the JS argument passed to in(); None stands for undefined. */
  datatype Event =
    | Converted(pos: Pos, js: Option<nat>)
    | Refused(pos: Pos, js: Option<nat>)     // in() failed
    | Called
    | Shown(pos: Pos)                        // out() succeeded
    | Unshown(pos: Pos)                      // out() failed
    | Released(pos: Pos)
    | SavedReturn

  /** A log, latest event last. */
  datatype Trace = Start | Then(before: Trace, e: Event)

  /** What the marshallers and the C function will do. */
  datatype Env = Env(passed: nat, warningsThrow: bool, inFails: set<Pos>, setsError: bool, outFails: set<Pos>,
                     releaseFails: set<Pos>, wantsRaw: bool)

  datatype Result =
    | TooManyArguments
    | MoreArgumentsNeeded
    | WarningThrown
    | InstanceRefused
    | Failed
    | ThrewGError
    | Returned(values: seq<Pos>)

  // ----- what the protocol should do

  /** The number of JS arguments consumed before argument `i`. */
  function Rank(args: seq<Option<Slot>>, i: nat): (r: nat)
    requires i <= |args|
    ensures r <= i
  {
    if i == 0 then 0
    else Rank(args, i - 1) + (if args[i - 1].Some? && !args[i - 1].value.skipIn then 1 else 0)
  }

  predicate HasOut(slot: Option<Slot>) { slot.Some? && !slot.value.skipOut }

  /** The values the first `i` arguments add to the JS result. */
  function OutCount(args: seq<Option<Slot>>, i: nat): nat
    requires i <= |args|
  {
    if i == 0 then 0 else OutCount(args, i - 1) + (if HasOut(args[i - 1]) then 1 else 0)
  }

  /** The out count and the number of C arguments agree with the slots, as the engine asserts. */
  predicate Runnable(p: Plan) {
    && p.jsOut == OutCount(p.args, |p.args|) + (if HasOut(p.ret) then 1 else 0)
    && p.ffiArgc == (if p.isMethod then 1 else 0) + |p.args| + (if p.canThrow then 1 else 0)
  }

  /** So does the in count: the slots take exactly the JS arguments that are asked for. */
  predicate Consistent(p: Plan) {
    Runnable(p) && p.jsIn == Rank(p.args, |p.args|)
  }

  function JsArg(env: Env, rank: nat): Option<nat> {
    if rank < env.passed then Some(rank) else None
  }

  predicate Converts(p: Plan, env: Env, i: nat)
    requires i < |p.args|
  {
    p.args[i].Some? && Arg(i) !in env.inFails
  }

  /** How many arguments from `i` on are converted before the first that cannot be. */
  function ConvertedFrom(p: Plan, env: Env, i: nat): (k: nat)
    requires i <= |p.args|
    ensures i <= k <= |p.args|
    ensures forall j :: i <= j < k ==> Converts(p, env, j)
    ensures k < |p.args| ==> !Converts(p, env, k)
    decreases |p.args| - i
  {
    if i == |p.args| || !Converts(p, env, i) then i else ConvertedFrom(p, env, i + 1)
  }

  /** The log `t`, followed by the first `k` conversions. */
  function InEvents(p: Plan, env: Env, k: nat, t: Trace): Trace
    requires k <= |p.args|
  {
    if k == 0 then t else Then(InEvents(p, env, k - 1, t), Converted(Arg(k - 1), JsArg(env, Rank(p.args, k - 1))))
  }

  function InstanceIn(p: Plan, t: Trace): Trace {
    if p.isMethod then Then(t, Converted(Instance, None)) else t
  }

  /** The in() that failed, if it was reached. */
  function RefusedAt(p: Plan, env: Env, k: nat, t: Trace): Trace
    requires k <= |p.args|
  {
    if k < |p.args| && p.args[k].Some? then Then(t, Refused(Arg(k), JsArg(env, Rank(p.args, k)))) else t
  }

  function SlotAt(p: Plan, pos: Pos): Option<Slot>
    requires pos.Arg? ==> pos.i < |p.args|
  {
    match pos
    case Instance => if p.isMethod then Some(p.instance) else None
    case Return => p.ret
    case Arg(i) => p.args[i]
  }

  /** The return value comes first, then the arguments in order. */
  function OutPos(n: nat): Pos { if n == 0 then Return else Arg(n - 1) }

  predicate Shows(p: Plan, env: Env, n: nat)
    requires n <= |p.args|
  {
    env.wantsRaw || SlotAt(p, OutPos(n)).None? || OutPos(n) !in env.outFails
  }

  /** How many of the return value and the arguments are converted back from position `n` on. */
  function ShownFrom(p: Plan, env: Env, n: nat): (m: nat)
    requires n <= |p.args| + 1
    ensures n <= m <= |p.args| + 1
    ensures forall j :: n <= j < m ==> Shows(p, env, j)
    ensures m <= |p.args| ==> !Shows(p, env, m)
    decreases |p.args| + 1 - n
  {
    if n == |p.args| + 1 || !Shows(p, env, n) then n else ShownFrom(p, env, n + 1)
  }

  /** Every marshaller is asked, unless the caller wants the raw return value. */
  function OutEvents(p: Plan, env: Env, m: nat, t: Trace): Trace
    requires m <= |p.args| + 1
  {
    if m == 0 then t
    else
      var before, pos := OutEvents(p, env, m - 1, t), OutPos(m - 1);
      if env.wantsRaw || SlotAt(p, pos).None? then before
      else Then(before, if pos in env.outFails then Unshown(pos) else Shown(pos))
  }

  /** The positions whose values make up the JS result. */
  function Collected(p: Plan, m: nat): (r: seq<Pos>)
    requires m <= |p.args| + 1
  {
    if m == 0 then []
    else if HasOut(SlotAt(p, OutPos(m - 1))) then Collected(p, m - 1) + [OutPos(m - 1)]
    else Collected(p, m - 1)
  }

  /** The release pass goes through the instance, the return value and the arguments. */
  function ReleasePos(n: nat): Pos { if n == 0 then Instance else if n == 1 then Return else Arg(n - 2) }

  /** A failed call leaves alone what JS did not supply. */
  predicate Skipped(p: Plan, failed: bool, pos: Pos)
    requires pos.Arg? ==> pos.i < |p.args|
  {
    SlotAt(p, pos).None? || (failed && SlotAt(p, pos).value.skipIn)
  }

  function ReleaseEvents(p: Plan, env: Env, failed: bool, n: nat, t: Trace): Trace
    requires n <= |p.args| + 2
  {
    if n == 0 then t
    else
      var before, pos := ReleaseEvents(p, env, failed, n - 1, t), ReleasePos(n - 1);
      if Skipped(p, failed, pos) then before
      else Then(before, if env.wantsRaw && pos.Return? then SavedReturn else Released(pos))
  }

  /** Whether one of those releases fails. */
  predicate ReleaseFails(p: Plan, env: Env, failed: bool, n: nat)
    requires n <= |p.args| + 2
  {
    n > 0 && (ReleaseFails(p, env, failed, n - 1) || ReleaseFailsAt(p, env, failed, ReleasePos(n - 1)))
  }

  predicate ReleaseFailsAt(p: Plan, env: Env, failed: bool, pos: Pos)
    requires pos.Arg? ==> pos.i < |p.args|
  {
    !Skipped(p, failed, pos) && !(env.wantsRaw && pos.Return?) && pos in env.releaseFails
  }

  /** The call from the first conversion on, after the log `t`. */
  function CallLog(p: Plan, env: Env, t: Trace): Trace {
    var k := ConvertedFrom(p, env, 0);
    var converted := InEvents(p, env, k, t);
    if k < |p.args| then ReleaseEvents(p, env, true, k + 2, RefusedAt(p, env, k, converted))
    else
      var m := ShownFrom(p, env, 0);
      var shown := OutEvents(p, env, if m <= |p.args| then m + 1 else m, Then(converted, Called));
      ReleaseEvents(p, env, m <= |p.args|, k + 2, shown)
  }

  predicate CallFails(p: Plan, env: Env) {
    var k := ConvertedFrom(p, env, 0);
    var failed := k < |p.args| || ShownFrom(p, env, 0) <= |p.args|;
    failed || ReleaseFails(p, env, failed, k + 2)
  }

  function CallResult(p: Plan, env: Env): Result {
    if CallFails(p, env) then Failed
    else if p.canThrow && env.setsError then ThrewGError
    else Returned(if env.wantsRaw then [] else Collected(p, |p.args| + 1))
  }

  function Outcome(p: Plan, env: Env): Result {
    if |p.args| > MAX_ARGS then TooManyArguments
    else if env.passed < p.jsIn then MoreArgumentsNeeded
    else if env.passed > p.jsIn && env.warningsThrow then WarningThrown
    else if p.isMethod && Instance in env.inFails then InstanceRefused
    else CallResult(p, env)
  }

  function RunLog(p: Plan, env: Env): Trace {
    match Outcome(p, env)
    case TooManyArguments => Start
    case MoreArgumentsNeeded => Start
    case WarningThrown => Start
    case InstanceRefused => Then(Start, Refused(Instance, None))
    case _ => CallLog(p, env, InstanceIn(p, Start))
  }

  // ----- what it does

  /** GjsFunctionCallState. The three cell arrays are indexed through FirstArgOffset; here they are the log. */
  class CallState {
    const isMethod: bool
    const canThrow: bool
    const giArgc: uint8
    var processed: uint8
    var failed: bool
    var localError: bool
    var returnValues: seq<Pos>
    var log: Trace

    constructor (p: Plan)
      requires |p.args| < 256
      ensures isMethod == p.isMethod && canThrow == p.canThrow && giArgc as int == |p.args|
      ensures processed == 0 && !failed && !localError && returnValues == [] && log == Start
    {
      isMethod, canThrow, giArgc := p.isMethod, p.canThrow, |p.args| as uint8;
      processed, failed, localError, returnValues, log := 0, false, false, [], Start;
    }

    function FirstArgOffset(): nat { if isMethod then 2 else 1 }

    predicate DidThrowGError() reads this { canThrow && localError }

    /** True also of a call that never happened, and false after an out() failure. */
    predicate CallCompleted() reads this { !failed && !DidThrowGError() }

    function LastProcessedIndex(): nat reads this { FirstArgOffset() + processed as int }

    method Log(e: Event)
      modifies this`log
      ensures log == Then(old(log), e)
    {
      log := Then(log, e);
    }
  }

  /** Function::invoke */
  method InvokeFunction(p: Plan, env: Env) returns (result: Result, state: CallState)
    requires |p.args| < 256 && Runnable(p)
    ensures result == Outcome(p, env) && state.log == RunLog(p, env)
  {
    state := new CallState(p);
    if state.giArgc as int > MAX_ARGS { return TooManyArguments, state; }
    if env.passed > p.jsIn {
      if env.warningsThrow { return WarningThrown, state; }
    } else if env.passed < p.jsIn {
      return MoreArgumentsNeeded, state;
    }
    var ffiArgPos: nat := 0;
    if state.isMethod {
      if Instance in env.inFails {
        state.Log(Refused(Instance, None));
        return InstanceRefused, state;
      }
      state.Log(Converted(Instance, None));
      ffiArgPos := 1;
    }
    assert ffiArgPos + state.giArgc as int < 255;
    result := CallThrough(p, env, state, ffiArgPos);
  }

  /** Function::invoke, from the first conversion on. */
  method CallThrough(p: Plan, env: Env, state: CallState, ffiArgPos: nat) returns (result: Result)
    requires Runnable(p) && |p.args| <= MAX_ARGS && ffiArgPos == (if p.isMethod then 1 else 0)
    requires state.isMethod == p.isMethod && state.canThrow == p.canThrow && state.giArgc as int == |p.args|
    requires !state.failed && !state.localError && state.returnValues == []
    modifies state
    ensures result == CallResult(p, env) && state.log == CallLog(p, env, old(state.log))
  {
    ConvertIn(p, env, state, ffiArgPos);
    if !state.failed { CallC(p, env, state, ffiArgPos + state.giArgc as int); }
    result := FinishInvoke(p, env, state);
  }

  /** The C call itself, after which out arguments are converted whether or not it set an error. */
  method CallC(p: Plan, env: Env, state: CallState, ffiArgPos: nat)
    requires Runnable(p) && ffiArgPos == |p.args| + if p.isMethod then 1 else 0
    requires state.canThrow == p.canThrow && state.giArgc as int == |p.args|
    requires !state.failed && state.returnValues == []
    modifies state
    ensures var m := ShownFrom(p, env, 0);
            && (state.failed <==> m <= |p.args|)
            && state.log == OutEvents(p, env, if m <= |p.args| then m + 1 else m, Then(old(state.log), Called))
            && (!state.failed ==> state.returnValues == if env.wantsRaw then [] else Collected(p, m))
    ensures state.processed == old(state.processed) && state.localError == env.setsError
  {
    var ffiArgc := ffiArgPos;
    if state.canThrow {
      assert ffiArgc < p.ffiArgc;
      ffiArgc := ffiArgc + 1;
    }
    assert ffiArgc == p.ffiArgc;
    state.Log(Called);
    state.localError := env.setsError;
    ConvertOut(p, env, state);
  }

  method ConvertIn(p: Plan, env: Env, state: CallState, ffiArgPos: nat)
    requires |p.args| <= MAX_ARGS && state.giArgc as int == |p.args| && !state.failed && ffiArgPos <= 1
    modifies state
    ensures var k := ConvertedFrom(p, env, 0);
            && state.log == RefusedAt(p, env, k, InEvents(p, env, k, old(state.log)))
            && state.processed as int == ffiArgPos + k
            && (state.failed <==> k < |p.args|)
    ensures state.localError == old(state.localError) && state.returnValues == old(state.returnValues)
  {
    var jsArgPos, giArgPos: nat := 0, 0;
    ghost var start := state.log;
    state.processed := ffiArgPos as uint8;
    while giArgPos < state.giArgc as int
      invariant giArgPos <= |p.args| && ConvertedFrom(p, env, 0) == ConvertedFrom(p, env, giArgPos)
      invariant jsArgPos == Rank(p.args, giArgPos)
      invariant state.log == InEvents(p, env, giArgPos, start)
      invariant state.processed as int == ffiArgPos + giArgPos && !state.failed
      invariant state.localError == old(state.localError) && state.returnValues == old(state.returnValues)
    {
      var slot := p.args[giArgPos];
      if slot.None? {
        state.failed := true;
        return;
      }
      if Arg(giArgPos) in env.inFails {
        state.Log(Refused(Arg(giArgPos), JsArg(env, jsArgPos)));
        state.failed := true;
        return;
      }
      state.Log(Converted(Arg(giArgPos), JsArg(env, jsArgPos)));
      if !slot.value.skipIn { jsArgPos := jsArgPos + 1; }
      state.processed := state.processed + 1;
      giArgPos := giArgPos + 1;
    }
  }

  method ShowValue(env: Env, state: CallState, pos: Pos)
    modifies state`failed, state`log
    ensures state.failed <==> pos in env.outFails
    ensures state.log == Then(old(state.log), if pos in env.outFails then Unshown(pos) else Shown(pos))
  {
    state.failed := pos in env.outFails;
    state.Log(if state.failed then Unshown(pos) else Shown(pos));
  }

  /** One turn of the out loop. */
  method ShowTurn(p: Plan, env: Env, state: CallState, n: nat, ghost start: Trace) returns (ok: bool)
    requires n <= |p.args| && !state.failed && state.log == OutEvents(p, env, n, start)
    requires state.returnValues == if env.wantsRaw then [] else Collected(p, n)
    modifies state`failed, state`log, state`returnValues
    ensures ok == Shows(p, env, n) == !state.failed
    ensures state.log == OutEvents(p, env, n + 1, start)
    ensures ok ==> state.returnValues == if env.wantsRaw then [] else Collected(p, n + 1)
  {
    var slot := SlotAt(p, OutPos(n));
    if !env.wantsRaw && slot.Some? {
      ShowValue(env, state, OutPos(n));
      if state.failed { return false; }
      if HasOut(slot) { state.returnValues := state.returnValues + [OutPos(n)]; }
    }
    return true;
  }

  /** This loop runs even when the C function set its GError. */
  method ConvertOut(p: Plan, env: Env, state: CallState)
    requires state.giArgc as int == |p.args| && !state.failed && state.returnValues == [] && Runnable(p)
    modifies state`failed, state`log, state`returnValues
    ensures var m := ShownFrom(p, env, 0);
            && (state.failed <==> m <= |p.args|)
            && state.log == OutEvents(p, env, if m <= |p.args| then m + 1 else m, old(state.log))
            && (!state.failed ==> state.returnValues == if env.wantsRaw then [] else Collected(p, m))
  {
    var jsArgPos, n: nat := 0, 0;
    ghost var start := state.log;
    while n < state.giArgc as int + 1
      invariant n <= |p.args| + 1 && ShownFrom(p, env, 0) == ShownFrom(p, env, n)
      invariant state.log == OutEvents(p, env, n, start) && !state.failed
      invariant state.returnValues == if env.wantsRaw then [] else Collected(p, n)
      invariant jsArgPos == |Collected(p, n)|
    {
      var ok := ShowTurn(p, env, state, n, start);
      if !ok { return; }
      if HasOut(SlotAt(p, OutPos(n))) { jsArgPos := jsArgPos + 1; }
      n := n + 1;
    }
    CollectsAll(p, |p.args| + 1);
    assert jsArgPos == p.jsOut;
  }

  /** Function::finish_invoke. Positions -2, -1, 0, 1, ... of the source are 0, 1, 2, 3, ... here. */
  method FinishInvoke(p: Plan, env: Env, state: CallState) returns (result: Result)
    requires Runnable(p) && state.isMethod == p.isMethod && state.giArgc as int == |p.args|
    requires state.canThrow == p.canThrow
    requires (if p.isMethod then 1 else 0) <= state.processed as int <= |p.args| + (if p.isMethod then 1 else 0)
    requires !state.failed ==> state.returnValues == if env.wantsRaw then [] else Collected(p, |p.args| + 1)
    modifies state`log
    ensures var k := state.processed as int - (if p.isMethod then 1 else 0);
            && state.log == ReleaseEvents(p, env, state.failed, k + 2, old(state.log))
            && result == if state.failed || ReleaseFails(p, env, state.failed, k + 2) then Failed
                         else if state.DidThrowGError() then ThrewGError
                         else Returned(if env.wantsRaw then [] else Collected(p, |p.args| + 1))
  {
    ghost var start := state.log;
    ghost var k: nat := state.processed as int - if p.isMethod then 1 else 0;
    var ffiArgPos: nat := state.FirstArgOffset() - 1;
    var ffiArgMax := state.LastProcessedIndex();
    var n: nat := 2 - state.FirstArgOffset();
    var releaseFailed := false;
    assert !p.isMethod ==> ReleaseEvents(p, env, state.failed, 1, start) == start;
    while n < state.giArgc as int + 2 && ffiArgPos < ffiArgMax
      invariant n <= k + 2 && (n == 0 ==> p.isMethod)
      invariant ffiArgMax - ffiArgPos == k + 2 - n
      invariant state.log == ReleaseEvents(p, env, state.failed, n, start)
      invariant releaseFailed == ReleaseFails(p, env, state.failed, n)
    {
      var pos := ReleasePos(n);
      var slot := SlotAt(p, pos);
      n, ffiArgPos := n + 1, ffiArgPos + 1;
      if slot.None? || (state.failed && slot.value.skipIn) { continue; }
      if env.wantsRaw && pos.Return? {
        state.Log(SavedReturn);
        continue;
      }
      state.Log(Event.Released(pos));
      if pos in env.releaseFails { releaseFailed := true; }
    }
    if releaseFailed || state.failed { return Failed; }
    if state.DidThrowGError() { return ThrewGError; }
    assert ffiArgPos == state.LastProcessedIndex();
    return Returned(state.returnValues);
  }

  lemma {:induction false} CollectsAll(p: Plan, m: nat)
    requires m <= |p.args| + 1
    ensures |Collected(p, m)| == if m == 0 then 0 else OutCount(p.args, m - 1) + if HasOut(p.ret) then 1 else 0
  {
    if m > 0 { CollectsAll(p, m - 1); }
  }
}
