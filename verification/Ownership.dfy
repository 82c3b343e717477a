/** Who owns the cells of list and array arguments over a whole call: the marshallers of Containers, run by the
    protocol of Invoke, against a callee that takes and hands over what the transfer annotations say. */
module Ownership {
  import opened Basics
  import opened JsValues
  import opened Ledger
  import opened CValues
  import opened Containers
  import opened Invoke
  import M = Marshal
  import MarshalMemory
  import CallCoverage

  /** How a container argument is passed. */
  datatype Passing = ByIn | ByOut | ByInOut

  datatype Spec = Spec(passing: Passing, ty: GiType, transfer: Transfer)

  /** The container arguments of a call (None is any other argument), the values they were converted to, and what C left
      in the out cells and returned. */
  datatype World = World(specs: seq<Option<Spec>>, given: seq<CVal>, received: seq<CVal>,
                         ret: Option<Spec>, returned: CVal)

  /** Slots carry the skip flags that BasicTypeContainer sets, values are well typed. */
  ghost predicate Describes(w: World, p: Plan) {
    && |w.specs| == |w.given| == |w.received| == |p.args|
    && (forall i :: 0 <= i < |p.args| && w.specs[i].Some? ==> ContainerType(w.specs[i].value.ty))
    && (forall i {:trigger DescribesArg(w, p, i)} :: 0 <= i < |p.args| && w.specs[i].Some? ==> DescribesArg(w, p, i))
    && (w.ret.Some? ==>
          && w.ret.value.passing.ByOut? && ContainerType(w.ret.value.ty) && HasType(w.ret.value.ty, w.returned)
          && p.ret.Some? && p.ret.value.skipIn)
  }

  ghost predicate DescribesArg(w: World, p: Plan, i: nat)
    requires i < |w.specs| == |w.given| == |w.received| == |p.args| && w.specs[i].Some?
  {
    var s := w.specs[i].value;
    && HasType(s.ty, w.given[i]) && HasType(s.ty, w.received[i])
    && (p.args[i].Some? ==> (p.args[i].value.skipIn <==> s.passing.ByOut?))
  }

  /** C was called and did not set an error: only then does it take or hand over anything. */
  predicate Accepted(p: Plan, env: Env) {
    CallCoverage.Calls(p, env) && !(p.canThrow && env.setsError)
  }

  /** state.call_completed() during release. */
  predicate Completed(p: Plan, env: Env) {
    !CallCoverage.MarkedFailed(p, env) && !(p.canThrow && env.setsError)
  }

  /** An out() failed after C was called. */
  predicate OutFailed(p: Plan, env: Env) {
    CallCoverage.Calls(p, env) && CallCoverage.MarkedFailed(p, env)
  }

  ghost function SpecAt(w: World, pos: Pos): Option<Spec>
    requires pos.Arg? ==> pos.i < |w.specs|
  {
    match pos
    case Instance => None
    case Return => w.ret
    case Arg(i) => w.specs[i]
  }

  ghost function Given(w: World, pos: Pos): CVal
    requires pos.Arg? ==> pos.i < |w.given|
  {
    if pos.Arg? then w.given[pos.i] else CNull
  }

  /** The out cell after the call; a callee that was not reached or set an error left it as in() did. */
  ghost function OutCell(w: World, p: Plan, env: Env, pos: Pos): CVal
    requires Describes(w, p) && CallCoverage.InPlan(p, pos) && SpecAt(w, pos).Some?
  {
    if Accepted(p, env) then (if pos.Arg? then w.received[pos.i] else w.returned)
    else if SpecAt(w, pos).value.passing.ByInOut? then Given(w, pos)
    else CNull
  }

  // ----- the books of one argument

  ghost function Allocation(w: World, p: Plan, env: Env, pos: Pos): Bag
    requires Describes(w, p) && CallCoverage.InPlan(p, pos)
  {
    if SpecAt(w, pos).None? || SpecAt(w, pos).value.passing.ByOut? || (pos.Arg? && pos.i >= ConvertedFrom(p, env, 0))
    then Empty else Cells(Given(w, pos))
  }

  ghost function TakenFrom(w: World, p: Plan, env: Env, pos: Pos): Bag
    requires Describes(w, p) && CallCoverage.InPlan(p, pos)
  {
    if SpecAt(w, pos).None? || SpecAt(w, pos).value.passing.ByOut? || !Accepted(p, env) then Empty
    else Taken(SpecAt(w, pos).value.transfer, Given(w, pos))
  }

  ghost function HandedOver(w: World, p: Plan, env: Env, pos: Pos): Bag
    requires Describes(w, p) && CallCoverage.InPlan(p, pos)
  {
    if SpecAt(w, pos).None? || SpecAt(w, pos).value.passing.ByIn? || !Accepted(p, env) then Empty
    else Taken(SpecAt(w, pos).value.transfer, OutCell(w, p, env, pos))
  }

  /** The out cell as the release pass finds it: a failed out() of a fully transferred value has cleared it. */
  ghost function CellAtRelease(w: World, p: Plan, env: Env, pos: Pos): CVal
    requires Describes(w, p) && CallCoverage.InPlan(p, pos) && SpecAt(w, pos).Some?
  {
    var clears := OutFailed(p, env) && pos == OutPos(ShownFrom(p, env, 0)) && SpecAt(w, pos).value.transfer.Everything?;
    if clears then CNull else OutCell(w, p, env, pos)
  }

  /** An inout value that is still in place is not reclaimed. */
  ghost function Stranded(w: World, p: Plan, env: Env, pos: Pos): Bag
    requires Describes(w, p) && CallCoverage.InPlan(p, pos)
  {
    if SpecAt(w, pos).None? || !SpecAt(w, pos).value.passing.ByInOut? || pos.i >= ConvertedFrom(p, env, 0)
       || Pointer(Given(w, pos)) != Pointer(CellAtRelease(w, p, env, pos))
    then Empty
    else Kept(SpecAt(w, pos).value.ty, Effective(SpecAt(w, pos).value.transfer, Completed(p, env)), Given(w, pos))
  }

  /** A raw return value is handed on to the caller of the engine instead of being released. */
  ghost function Saved(w: World, p: Plan, env: Env, pos: Pos): Bag
    requires Describes(w, p) && CallCoverage.InPlan(p, pos)
  {
    if env.wantsRaw && pos.Return? then HandedOver(w, p, env, pos) else Empty
  }

  /** What an event frees. */
  ghost function FreedAt(w: World, p: Plan, env: Env, e: Event): Bag
    requires Describes(w, p) && (e.Released? || e.Unshown? ==> CallCoverage.InPlan(p, e.pos))
  {
    if !(e.Released? || e.Unshown?) || SpecAt(w, e.pos).None? then Empty
    else
      var s := SpecAt(w, e.pos).value;
      if e.Unshown? then
        (if s.passing.ByIn? || !s.transfer.Everything? then Empty
         else FreedOut(s.ty, s.transfer, OutCell(w, p, env, e.pos)))
      else
        var t := Effective(s.transfer, Completed(p, env));
        match s.passing
        case ByIn => FreedIn(s.ty, t, Given(w, e.pos))
        case ByOut => FreedOut(s.ty, s.transfer, CellAtRelease(w, p, env, e.pos))
        case ByInOut => FreedInOut(s.ty, t, Given(w, e.pos), CellAtRelease(w, p, env, e.pos))
  }

  ghost predicate Within(p: Plan, t: Trace) {
    t.Then? ==> Within(p, t.before) && (t.e.Released? || t.e.Unshown? ==> CallCoverage.InPlan(p, t.e.pos))
  }

  /** Everything freed in the course of a log. */
  ghost function FreedBy(w: World, p: Plan, env: Env, t: Trace): Bag
    requires Describes(w, p) && Within(p, t)
  {
    if t.Start? then Empty else Plus(FreedBy(w, p, env, t.before), FreedAt(w, p, env, t.e))
  }

  // ----- the books of the whole call

  datatype Column = Allocations | TakenOver | ReceivedBack | LeftBehind | HandedOn

  ghost function Book(w: World, p: Plan, env: Env, column: Column, pos: Pos): Bag
    requires Describes(w, p) && CallCoverage.InPlan(p, pos)
  {
    match column
    case Allocations => Allocation(w, p, env, pos)
    case TakenOver => TakenFrom(w, p, env, pos)
    case ReceivedBack => HandedOver(w, p, env, pos)
    case LeftBehind => Stranded(w, p, env, pos)
    case HandedOn => Saved(w, p, env, pos)
  }

  /** How often cell `x` is in the books of the first `n` positions of the release pass. */
  ghost function Sum(w: World, p: Plan, env: Env, column: Column, n: nat, x: nat): nat
    requires Describes(w, p) && n <= |p.args| + 2
  {
    if n == 0 then 0 else Sum(w, p, env, column, n - 1, x) + Count(Book(w, p, env, column, ReleasePos(n - 1)), x)
  }

  ghost function Total(w: World, p: Plan, env: Env, column: Column, x: nat): nat
    requires Describes(w, p)
  {
    Sum(w, p, env, column, |p.args| + 2, x)
  }

  /** What the out() that failed freed on the spot. */
  ghost function Discarded(w: World, p: Plan, env: Env): Bag
    requires Describes(w, p)
  {
    if OutFailed(p, env) then FreedAt(w, p, env, Unshown(OutPos(ShownFrom(p, env, 0)))) else Empty
  }

  /** What the callee keeps and what it hands over, as far as GJS respects it: after a failed out() the release pass
      takes the callee to have kept nothing, and of the outputs only that one is seen to. */
  ghost function Respected(w: World, p: Plan, env: Env, x: nat): nat
    requires Describes(w, p)
  {
    if OutFailed(p, env) then 0 else Total(w, p, env, TakenOver, x)
  }

  ghost function Obtained(w: World, p: Plan, env: Env, x: nat): nat
    requires Describes(w, p)
  {
    if OutFailed(p, env) then Count(Discarded(w, p, env), x) else Total(w, p, env, ReceivedBack, x)
  }

  function Turn(pos: Pos): nat { CallCoverage.Turn(pos) }

  /** Only in arguments are containers. */
  ghost predicate InOnly(w: World) {
    w.ret.None? && forall i :: 0 <= i < |w.specs| && w.specs[i].Some? ==> w.specs[i].value.passing.ByIn?
  }

  /** What the release pass owes cell `x` for one position. After a failed out() it frees what the callee took, too, and
      nothing of what the callee handed over. */
  ghost function Due(w: World, p: Plan, env: Env, pos: Pos, x: nat): int
    requires Describes(w, p) && CallCoverage.InPlan(p, pos)
  {
    Count(Allocation(w, p, env, pos), x) - Count(Stranded(w, p, env, pos), x) - Count(Saved(w, p, env, pos), x)
    + if OutFailed(p, env) then 0
    else Count(HandedOver(w, p, env, pos), x) - Count(TakenFrom(w, p, env, pos), x)
  }

  lemma {:induction false} DueIn(w: World, p: Plan, env: Env, pos: Pos, s: Spec, x: nat)
    requires Describes(w, p) && CallCoverage.InPlan(p, pos) && Turn(pos) < ConvertedFrom(p, env, 0) + 2
    requires SpecAt(w, pos) == Some(s) && s.passing.ByIn?
    ensures Count(FreedAt(w, p, env, Event.Released(pos)), x) == Due(w, p, env, pos, x)
  {
    assert pos.Arg? && DescribesArg(w, p, pos.i);
    InPartition(s.ty, s.transfer, Completed(p, env), Given(w, pos), x);
    if OutFailed(p, env) { assert !Completed(p, env); } else { assert Completed(p, env) == Accepted(p, env); }
  }

  lemma {:induction false} DueOut(w: World, p: Plan, env: Env, pos: Pos, s: Spec, x: nat)
    requires Describes(w, p) && CallCoverage.InPlan(p, pos) && !OutFailed(p, env) && !(env.wantsRaw && pos.Return?)
    requires SpecAt(w, pos) == Some(s) && s.passing.ByOut?
    ensures Count(FreedAt(w, p, env, Event.Released(pos)), x) == Due(w, p, env, pos, x)
  {
    assert pos.Arg? ==> DescribesArg(w, p, pos.i);
    OutFreesHandedOver(s.ty, s.transfer, OutCell(w, p, env, pos), x);
  }

  lemma {:induction false} DueInOut(w: World, p: Plan, env: Env, pos: Pos, s: Spec, x: nat)
    requires Describes(w, p) && CallCoverage.InPlan(p, pos) && Turn(pos) < ConvertedFrom(p, env, 0) + 2
    requires SpecAt(w, pos) == Some(s) && s.passing.ByInOut?
    ensures Count(FreedAt(w, p, env, Event.Released(pos)), x) == Due(w, p, env, pos, x)
  {
    assert pos.Arg? && DescribesArg(w, p, pos.i);
    assert OutFailed(p, env) || Completed(p, env) == Accepted(p, env);
    InOutAccounted(s.ty, s.transfer, Completed(p, env), Given(w, pos), CellAtRelease(w, p, env, pos), x);
    ContentsAndHolder(s.ty, Given(w, pos), x);
  }

  lemma {:induction false} ReleasedDue(w: World, p: Plan, env: Env, pos: Pos, x: nat)
    requires Describes(w, p) && CallCoverage.InPlan(p, pos)
    requires Turn(pos) < ConvertedFrom(p, env, 0) + 2 && !Skipped(p, CallCoverage.MarkedFailed(p, env), pos)
    ensures Count(FreedAt(w, p, env, if env.wantsRaw && pos.Return? then SavedReturn else Event.Released(pos)), x)
         == Due(w, p, env, pos, x)
  {
    if SpecAt(w, pos).Some? {
      var s := SpecAt(w, pos).value;
      if s.passing.ByIn? {
        DueIn(w, p, env, pos, s, x);
      } else if s.passing.ByInOut? {
        DueInOut(w, p, env, pos, s, x);
      } else if !(env.wantsRaw && pos.Return?) {
        assert pos.Arg? ==> DescribesArg(w, p, pos.i);
        DueOut(w, p, env, pos, s, x);
      }
    }
  }

  lemma {:induction false} NothingDue(w: World, p: Plan, env: Env, pos: Pos, x: nat)
    requires Describes(w, p) && CallCoverage.InPlan(p, pos)
    requires Turn(pos) >= ConvertedFrom(p, env, 0) + 2 || Skipped(p, CallCoverage.MarkedFailed(p, env), pos)
    ensures Due(w, p, env, pos, x) == 0
  {
    if SpecAt(w, pos).Some? && pos.Arg? {
      assert DescribesArg(w, p, pos.i);
      if pos.i < ConvertedFrom(p, env, 0) { assert Converts(p, env, pos.i); }
    }
  }

  ghost function AllDue(w: World, p: Plan, env: Env, n: nat, x: nat): int
    requires Describes(w, p) && n <= |p.args| + 2
  {
    if n == 0 then 0 else AllDue(w, p, env, n - 1, x) + Due(w, p, env, ReleasePos(n - 1), x)
  }

  lemma {:induction false} DueIsSum(w: World, p: Plan, env: Env, n: nat, x: nat)
    requires Describes(w, p) && n <= |p.args| + 2
    ensures AllDue(w, p, env, n, x) ==
            Sum(w, p, env, Allocations, n, x) - Sum(w, p, env, LeftBehind, n, x) - Sum(w, p, env, HandedOn, n, x)
            + if OutFailed(p, env) then 0
            else Sum(w, p, env, ReceivedBack, n, x) - Sum(w, p, env, TakenOver, n, x)
  {
    if n > 0 { DueIsSum(w, p, env, n - 1, x); }
  }

  /** The release pass, as far as it goes, frees what is due. */
  lemma {:induction false} ReleaseBalance(w: World, p: Plan, env: Env, n: nat, t: Trace, x: nat)
    requires Describes(w, p) && Within(p, t)
    requires n <= ConvertedFrom(p, env, 0) + 2
    ensures var log := ReleaseEvents(p, env, CallCoverage.MarkedFailed(p, env), n, t);
            Within(p, log)
            && Count(FreedBy(w, p, env, log), x) == Count(FreedBy(w, p, env, t), x) + AllDue(w, p, env, n, x)
  {
    if n > 0 {
      ReleaseBalance(w, p, env, n - 1, t, x);
      var pos := ReleasePos(n - 1);
      if Skipped(p, CallCoverage.MarkedFailed(p, env), pos) {
        NothingDue(w, p, env, pos, x);
      } else {
        ReleasedDue(w, p, env, pos, x);
      }
    }
  }

  /** Positions the release pass does not reach have nothing due. */
  lemma {:induction false} NothingDueAfter(w: World, p: Plan, env: Env, n: nat, x: nat)
    requires Describes(w, p) && ConvertedFrom(p, env, 0) + 2 <= n <= |p.args| + 2
    ensures AllDue(w, p, env, n, x) == AllDue(w, p, env, ConvertedFrom(p, env, 0) + 2, x)
  {
    if n > ConvertedFrom(p, env, 0) + 2 {
      NothingDueAfter(w, p, env, n - 1, x);
      NothingDue(w, p, env, ReleasePos(n - 1), x);
    }
  }

  lemma {:induction false} QuietIn(w: World, p: Plan, env: Env, k: nat, t: Trace, x: nat)
    requires Describes(w, p) && k <= |p.args| && Within(p, t)
    ensures Within(p, InEvents(p, env, k, t))
    ensures Count(FreedBy(w, p, env, InEvents(p, env, k, t)), x) == Count(FreedBy(w, p, env, t), x)
  {
    if k > 0 { QuietIn(w, p, env, k - 1, t, x); }
  }

  lemma {:induction false} QuietOut(w: World, p: Plan, env: Env, m: nat, t: Trace, x: nat)
    requires Describes(w, p) && m <= |p.args| + 1 && Within(p, t)
    requires forall j :: 0 <= j < m ==> Shows(p, env, j)
    ensures Within(p, OutEvents(p, env, m, t))
    ensures Count(FreedBy(w, p, env, OutEvents(p, env, m, t)), x) == Count(FreedBy(w, p, env, t), x)
  {
    if m > 0 {
      QuietOut(w, p, env, m - 1, t, x);
      assert Shows(p, env, m - 1);
    }
  }

  lemma QuietEvent(w: World, p: Plan, env: Env, t: Trace, e: Event, x: nat)
    requires Describes(w, p) && Within(p, t) && !e.Released? && !e.Unshown?
    ensures Within(p, Then(t, e)) && Count(FreedBy(w, p, env, Then(t, e)), x) == Count(FreedBy(w, p, env, t), x)
  {
  }

  /** Nothing is freed up to the call. */
  lemma QuietBeforeCall(w: World, p: Plan, env: Env, x: nat)
    requires Describes(w, p)
    ensures Within(p, CallCoverage.LogBeforeCall(p, env))
    ensures Count(FreedBy(w, p, env, CallCoverage.LogBeforeCall(p, env)), x) == 0
  {
    var k := ConvertedFrom(p, env, 0);
    var converted, log := InEvents(p, env, k, InstanceIn(p, Start)), CallCoverage.LogBeforeCall(p, env);
    QuietIn(w, p, env, k, InstanceIn(p, Start), x);
    if log != converted { QuietEvent(w, p, env, converted, log.e, x); }
  }

  /** The out loop frees what the out() that failed discards. */
  lemma ShownDiscards(w: World, p: Plan, env: Env, x: nat)
    requires Describes(w, p)
    ensures Within(p, CallCoverage.LogBeforeRelease(p, env))
    ensures Count(FreedBy(w, p, env, CallCoverage.LogBeforeRelease(p, env)), x) == Count(Discarded(w, p, env), x)
  {
    QuietBeforeCall(w, p, env, x);
    if CallCoverage.Calls(p, env) {
      var m := ShownFrom(p, env, 0);
      QuietOut(w, p, env, m, CallCoverage.LogBeforeCall(p, env), x);
      if m <= |p.args| { assert !Shows(p, env, m); }
    }
  }

  lemma {:induction false} FreesWhatIsDue(w: World, p: Plan, env: Env, x: nat)
    requires Describes(w, p) && CallCoverage.Reached(p, env)
    ensures Within(p, RunLog(p, env))
    ensures Count(FreedBy(w, p, env, RunLog(p, env)), x)
         == AllDue(w, p, env, |p.args| + 2, x) + Count(Discarded(w, p, env), x)
  {
    CallCoverage.LogEndsWithReleases(p, env);
    ShownDiscards(w, p, env, x);
    ReleaseBalance(w, p, env, ConvertedFrom(p, env, 0) + 2, CallCoverage.LogBeforeRelease(p, env), x);
    NothingDueAfter(w, p, env, |p.args| + 2, x);
  }

  // ----- main results

  /** Conservation over every whole call, whether it was refused before C was reached, threw, completed, or had an
      output that could not be converted: every cell allocated for an argument or obtained from C has been freed, taken
      over by C, handed on raw, or left behind in an inout value that was in place at the end; one of these, once. */
  lemma {:induction false} CallConserves(w: World, p: Plan, env: Env, x: nat)
    requires Describes(w, p) && CallCoverage.Reached(p, env)
    ensures Within(p, RunLog(p, env))
    ensures Count(FreedBy(w, p, env, RunLog(p, env)), x) + Respected(w, p, env, x)
            + Total(w, p, env, HandedOn, x) + Total(w, p, env, LeftBehind, x)
         == Total(w, p, env, Allocations, x) + Obtained(w, p, env, x)
  {
    FreesWhatIsDue(w, p, env, x);
    DueIsSum(w, p, env, |p.args| + 2, x);
  }

  /** So no cell is freed twice, if each is allocated once and the callee hands over what it took or what is its own:
      a cell received back beyond that would have to be taken first. A cell that was taken over and not handed back is
      not freed, unless an out() failed. */
  lemma {:induction false} NothingFreedTwice(w: World, p: Plan, env: Env, x: nat)
    requires Describes(w, p) && CallCoverage.Reached(p, env)
    requires Total(w, p, env, Allocations, x) + Obtained(w, p, env, x) <= 1 + Respected(w, p, env, x)
    ensures Within(p, RunLog(p, env)) && Count(FreedBy(w, p, env, RunLog(p, env)), x) <= 1
    ensures Respected(w, p, env, x) >= Total(w, p, env, Allocations, x) > 0 && Obtained(w, p, env, x) == 0
            ==> Count(FreedBy(w, p, env, RunLog(p, env)), x) == 0
  {
    CallConserves(w, p, env, x);
  }

  lemma {:induction false} NothingElse(w: World, p: Plan, env: Env, n: nat, x: nat)
    requires Describes(w, p) && n <= |p.args| + 2 && InOnly(w)
    ensures Sum(w, p, env, ReceivedBack, n, x) == 0 && Sum(w, p, env, LeftBehind, n, x) == 0
            && Sum(w, p, env, HandedOn, n, x) == 0 && Count(Discarded(w, p, env), x) == 0
  {
    if n > 0 { NothingElse(w, p, env, n - 1, x); }
  }

  /** With in arguments alone, what is freed and what the callee took partition what was allocated; unless an out()
      failed, when everything allocated is freed, taken or not. */
  lemma {:induction false} InArgumentsPartition(w: World, p: Plan, env: Env, x: nat)
    requires Describes(w, p) && CallCoverage.Reached(p, env) && InOnly(w)
    ensures Within(p, RunLog(p, env))
    ensures Count(FreedBy(w, p, env, RunLog(p, env)), x)
            + (if OutFailed(p, env) then 0 else Total(w, p, env, TakenOver, x))
         == Total(w, p, env, Allocations, x)
  {
    CallConserves(w, p, env, x);
    NothingElse(w, p, env, |p.args| + 2, x);
  }

  // ----- converted arguments

  /** What an argument is converted to is what its conversion allocated: nothing is lost on the way. */
  lemma {:induction false} GivenIsAllocated(num: Readings, ty: GiType, v: JS, nullable: bool, next: nat)
    requires ContainerType(ty) && M.To(num, ty, v, nullable, Transfer.Nothing, next).Ok?
    ensures var r := M.To(num, ty, v, nullable, Transfer.Nothing, next);
            HasType(ty, r.c) && next <= r.next && Allocated(Plus(Cells(r.c), r.scratch), next, r.next)
  {
    var r := M.To(num, ty, v, nullable, Transfer.Nothing, next);
    MarshalMemory.ToHasType(num, ty, v, nullable, Transfer.Nothing, next);
    M.ToConserves(num, ty, v, nullable, Transfer.Nothing, next);
    MarshalMemory.LosesNothing(num, ty, v, nullable, Transfer.Nothing, next);
    MarshalMemory.Reassociated(Cells(r.c), r.lost, r.scratch, next, r.next);
    MarshalMemory.ClosesWithout(Plus(Cells(r.c), r.scratch), r.lost, next, r.next);
  }
}
