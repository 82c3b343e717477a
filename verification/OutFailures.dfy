/** What a failing out() does to the cells of a call. It frees a fully transferred output itself; and the release pass
    takes the failure for one before the call (call_completed in gi/function.h) and frees what the callee owns. */
module OutFailures {
  import opened Basics
  import opened JsValues
  import opened Ledger
  import opened CValues
  import opened Containers
  import opened Invoke
  import opened Ownership
  import CallCoverage

  // ----- in arguments

  /** The in arguments of a call, the other containers being left out of account. */
  function InArguments(w: World): World {
    World(seq(|w.specs|, i requires 0 <= i < |w.specs| => OnlyIn(w.specs[i])), w.given, w.received, None, w.returned)
  }

  function OnlyIn(s: Option<Spec>): Option<Spec> {
    if s.Some? && s.value.passing.ByIn? then s else None
  }

  /** Of what an event frees, the releases of in arguments are kept. */
  lemma InArgumentsOnly(w: World, p: Plan, env: Env, e: Event)
    requires Describes(w, p) && (e.Released? || e.Unshown? ==> CallCoverage.InPlan(p, e.pos))
    ensures InOnly(InArguments(w)) && Describes(InArguments(w), p)
    ensures FreedAt(InArguments(w), p, env, e) ==
            if e.Released? && e.pos.Arg? && OnlyIn(w.specs[e.pos.i]).Some? then FreedAt(w, p, env, e) else Empty
  {
    InArgumentsDescribed(w, p);
  }

  lemma InArgumentsDescribed(w: World, p: Plan)
    requires Describes(w, p)
    ensures InOnly(InArguments(w)) && Describes(InArguments(w), p)
  {
    var ins := InArguments(w);
    forall i | 0 <= i < |p.args| && ins.specs[i].Some? ensures DescribesArg(ins, p, i) { assert DescribesArg(w, p, i); }
  }

  ghost predicate PartitionedAt(w: World, p: Plan, env: Env, x: nat)
    requires Describes(w, p) && Within(p, RunLog(p, env))
  {
    Count(FreedBy(w, p, env, RunLog(p, env)), x) + Total(w, p, env, TakenOver, x)
    == Total(w, p, env, Allocations, x)
  }

  ghost predicate Partitioned(w: World, p: Plan, env: Env)
    requires Describes(w, p)
  {
    Within(p, RunLog(p, env)) && forall x: nat :: PartitionedAt(w, p, env, x)
  }

  ghost predicate NoneTaken(w: World, p: Plan, env: Env)
    requires Describes(w, p)
  {
    forall x: nat :: Total(w, p, env, TakenOver, x) == 0
  }

  lemma {:induction false} PartitionAtIff(w: World, p: Plan, env: Env, x: nat)
    requires Describes(w, p) && InOnly(w) && CallCoverage.Reached(p, env)
    ensures Within(p, RunLog(p, env))
    ensures PartitionedAt(w, p, env, x) <==> !OutFailed(p, env) || Total(w, p, env, TakenOver, x) == 0
  {
    InArgumentsPartition(w, p, env, x);
  }

  lemma {:induction false} InOnlyPartitionIff(w: World, p: Plan, env: Env)
    requires Describes(w, p) && InOnly(w) && CallCoverage.Reached(p, env)
    ensures Partitioned(w, p, env) <==> !OutFailed(p, env) || NoneTaken(w, p, env)
  {
    PartitionAtIff(w, p, env, 0);
    forall x: nat
      ensures PartitionedAt(w, p, env, x) <==> !OutFailed(p, env) || Total(w, p, env, TakenOver, x) == 0
    {
      PartitionAtIff(w, p, env, x);
    }
  }

  /** For every run: over its whole log, what is freed of in arguments and what the callee took of them partition what
      was allocated for them, if and only if no out() failed or the callee took nothing of them. */
  lemma {:induction false} PartitionIff(w: World, p: Plan, env: Env)
    requires Describes(w, p) && CallCoverage.Reached(p, env)
    ensures var ins := InArguments(w);
            Describes(ins, p) && (Partitioned(ins, p, env) <==> !OutFailed(p, env) || NoneTaken(ins, p, env))
  {
    InArgumentsDescribed(w, p);
    InOnlyPartitionIff(InArguments(w), p, env);
  }

  // ----- what can be said before the call

  /** Only marshallers of outputs have an out() that can fail. */
  ghost predicate Plausible(p: Plan, env: Env) {
    forall pos :: pos in env.outFails ==> CallCoverage.InPlan(p, pos) && !pos.Instance? && HasOut(SlotAt(p, pos))
  }

  /** The callee would take cells of this argument. */
  ghost function WouldTake(w: World, i: nat): Bag
    requires i < |w.specs| == |w.given|
  {
    if w.specs[i].None? || w.specs[i].value.passing.ByOut? then Empty else Taken(w.specs[i].value.transfer, w.given[i])
  }

  /** Transfer NOTHING throughout, or no cells in what is transferred. */
  ghost predicate NothingToTake(w: World)
    requires |w.specs| == |w.given|
  {
    forall i, x: nat :: 0 <= i < |w.specs| ==> Count(WouldTake(w, i), x) == 0
  }

  predicate HasOutputs(p: Plan) {
    HasOut(p.ret) || exists i :: 0 <= i < |p.args| && HasOut(p.args[i])
  }

  /** Some argument has no marshaller, so that C is never reached. */
  predicate NeverCalled(p: Plan) { exists i :: 0 <= i < |p.args| && p.args[i].None? }

  lemma {:induction false} TotalTakenAtLeast(w: World, p: Plan, env: Env, n: nat, i: nat, x: nat)
    requires Describes(w, p) && i + 2 < n <= |p.args| + 2
    ensures Sum(w, p, env, TakenOver, n, x) >= Count(TakenFrom(w, p, env, Arg(i)), x)
  {
    if i + 3 < n { TotalTakenAtLeast(w, p, env, n - 1, i, x); }
  }

  lemma {:induction false} TotalTakenNone(w: World, p: Plan, env: Env, n: nat, x: nat)
    requires Describes(w, p) && InOnly(w) && NothingToTake(w) && n <= |p.args| + 2
    ensures Sum(w, p, env, TakenOver, n, x) == 0
  {
    if n > 0 {
      TotalTakenNone(w, p, env, n - 1, x);
      if n > 2 { assert Count(WouldTake(w, n - 3), x) == 0; }
    }
  }

  /** A run in which everything is converted, C sets no error, and this output cannot be converted back. */
  function FailingRun(p: Plan, pos: Pos): Env {
    Env(p.jsIn, false, {}, false, {pos}, {}, false)
  }

  lemma {:induction false} FailingRunFails(p: Plan, pos: Pos)
    requires |p.args| <= MAX_ARGS && !NeverCalled(p)
    requires CallCoverage.InPlan(p, pos) && !pos.Instance? && HasOut(SlotAt(p, pos))
    ensures var env := FailingRun(p, pos);
            Plausible(p, env) && CallCoverage.Reached(p, env) && Accepted(p, env) && OutFailed(p, env)
  {
    var env := FailingRun(p, pos);
    var k := ConvertedFrom(p, env, 0);
    if k < |p.args| { assert Converts(p, env, k); }
    var n := if pos.Return? then 0 else pos.i + 1;
    assert OutPos(n) == pos && !Shows(p, env, n);
  }

  lemma {:induction false} FailureUnpartitioned(w: World, p: Plan, pos: Pos)
    requires Describes(w, p) && InOnly(w) && !NothingToTake(w)
    requires var env := FailingRun(p, pos); CallCoverage.Reached(p, env) && Accepted(p, env) && OutFailed(p, env)
    ensures !Partitioned(w, p, FailingRun(p, pos))
  {
    var env := FailingRun(p, pos);
    InOnlyPartitionIff(w, p, env);
    var i, x: nat :| 0 <= i < |w.specs| && Count(WouldTake(w, i), x) != 0;
    TotalTakenAtLeast(w, p, env, |p.args| + 2, i, x);
    TakenAsExpected(w, p, env, i, x);
    assert Total(w, p, env, TakenOver, x) > 0;
  }

  lemma TakenAsExpected(w: World, p: Plan, env: Env, i: nat, x: nat)
    requires Describes(w, p) && InOnly(w) && CallCoverage.Reached(p, env) && Accepted(p, env) && OutFailed(p, env)
    requires i < |w.specs|
    ensures Count(TakenFrom(w, p, env, Arg(i)), x) == Count(WouldTake(w, i), x)
  {
  }

  /** Before the call: the cells of in arguments are partitioned in every run if and only if the function has no
      outputs, or takes no cells of in arguments, or cannot be called at all. */
  lemma {:induction false} AlwaysPartitionedIff(w: World, p: Plan)
    requires Describes(w, p) && |p.args| <= MAX_ARGS
    ensures var ins := InArguments(w);
            && Describes(ins, p)
            && ((forall env :: Plausible(p, env) && CallCoverage.Reached(p, env) ==> Partitioned(ins, p, env))
                <==> !HasOutputs(p) || NothingToTake(ins) || NeverCalled(p))
  {
    InArgumentsDescribed(w, p);
    InOnlyAlwaysPartitionedIff(InArguments(w), p);
  }

  lemma {:induction false} InOnlyAlwaysPartitionedIff(w: World, p: Plan)
    requires Describes(w, p) && InOnly(w) && |p.args| <= MAX_ARGS
    ensures (forall env :: Plausible(p, env) && CallCoverage.Reached(p, env) ==> Partitioned(w, p, env))
       <==> !HasOutputs(p) || NothingToTake(w) || NeverCalled(p)
  {
    if !HasOutputs(p) || NothingToTake(w) || NeverCalled(p) {
      forall env | Plausible(p, env) && CallCoverage.Reached(p, env) ensures Partitioned(w, p, env) {
        InOnlyPartitionIff(w, p, env);
        SafeRun(w, p, env);
      }
    } else {
      var pos := SomeOutput(p);
      FailingRunFails(p, pos);
      FailureUnpartitioned(w, p, pos);
      assert Plausible(p, FailingRun(p, pos));
    }
  }

  lemma SomeOutput(p: Plan) returns (pos: Pos)
    requires HasOutputs(p)
    ensures CallCoverage.InPlan(p, pos) && !pos.Instance? && HasOut(SlotAt(p, pos))
  {
    if HasOut(p.ret) {
      pos := Return;
    } else {
      var i :| 0 <= i < |p.args| && HasOut(p.args[i]);
      pos := Arg(i);
    }
  }

  lemma {:induction false} SafeRun(w: World, p: Plan, env: Env)
    requires Describes(w, p) && InOnly(w) && Plausible(p, env) && CallCoverage.Reached(p, env)
    requires !HasOutputs(p) || NothingToTake(w) || NeverCalled(p)
    ensures !OutFailed(p, env) || NoneTaken(w, p, env)
  {
    if NothingToTake(w) {
      forall x: nat ensures Total(w, p, env, TakenOver, x) == 0 { TotalTakenNone(w, p, env, |p.args| + 2, x); }
    } else if NeverCalled(p) {
      var i :| 0 <= i < |p.args| && p.args[i].None?;
      assert !Converts(p, env, i);
    } else {
      var m := ShownFrom(p, env, 0);
      if m <= |p.args| && OutPos(m) in env.outFails { assert HasOut(SlotAt(p, OutPos(m))); }
    }
  }

  /** A list of one integer, transferred completely to a function whose result cannot be converted: the callee has
      taken the link, and it is freed. */
  lemma FreedThoughTaken(cell: nat)
    ensures var s, list := Spec(ByIn, TList(TBasic(BInt(I32))), Everything), CList([Node(cell, CInt(0))]);
            var w := World([Some(s)], [list], [CNull], None, CNull);
            var given, ret := Some(Slot(false, true)), Some(Slot(true, false));
            var p := Plan(false, Slot(false, false), ret, [given], false, 1, 1, 1);
            var env := FailingRun(p, Return);
            && Describes(w, p) && Consistent(p) && CallCoverage.Reached(p, env) && Within(p, RunLog(p, env))
            && Total(w, p, env, TakenOver, cell) == 1
            && Count(FreedBy(w, p, env, RunLog(p, env)), cell) == 1
  {
    var s, list := Spec(ByIn, TList(TBasic(BInt(I32))), Everything), CList([Node(cell, CInt(0))]);
    var w := World([Some(s)], [list], [CNull], None, CNull);
    var p := Plan(false, Slot(false, false), Some(Slot(true, false)), [Some(Slot(false, true))], false, 1, 1, 1);
    var env := FailingRun(p, Return);
    assert HasType(s.ty, list);
    assert DescribesArg(w, p, 0);
    FailingRunFails(p, Return);
    OneLink(cell);
    InArgumentsPartition(w, p, env, cell);
    assert ConvertedFrom(p, env, 0) == 1;
    TotalOfOne(w, p, env, TakenOver, cell);
    TotalOfOne(w, p, env, Allocations, cell);
    assert Invoke.Rank(p.args, 1) == 1 && Invoke.OutCount(p.args, 1) == 0;
  }

  lemma OneLink(cell: nat)
    ensures Count(Cells(CList([Node(cell, CInt(0))])), cell) == 1
  {
    var nodes := [Node(cell, CInt(0))];
    assert nodes[1..] == [];
    assert Count(NodesCells(nodes), cell) == Count(NodeCells(nodes[0]), cell) + Count(NodesCells(nodes[1..]), cell);
  }

  lemma TotalOfTwo(w: World, p: Plan, env: Env, column: Column, x: nat)
    requires Describes(w, p) && |p.args| == 1
    ensures Total(w, p, env, column, x)
         == Count(Book(w, p, env, column, Return), x) + Count(Book(w, p, env, column, Arg(0)), x)
  {
    assert Book(w, p, env, column, Instance) == Empty;
    assert Sum(w, p, env, column, 1, x) == 0;
    assert Sum(w, p, env, column, 2, x) == Count(Book(w, p, env, column, ReleasePos(1)), x);
  }

  lemma TotalOfOne(w: World, p: Plan, env: Env, column: Column, x: nat)
    requires Describes(w, p) && |p.args| == 1 && w.ret.None?
    ensures Total(w, p, env, column, x) == Count(Book(w, p, env, column, Arg(0)), x)
  {
    TotalOfTwo(w, p, env, column, x);
  }

  // ----- cells freed twice

  /** The output that fails frees its value on the spot exactly if it is fully transferred. */
  lemma DiscardedIs(w: World, p: Plan, env: Env, x: nat)
    requires Describes(w, p) && OutFailed(p, env)
    ensures var pos := OutPos(ShownFrom(p, env, 0));
            Count(Discarded(w, p, env), x) ==
            if DiscardsAt(w, pos) then Count(Cells(OutCell(w, p, env, pos)), x) else 0
  {
    var pos := OutPos(ShownFrom(p, env, 0));
    if DiscardsAt(w, pos) {
      assert pos.Arg? ==> DescribesArg(w, p, pos.i);
      OutFreesHandedOver(SpecAt(w, pos).value.ty, Everything, OutCell(w, p, env, pos), x);
    }
  }

  predicate DiscardsAt(w: World, pos: Pos)
    requires pos.Arg? ==> pos.i < |w.specs|
  {
    var s := if pos.Return? then w.ret else if pos.Arg? then w.specs[pos.i] else None;
    s.Some? && !s.value.passing.ByIn? && s.value.transfer.Everything?
  }

  /** In a run in which an out() failed, the release pass frees the value this argument was converted to: it is an in
      argument, or an inout argument whose out cell holds something else by then. */
  ghost predicate FreesGiven(w: World, p: Plan, env: Env, i: nat)
    requires Describes(w, p) && i < |p.args|
  {
    w.specs[i].Some? && (w.specs[i].value.passing.ByInOut? ==>
                           Pointer(w.given[i]) != Pointer(CellAtRelease(w, p, env, Arg(i))))
    && !w.specs[i].value.passing.ByOut?
  }

  /** The failed output frees cell `x`, and so does the release of argument `i`. */
  ghost predicate SharedWith(w: World, p: Plan, env: Env, i: nat, x: nat)
    requires Describes(w, p) && i < |p.args|
  {
    && OutFailed(p, env)
    && DiscardsAt(w, OutPos(ShownFrom(p, env, 0)))
    && Count(Cells(OutCell(w, p, env, OutPos(ShownFrom(p, env, 0)))), x) > 0
    && FreesGiven(w, p, env, i) && Count(Cells(w.given[i]), x) > 0
  }

  ghost predicate SharesCell(w: World, p: Plan, env: Env, x: nat)
    requires Describes(w, p)
  {
    exists i :: 0 <= i < |p.args| && SharedWith(w, p, env, i, x)
  }

  /** Of the first `n` arguments, one is released that holds cell `x`. */
  ghost predicate SomeGiven(w: World, p: Plan, env: Env, n: nat, x: nat)
    requires Describes(w, p) && n <= |p.args|
  {
    exists i :: 0 <= i < n && FreesGiven(w, p, env, i) && Count(Cells(w.given[i]), x) > 0
  }

  lemma {:induction false} ReleasedGiven(w: World, p: Plan, env: Env, n: nat, x: nat)
    requires Describes(w, p) && OutFailed(p, env) && n <= |p.args|
    ensures var given, left := Sum(w, p, env, Allocations, n + 2, x), Sum(w, p, env, LeftBehind, n + 2, x);
            left <= given && (left < given <==> SomeGiven(w, p, env, n, x))
  {
    if n == 0 {
      assert Allocation(w, p, env, Return) == Stranded(w, p, env, Return) == Empty;
      assert Sum(w, p, env, Allocations, 1, x) == 0;
      assert Sum(w, p, env, LeftBehind, 1, x) == 0;
    } else {
      ReleasedGiven(w, p, env, n - 1, x);
      ReleasedOne(w, p, env, n - 1, x);
    }
  }

  lemma ReleasedOne(w: World, p: Plan, env: Env, i: nat, x: nat)
    requires Describes(w, p) && OutFailed(p, env) && i < |p.args|
    ensures var given, left := Count(Allocation(w, p, env, Arg(i)), x), Count(Stranded(w, p, env, Arg(i)), x);
            left <= given && (left < given <==> FreesGiven(w, p, env, i) && Count(Cells(w.given[i]), x) > 0)
  {
  }

  /** Where each cell is allocated once, and is once in the value discarded: a cell is freed twice if and only if the
      output that failed is fully transferred and shares the cell with an argument that the release pass frees. */
  lemma {:induction false} FreedTwiceIff(w: World, p: Plan, env: Env, x: nat)
    requires Describes(w, p) && CallCoverage.Reached(p, env) && OutFailed(p, env)
    requires Total(w, p, env, Allocations, x) <= 1 && Count(Discarded(w, p, env), x) <= 1
    ensures Within(p, RunLog(p, env))
    ensures Count(FreedBy(w, p, env, RunLog(p, env)), x) > 1 <==> SharesCell(w, p, env, x)
  {
    CallConserves(w, p, env, x);
    ReleasedGiven(w, p, env, |p.args|, x);
    DiscardedIs(w, p, env, x);
    NoneHandedOn(w, p, env, |p.args| + 2, x);
    if SomeGiven(w, p, env, |p.args|, x) && Count(Discarded(w, p, env), x) > 0 {
      var i :| 0 <= i < |p.args| && FreesGiven(w, p, env, i) && Count(Cells(w.given[i]), x) > 0;
      assert SharedWith(w, p, env, i, x);
    }
  }

  /** A list of one integer, passed for input and output and transferred completely, that comes back in place. */
  function InPlace(cell: nat): World {
    var list := CList([Node(cell, CInt(0))]);
    World([Some(Spec(ByInOut, TList(TBasic(BInt(I32))), Everything))], [list], [list], None, CNull)
  }

  function OneInOut(): Plan { Plan(false, Slot(false, false), None, [Some(Slot(false, false))], false, 1, 1, 1) }

  lemma InPlaceRuns(cell: nat)
    ensures var w, p, env := InPlace(cell), OneInOut(), FailingRun(OneInOut(), Arg(0));
            && Describes(w, p) && Consistent(p) && CallCoverage.Reached(p, env)
            && Accepted(p, env) && OutFailed(p, env) && OutPos(ShownFrom(p, env, 0)) == Arg(0)
  {
    var w, p, env := InPlace(cell), OneInOut(), FailingRun(OneInOut(), Arg(0));
    assert HasType(w.specs[0].value.ty, w.given[0]);
    assert DescribesArg(w, p, 0);
    FailingRunFails(p, Arg(0));
    assert Shows(p, env, 0) && !Shows(p, env, 1);
    assert Invoke.Rank(p.args, 1) == 1 && Invoke.OutCount(p.args, 1) == 1;
  }

  /** If it cannot be converted back, its link is freed by out() and again by the release pass. */
  lemma FreedTwice(cell: nat)
    ensures var w, p, env := InPlace(cell), OneInOut(), FailingRun(OneInOut(), Arg(0));
            && Describes(w, p) && Consistent(p) && CallCoverage.Reached(p, env) && Within(p, RunLog(p, env))
            && Count(FreedBy(w, p, env, RunLog(p, env)), cell) == 2
  {
    var w, p, env := InPlace(cell), OneInOut(), FailingRun(OneInOut(), Arg(0));
    InPlaceRuns(cell);
    OneLink(cell);
    DiscardedIs(w, p, env, cell);
    TotalOfOne(w, p, env, Allocations, cell);
    TotalOfOne(w, p, env, LeftBehind, cell);
    NoneHandedOn(w, p, env, 3, cell);
    CallConserves(w, p, env, cell);
  }

  lemma {:induction false} NoneHandedOn(w: World, p: Plan, env: Env, n: nat, x: nat)
    requires Describes(w, p) && OutFailed(p, env) && n <= |p.args| + 2
    ensures Sum(w, p, env, HandedOn, n, x) == 0
  {
    if n > 0 { NoneHandedOn(w, p, env, n - 1, x); }
  }

  // ----- outputs that leak

  /** In a run in which an out() failed, a cell that C handed over, and that was not allocated for an argument, is freed
      if and only if it is of the output that failed and that output is fully transferred. */
  lemma {:induction false} HandedOverFreedIff(w: World, p: Plan, env: Env, x: nat)
    requires Describes(w, p) && CallCoverage.Reached(p, env) && OutFailed(p, env)
    requires Total(w, p, env, Allocations, x) == 0
    ensures Within(p, RunLog(p, env))
    ensures var failed := OutPos(ShownFrom(p, env, 0));
            Count(FreedBy(w, p, env, RunLog(p, env)), x) > 0
            <==> DiscardsAt(w, failed) && Count(Cells(OutCell(w, p, env, failed)), x) > 0
  {
    CallConserves(w, p, env, x);
    ReleasedGiven(w, p, env, |p.args|, x);
    DiscardedIs(w, p, env, x);
    NoneHandedOn(w, p, env, |p.args| + 2, x);
  }

  /** A list returned with transfer EVERYTHING by a function whose other output cannot be converted. */
  function ListReturned(cell: nat): World {
    var list := CList([Node(cell, CInt(0))]);
    World([None], [CNull], [CNull], Some(Spec(ByOut, TList(TBasic(BInt(I32))), Everything)), list)
  }

  function TwoOutputs(): Plan {
    Plan(false, Slot(false, false), Some(Slot(true, false)), [Some(Slot(true, false))], false, 0, 2, 1)
  }

  lemma ListReturnedRuns(cell: nat)
    ensures var w, p, env := ListReturned(cell), TwoOutputs(), FailingRun(TwoOutputs(), Arg(0));
            && Describes(w, p) && Consistent(p) && CallCoverage.Reached(p, env)
            && Accepted(p, env) && OutFailed(p, env) && OutPos(ShownFrom(p, env, 0)) == Arg(0)
  {
    var w, p, env := ListReturned(cell), TwoOutputs(), FailingRun(TwoOutputs(), Arg(0));
    assert HasType(w.ret.value.ty, w.returned);
    FailingRunFails(p, Arg(0));
    assert Shows(p, env, 0) && !Shows(p, env, 1);
    assert Invoke.Rank(p.args, 1) == 0 && Invoke.OutCount(p.args, 1) == 1;
  }

  /** Its link is handed over and not freed. */
  lemma OutputLeaked(cell: nat)
    ensures var w, p, env := ListReturned(cell), TwoOutputs(), FailingRun(TwoOutputs(), Arg(0));
            && Describes(w, p) && Consistent(p) && CallCoverage.Reached(p, env) && Within(p, RunLog(p, env))
            && Total(w, p, env, ReceivedBack, cell) == 1
            && Count(FreedBy(w, p, env, RunLog(p, env)), cell) == 0
  {
    var w, p, env := ListReturned(cell), TwoOutputs(), FailingRun(TwoOutputs(), Arg(0));
    ListReturnedRuns(cell);
    OneLink(cell);
    TotalOfTwo(w, p, env, Allocations, cell);
    TotalOfTwo(w, p, env, ReceivedBack, cell);
    HandedOverFreedIff(w, p, env, cell);
  }
}
