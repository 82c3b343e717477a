/** Exactly when a whole call frees a cell twice. */
module FreedOnce {
  import opened Basics
  import opened JsValues
  import opened Ledger
  import opened CValues
  import opened Containers
  import opened Invoke
  import opened Ownership
  import opened OutFailures
  import opened WholeCall
  import CallCoverage

  // ----- what the conversions allocated

  lemma {:induction false} AllocatedByOne(w: World, p: Plan, env: Env, num: Readings, ins: Inputs, next: nat, i: nat,
                                          x: nat)
    requires Predicted(w, p, env, num, ins, next) && i < ConvertedFrom(p, env, 0)
    ensures var before, after := HeapBefore(w, num, ins, i, next), HeapBefore(w, num, ins, i + 1, next);
            && before <= after
            && Count(Allocation(w, p, env, Arg(i)), x) + Count(ScratchBefore(w, num, ins, i + 1, next), x)
               == Count(ScratchBefore(w, num, ins, i, next), x) + Once(before, after, x)
  {
    if PassedIn(w.specs[i]) {
      var s, before := w.specs[i].value, HeapBefore(w, num, ins, i, next);
      var r := Conversion(w, num, ins, i, before);
      assert PredictedAt(w, num, ins, i, next);
      GivenIsAllocated(num, s.ty, ins.vs[i], ins.nullable[i], before);
      assert Count(Plus(Cells(r.c), r.scratch), x) == Once(before, r.next, x);
    }
  }

  lemma OnceAdds(lo: nat, mid: nat, hi: nat, x: nat)
    requires lo <= mid <= hi
    ensures Once(lo, mid, x) + Once(mid, hi, x) == Once(lo, hi, x)
  {
  }

  /** What the first `n` arguments allocated is held or was freed on the way: each cell once, all of them new. */
  lemma {:induction false} AllocatedOrScratch(w: World, p: Plan, env: Env, num: Readings, ins: Inputs, next: nat,
                                              n: nat, x: nat)
    requires Predicted(w, p, env, num, ins, next) && n <= ConvertedFrom(p, env, 0)
    ensures next <= HeapBefore(w, num, ins, n, next)
    ensures Sum(w, p, env, Allocations, n + 2, x) + Count(ScratchBefore(w, num, ins, n, next), x)
         == Once(next, HeapBefore(w, num, ins, n, next), x)
  {
    if n == 0 {
      assert Sum(w, p, env, Allocations, 1, x) == 0;
    } else {
      AllocatedOrScratch(w, p, env, num, ins, next, n - 1, x);
      AllocatedByOne(w, p, env, num, ins, next, n - 1, x);
      OnceAdds(next, HeapBefore(w, num, ins, n - 1, next), HeapBefore(w, num, ins, n, next), x);
      assert Book(w, p, env, Allocations, ReleasePos(n + 1)) == Allocation(w, p, env, Arg(n - 1));
    }
  }

  /** Arguments after the last that was converted allocate nothing. */
  lemma {:induction false} NoMoreAllocated(w: World, p: Plan, env: Env, n: nat, x: nat)
    requires Describes(w, p) && ConvertedFrom(p, env, 0) + 2 <= n <= |p.args| + 2
    ensures Sum(w, p, env, Allocations, n, x) == Sum(w, p, env, Allocations, ConvertedFrom(p, env, 0) + 2, x)
  {
    if n > ConvertedFrom(p, env, 0) + 2 { NoMoreAllocated(w, p, env, n - 1, x); }
  }

  // ----- what the callee took and handed over

  /** The callee hands over, each once, cells that it took or that are not of this call. */
  ghost predicate HonestAt(w: World, p: Plan, env: Env, lo: nat, hi: nat, x: nat)
    requires Describes(w, p)
  {
    Total(w, p, env, ReceivedBack, x) <= if lo <= x < hi then Total(w, p, env, TakenOver, x) else 1
  }

  lemma {:induction false} TakenWithin(w: World, p: Plan, env: Env, n: nat, x: nat)
    requires Describes(w, p) && n <= |p.args| + 2
    ensures Sum(w, p, env, TakenOver, n, x) <= Sum(w, p, env, Allocations, n, x)
  {
    if n > 0 {
      TakenWithin(w, p, env, n - 1, x);
      TakenOfOne(w, p, env, ReleasePos(n - 1), x);
    }
  }

  lemma TakenOfOne(w: World, p: Plan, env: Env, pos: Pos, x: nat)
    requires Describes(w, p) && CallCoverage.InPlan(p, pos)
    ensures Count(TakenFrom(w, p, env, pos), x) <= Count(Allocation(w, p, env, pos), x)
  {
    if SpecAt(w, pos).Some? && pos.Arg? {
      assert DescribesArg(w, p, pos.i);
      ContentsAndHolder(SpecAt(w, pos).value.ty, Given(w, pos), x);
    }
  }

  /** What one position has in the books is in their total. */
  lemma {:induction false} InTotal(w: World, p: Plan, env: Env, column: Column, n: nat, pos: Pos, x: nat)
    requires Describes(w, p) && CallCoverage.InPlan(p, pos) && Turn(pos) < n <= |p.args| + 2
    ensures Count(Book(w, p, env, column, pos), x) <= Sum(w, p, env, column, n, x)
  {
    if Turn(pos) < n - 1 { InTotal(w, p, env, column, n - 1, pos, x); }
  }

  /** The failed output held what the callee handed over, or what had been converted for it. */
  lemma DiscardedObtained(w: World, p: Plan, env: Env, x: nat)
    requires Describes(w, p)
    ensures Count(Discarded(w, p, env), x) <= Total(w, p, env, ReceivedBack, x)
            || Count(Discarded(w, p, env), x) <= Total(w, p, env, Allocations, x)
  {
    if OutFailed(p, env) {
      var pos := OutPos(ShownFrom(p, env, 0));
      DiscardedIs(w, p, env, x);
      InTotal(w, p, env, ReceivedBack, |p.args| + 2, pos, x);
      InTotal(w, p, env, Allocations, |p.args| + 2, pos, x);
    }
  }

  /** So against an honest callee it holds each cell once, and none of the temporary buffers. */
  lemma DiscardedOnce(w: World, p: Plan, env: Env, num: Readings, ins: Inputs, next: nat, x: nat)
    requires Predicted(w, p, env, num, ins, next)
    requires HonestAt(w, p, env, next, HeapBefore(w, num, ins, ConvertedFrom(p, env, 0), next), x)
    ensures var k := ConvertedFrom(p, env, 0);
            var given, scratch := Total(w, p, env, Allocations, x), Count(ScratchBefore(w, num, ins, k, next), x);
            && given + scratch <= 1 && Count(Discarded(w, p, env), x) + scratch <= 1
            && given + scratch + Total(w, p, env, ReceivedBack, x) <= 1 + Total(w, p, env, TakenOver, x)
  {
    AllocatedOrScratch(w, p, env, num, ins, next, ConvertedFrom(p, env, 0), x);
    NoMoreAllocated(w, p, env, |p.args| + 2, x);
    TakenWithin(w, p, env, |p.args| + 2, x);
    DiscardedObtained(w, p, env, x);
  }

  // ----- main results

  /** Against an honest callee a whole call, temporary buffers included, frees a cell twice if and only if an out()
      failed, of a fully transferred output that shares the cell with an argument the release pass frees. */
  lemma {:induction false} FreedTwiceAtIff(w: World, p: Plan, env: Env, num: Readings, ins: Inputs, next: nat, x: nat)
    requires Predicted(w, p, env, num, ins, next) && CallCoverage.Reached(p, env)
    requires HonestAt(w, p, env, next, HeapBefore(w, num, ins, ConvertedFrom(p, env, 0), next), x)
    ensures Within(p, RunLog(p, env))
    ensures Count(ScratchBefore(w, num, ins, ConvertedFrom(p, env, 0), next), x)
            + Count(FreedBy(w, p, env, RunLog(p, env)), x) > 1
       <==> SharesCell(w, p, env, x)
  {
    DiscardedOnce(w, p, env, num, ins, next, x);
    CallConserves(w, p, env, x);
    if OutFailed(p, env) { FreedTwiceIff(w, p, env, x); }
  }

  ghost predicate Honest(w: World, p: Plan, env: Env, lo: nat, hi: nat)
    requires Describes(w, p)
  {
    forall x: nat :: HonestAt(w, p, env, lo, hi, x)
  }

  /** So the heap of a whole call frees a cell at most once if and only if it is not shared in this way. */
  method RunFreesOnceIff(heap: Heap, num: Readings, w: World, p: Plan, env: Env, ins: Inputs)
    requires Predicted(w, p, env, num, ins, heap.next) && FailsOnValues(w, p, env) && CallCoverage.Reached(p, env)
    requires Honest(w, p, env, heap.next, HeapBefore(w, num, ins, ConvertedFrom(p, env, 0), heap.next))
    modifies heap
    ensures forall x: nat :: Count(heap.freed, x) <= Count(old(heap.freed), x) + 1 <==> !SharesCell(w, p, env, x)
  {
    ghost var next, before, k := heap.next, heap.freed, ConvertedFrom(p, env, 0);
    RunWhole(heap, num, w, p, env, ins);
    ghost var scratch, freed := ScratchBefore(w, num, ins, k, next), FreedBy(w, p, env, RunLog(p, env));
    forall x: nat ensures Count(heap.freed, x) <= Count(before, x) + 1 <==> !SharesCell(w, p, env, x) {
      FreedTwiceAtIff(w, p, env, num, ins, next, x);
      assert Count(Plus(scratch, freed), x) == Count(scratch, x) + Count(freed, x);
    }
  }
}
