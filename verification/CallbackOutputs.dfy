/** The two directions of output values: the JS result that a call builds from its outputs (Function::finish_invoke),
    and the outputs that a callback trampoline takes from a JS result (callback_closure_inner). */
module CallbackOutputs {
  import opened Basics
  import opened JsValues
  import opened Invoke

  /** A void return may still be a pointer, which calls treat as a value and callbacks do not. */
  datatype ReturnKind = VoidReturn | VoidPointerReturn | ValueReturn

  /** `voidTag`: an untyped pointer. `lengthOf`: the length of an array among the outputs, which calls do not show. */
  datatype OutArg = OutArg(direction: Direction, voidTag: bool, lengthOf: bool)

  datatype Signature = Signature(ret: ReturnKind, args: seq<OutArg>)

  datatype Assigned = Assigned(pos: Pos, val: JS)

  // ----- packing

  /** The arguments among the first `m` that are outputs, with or without the hidden lengths. */
  function Outputs(args: seq<OutArg>, m: nat, hidden: bool): (r: seq<Pos>)
    requires m <= |args|
  {
    if m == 0 then []
    else if !args[m - 1].direction.In? && (hidden || !args[m - 1].lengthOf)
    then Outputs(args, m - 1, hidden) + [Arg(m - 1)]
    else Outputs(args, m - 1, hidden)
  }

  /** The outputs of a call, in the order their values are collected. */
  function CallOutputs(sig: Signature): seq<Pos> {
    (if sig.ret.VoidReturn? then [] else [Return]) + Outputs(sig.args, |sig.args|, false)
  }

  /** The plan of such a callable, as far as its outputs are concerned. */
  function PlanOf(sig: Signature, m: nat): seq<Option<Slot>>
    requires m <= |sig.args|
  {
    if m == 0 then []
    else
      var a := sig.args[m - 1];
      PlanOf(sig, m - 1)
      + [Some(if a.lengthOf && !a.direction.In? then Slot(true, true) else Slot(a.direction.Out?, a.direction.In?))]
  }

  lemma {:induction false} SlotsOf(sig: Signature, m: nat)
    requires m <= |sig.args|
    ensures |PlanOf(sig, m)| == m
    ensures forall i :: 0 <= i < m ==>
                          (HasOut(PlanOf(sig, m)[i]) <==> !sig.args[i].direction.In? && !sig.args[i].lengthOf)
  {
    if m > 0 { SlotsOf(sig, m - 1); }
  }

  /** The outputs named here are the positions a completed call collects its values from. */
  lemma {:induction false} CallCollects(sig: Signature, p: Plan, m: nat)
    requires p.args == PlanOf(sig, |sig.args|) && |p.args| == |sig.args| && m <= |sig.args|
    requires HasOut(p.ret) <==> !sig.ret.VoidReturn?
    ensures Collected(p, m + 1) == (if sig.ret.VoidReturn? then [] else [Return]) + Outputs(sig.args, m, false)
  {
    SlotsOf(sig, |sig.args|);
    assert Collected(p, 0) == [];
    if m > 0 { CallCollects(sig, p, m - 1); }
  }

  /** The result: nothing, a single value, or an array. */
  function Packed(values: seq<JS>): JS {
    if |values| == 0 then Undefined else if |values| == 1 then values[0] else Arr(values)
  }

  // ----- unpacking

  /** Output arguments the trampoline counts: untyped pointers are passed over. */
  function Counted(args: seq<OutArg>, m: nat): nat
    requires m <= |args|
  {
    if m == 0 then 0 else Counted(args, m - 1) + if !args[m - 1].direction.In? && !args[m - 1].voidTag then 1 else 0
  }

  function CallbackTargets(sig: Signature): seq<Pos> { Targets(sig, |sig.args|) }

  /** Elements the array does not have read as undefined. */
  function Assignments(targets: seq<Pos>, elems: seq<JS>): (r: seq<Assigned>)
    ensures |r| == |targets|
  {
    if targets == [] then []
    else
      var n := |targets| - 1;
      Assignments(targets[..n], elems) + [Assigned(targets[n], Element(elems, n))]
  }

  lemma {:induction false} AssignmentsAt(targets: seq<Pos>, elems: seq<JS>)
    ensures forall i :: 0 <= i < |targets| ==> Assignments(targets, elems)[i] == Assigned(targets[i], Element(elems, i))
  {
    if targets != [] { AssignmentsAt(targets[..|targets| - 1], elems); }
  }

  /** What the trampoline assigns; None is the exception for a result that is not an array. */
  function Unpacked(sig: Signature, result: JS): Option<seq<Assigned>> {
    var n := Counted(sig.args, |sig.args|);
    var outs := Outputs(sig.args, |sig.args|, true);
    if n == 0 then Some(if sig.ret.ValueReturn? then [Assigned(Return, result)] else [])
    else if n == 1 && !sig.ret.ValueReturn? then Some(if outs == [] then [] else [Assigned(outs[0], result)])
    else if !result.Arr? then None
    else Some(Assignments(CallbackTargets(sig), result.elems))
  }

  /** The part of callback_closure_inner after the JS call. */
  method UnpackResult(sig: Signature, result: JS) returns (r: Option<seq<Assigned>>)
    ensures r == Unpacked(sig, result)
    ensures var n, single := Counted(sig.args, |sig.args|), !sig.ret.ValueReturn?;
            && (r.None? <==> !result.Arr? && n > 0 && !(n == 1 && single))
            && (n == 0 ==> r == Some(if single then [] else [Assigned(Return, result)]))
            && (n > 0 && !(n == 1 && single) && result.Arr? ==>
                  var targets := CallbackTargets(sig);
                  |r.value| == |targets| && forall i :: 0 <= i < |targets| ==>
                                                          r.value[i] == Assigned(targets[i], Element(result.elems, i)))
  {
    AssignmentsAt(CallbackTargets(sig), if result.Arr? then result.elems else []);
    var nOut := CountOutputs(sig.args);
    var voidRet := !sig.ret.ValueReturn?;
    if nOut == 0 { return Some(if voidRet then [] else [Assigned(Return, result)]); }
    if nOut == 1 && voidRet {
      var at := FirstOutput(sig.args);
      return Some(if at.Some? then [Assigned(at.value, result)] else []);
    }
    if !result.Arr? { return None; }
    var done := UnpackArray(sig, result);
    return Some(done);
  }

  method CountOutputs(args: seq<OutArg>) returns (n: nat)
    ensures n == Counted(args, |args|)
  {
    n := 0;
    var i := 0;
    while i < |args|
      invariant 0 <= i <= |args| && n == Counted(args, i)
    {
      if !args[i].voidTag && !args[i].direction.In? { n := n + 1; }
      i := i + 1;
    }
  }

  method UnpackArray(sig: Signature, result: JS) returns (done: seq<Assigned>)
    requires result.Arr?
    ensures done == Assignments(CallbackTargets(sig), result.elems)
  {
    done := [];
    if sig.ret.ValueReturn? { done := [Assigned(Return, Element(result.elems, 0))]; }
    var i := 0;
    FirstTarget(sig, result.elems);
    while i < |sig.args|
      invariant 0 <= i <= |sig.args| && done == Assignments(Targets(sig, i), result.elems)
    {
      NextTarget(sig, i, result.elems);
      if !sig.args[i].direction.In? { done := done + [Assigned(Arg(i), Element(result.elems, |done|))]; }
      i := i + 1;
    }
  }

  /** The targets among the return value and the first `m` arguments. */
  function Targets(sig: Signature, m: nat): seq<Pos>
    requires m <= |sig.args|
  {
    (if sig.ret.ValueReturn? then [Return] else []) + Outputs(sig.args, m, true)
  }

  lemma FirstTarget(sig: Signature, elems: seq<JS>)
    ensures Assignments(Targets(sig, 0), elems) ==
            if sig.ret.ValueReturn? then [Assigned(Return, Element(elems, 0))]
            else []
  {
    if sig.ret.ValueReturn? {
      Single(Return, elems);
      assert Targets(sig, 0) == [Return];
    }
  }

  lemma NextTarget(sig: Signature, i: nat, elems: seq<JS>)
    requires i < |sig.args|
    ensures var before := Assignments(Targets(sig, i), elems);
            Assignments(Targets(sig, i + 1), elems)
            == if sig.args[i].direction.In? then before else before + [Assigned(Arg(i), Element(elems, |before|))]
  {
    if !sig.args[i].direction.In? {
      Associate(if sig.ret.ValueReturn? then [Return] else [], Outputs(sig.args, i, true), [Arg(i)]);
      Snoc(Targets(sig, i), Arg(i), elems);
    }
  }

  function Element(elems: seq<JS>, i: nat): JS { if i < |elems| then elems[i] else Undefined }

  method FirstOutput(args: seq<OutArg>) returns (r: Option<Pos>)
    ensures r.None? <==> Outputs(args, |args|, true) == []
    ensures r.Some? ==> r.value == Outputs(args, |args|, true)[0]
  {
    var i := 0;
    while i < |args|
      invariant 0 <= i <= |args| && Outputs(args, i, true) == []
    {
      if !args[i].direction.In? {
        FirstStays(args, i + 1, |args|);
        return Some(Arg(i));
      }
      i := i + 1;
    }
    return None;
  }

  lemma {:induction false} FirstStays(args: seq<OutArg>, m: nat, n: nat)
    requires m <= n <= |args| && Outputs(args, m, true) != []
    ensures Outputs(args, n, true) != [] && Outputs(args, n, true)[0] == Outputs(args, m, true)[0]
  {
    if m < n { FirstStays(args, m, n - 1); }
  }

  lemma Snoc(targets: seq<Pos>, p: Pos, elems: seq<JS>)
    ensures Assignments(targets + [p], elems) == Assignments(targets, elems) + [Assigned(p, Element(elems, |targets|))]
  {
    assert (targets + [p])[..|targets|] == targets;
  }

  // ----- when they are inverse to each other

  predicate NoLengths(args: seq<OutArg>) {
    forall i :: 0 <= i < |args| ==> args[i].direction.In? || !args[i].lengthOf
  }

  /** A length is a number, and belongs to an array that is an output itself. */
  predicate WellFormed(sig: Signature) {
    && (NoLengths(sig.args) || sig.ret.ValueReturn? || Counted(sig.args, |sig.args|) >= 2)
    && forall i :: 0 <= i < |sig.args| && sig.args[i].lengthOf ==> !sig.args[i].voidTag
  }

  function VoidOutputs(args: seq<OutArg>, m: nat): nat
    requires m <= |args|
  {
    if m == 0 then 0 else VoidOutputs(args, m - 1) + if !args[m - 1].direction.In? && args[m - 1].voidTag then 1 else 0
  }

  /** Every output gets its own value back, whatever the values are. */
  ghost predicate Inverse(sig: Signature) {
    forall values: seq<JS> :: |values| == |CallOutputs(sig)| ==> GivesBack(sig, values)
  }

  ghost predicate GivesBack(sig: Signature, values: seq<JS>)
    requires |values| == |CallOutputs(sig)|
  {
    Unpacked(sig, Packed(values)) == Some(Assignments(CallOutputs(sig), values))
  }

  /** No lengths among the outputs, no void pointer returned, and untyped pointers only next to enough other outputs for
      the trampoline to expect an array. */
  predicate Compatible(sig: Signature) {
    var n := Counted(sig.args, |sig.args|);
    && NoLengths(sig.args)
    && !sig.ret.VoidPointerReturn?
    && (VoidOutputs(sig.args, |sig.args|) == 0 || n >= 2 || (n == 1 && sig.ret.ValueReturn?))
  }

  lemma {:induction false} OutputsCounted(args: seq<OutArg>, m: nat)
    requires m <= |args|
    ensures |Outputs(args, m, true)| == Counted(args, m) + VoidOutputs(args, m)
    ensures NoLengths(args) ==> Outputs(args, m, false) == Outputs(args, m, true)
    ensures forall p :: p in Outputs(args, m, true) ==> p.Arg?
  {
    if m > 0 { OutputsCounted(args, m - 1); }
  }

  lemma Single(p: Pos, values: seq<JS>)
    ensures Assignments([p], values) == [Assigned(p, Element(values, 0))]
  {
    assert [p][..0] == [];
  }

  lemma {:induction false} CompatibleGivesBack(sig: Signature, values: seq<JS>)
    requires Compatible(sig) && |values| == |CallOutputs(sig)|
    ensures GivesBack(sig, values)
  {
    OutputsCounted(sig.args, |sig.args|);
    var n, outs := Counted(sig.args, |sig.args|), Outputs(sig.args, |sig.args|, true);
    assert CallOutputs(sig) == CallbackTargets(sig);
    if n == 0 {
      assert outs == [];
      Single(Return, values);
    } else if n == 1 && !sig.ret.ValueReturn? {
      assert outs == [outs[0]] && CallOutputs(sig) == outs;
      Single(outs[0], values);
    } else {
      assert |values| >= 2;
    }
  }

  /** A hidden length is a target of the trampoline only. */
  lemma {:induction false} HiddenIsTarget(args: seq<OutArg>, m: nat, i: nat)
    requires m <= |args| && i < |args| && !args[i].direction.In? && args[i].lengthOf
    ensures i < m ==> Arg(i) in Outputs(args, m, true) && (!args[i].voidTag ==> Counted(args, m) > 0)
    ensures Arg(i) !in Outputs(args, m, false)
  {
    if m > 0 { HiddenIsTarget(args, m - 1, i); }
  }

  predicate Takes(a: seq<Assigned>, p: Pos) {
    exists i :: 0 <= i < |a| && a[i].pos == p
  }

  lemma TakesTargets(targets: seq<Pos>, elems: seq<JS>, p: Pos)
    ensures Takes(Assignments(targets, elems), p) <==> p in targets
  {
    var a := Assignments(targets, elems);
    AssignmentsAt(targets, elems);
    if p in targets {
      var i :| 0 <= i < |targets| && targets[i] == p;
      assert a[i].pos == p;
    }
  }

  lemma ReturnNotTaken(sig: Signature, result: JS)
    requires !sig.ret.ValueReturn? && Unpacked(sig, result).Some?
    ensures !Takes(Unpacked(sig, result).value, Return)
  {
    OutputsCounted(sig.args, |sig.args|);
    var outs := Outputs(sig.args, |sig.args|, true);
    assert Return !in outs;
    if Counted(sig.args, |sig.args|) <= 1 {
      assert outs != [] ==> outs[0] in outs;
    } else {
      TakesTargets(CallbackTargets(sig), result.elems, Return);
      assert CallbackTargets(sig) == outs;
    }
  }

  lemma VoidPointerLoses(sig: Signature, values: seq<JS>)
    requires sig.ret.VoidPointerReturn? && |values| == |CallOutputs(sig)|
    ensures !GivesBack(sig, values)
  {
    TakesTargets(CallOutputs(sig), values, Return);
    assert CallOutputs(sig)[0] == Return;
    if GivesBack(sig, values) { ReturnNotTaken(sig, Packed(values)); }
  }

  lemma HiddenLoses(sig: Signature, values: seq<JS>, i: nat)
    requires WellFormed(sig) && |values| == |CallOutputs(sig)|
    requires i < |sig.args| && !sig.args[i].direction.In? && sig.args[i].lengthOf
    ensures !GivesBack(sig, values)
  {
    HiddenIsTarget(sig.args, |sig.args|, i);
    assert !NoLengths(sig.args);
    TakesTargets(CallOutputs(sig), values, Arg(i));
    if Packed(values).Arr? { TakesTargets(CallbackTargets(sig), Packed(values).elems, Arg(i)); }
  }

  lemma VoidOutputsLose(sig: Signature, values: seq<JS>)
    requires NoLengths(sig.args) && !sig.ret.VoidPointerReturn? && !Compatible(sig) && |values| == |CallOutputs(sig)|
    ensures !GivesBack(sig, values)
  {
    OutputsCounted(sig.args, |sig.args|);
  }

  lemma {:induction false} IncompatibleLoses(sig: Signature, values: seq<JS>)
    requires WellFormed(sig) && !Compatible(sig) && |values| == |CallOutputs(sig)|
    ensures !GivesBack(sig, values)
  {
    if sig.ret.VoidPointerReturn? {
      VoidPointerLoses(sig, values);
    } else if NoLengths(sig.args) {
      VoidOutputsLose(sig, values);
    } else {
      var i :| 0 <= i < |sig.args| && !sig.args[i].direction.In? && sig.args[i].lengthOf;
      HiddenLoses(sig, values, i);
    }
  }

  /** A result built by a call is taken apart by a callback of the same signature, each output getting its own value
      back, if and only if the signature is compatible. */
  lemma {:induction false} InverseIff(sig: Signature)
    requires WellFormed(sig)
    ensures Inverse(sig) <==> Compatible(sig)
  {
    if Compatible(sig) {
      forall values: seq<JS> | |values| == |CallOutputs(sig)| ensures GivesBack(sig, values) {
        CompatibleGivesBack(sig, values);
      }
    } else {
      var values := seq(|CallOutputs(sig)|, _ => Null);
      IncompatibleLoses(sig, values);
    }
  }

  /** The end of finish_invoke: the result is one that a callback of any compatible signature with this many outputs
      takes apart again, each output getting its own value. */
  method PackResult(values: seq<JS>, jsOutArgc: nat) returns (r: JS)
    requires jsOutArgc == |values|
    ensures r == Packed(values)
    ensures forall sig :: Compatible(sig) && |CallOutputs(sig)| == |values| ==>
                            Unpacked(sig, r) == Some(Assignments(CallOutputs(sig), values))
  {
    forall sig | Compatible(sig) && |CallOutputs(sig)| == |values|
      ensures Unpacked(sig, Packed(values)) == Some(Assignments(CallOutputs(sig), values))
    {
      CompatibleGivesBack(sig, values);
    }
    if jsOutArgc == 0 { return Undefined; }
    if jsOutArgc == 1 { return values[0]; }
    return Arr(values);
  }

  /** An array and its length, both out: a call shows the array alone, and a callback then finds no array of outputs. */
  lemma LengthLost(v: JS)
    requires !v.Arr?
    ensures var sig := Signature(VoidReturn, [OutArg(Out, false, false), OutArg(Out, false, true)]);
            && WellFormed(sig) && !Compatible(sig)
            && CallOutputs(sig) == [Arg(0)] && Packed([v]) == v && Unpacked(sig, v) == None
  {
    var args := [OutArg(Out, false, false), OutArg(Out, false, true)];
    var sig := Signature(VoidReturn, args);
    assert Outputs(args, 1, false) == [] + [Arg(0)];
    assert Outputs(args, 2, false) == [Arg(0)] && [] + [Arg(0)] == [Arg(0)];
    assert Counted(args, 1) == 1 && Counted(args, 2) == 2;
    assert args[1].lengthOf;
  }

  /** An untyped pointer returned is shown by a call and not taken by a callback. */
  lemma PointerLost(v: JS)
    ensures var sig := Signature(VoidPointerReturn, []);
            && WellFormed(sig) && !Compatible(sig)
            && CallOutputs(sig) == [Return] && Packed([v]) == v && Unpacked(sig, v) == Some([])
  {
    assert Outputs([], 0, false) == [] && [Return] + [] == [Return];
  }
}
