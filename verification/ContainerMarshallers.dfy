/** BasicTypeContainer (gi/arg-cache.cpp) as it runs, over the argument cells of a call. */
module ContainerMarshallers {
  import opened Basics
  import opened JsValues
  import opened Ledger
  import opened CValues
  import opened Marshal
  import opened Containers
  import L = MarshalLoops

  /** A GIArgument cell: a C value, or the address of the out cell that C is to write. */
  datatype Word = Value(c: CVal) | OutAddress(i: nat)

  /** The cell arrays of GjsFunctionCallState, and its verdict on the call. */
  class CallCells {
    const offset: nat
    const ins: array<Word>
    const outs: array<Word>
    const originals: array<Word>
    var failed: bool
    var threwGError: bool

    ghost predicate Valid() {
      ins.Length == outs.Length == originals.Length && ins != outs && outs != originals && ins != originals
    }

    constructor (isMethod: bool, giArgc: nat)
      ensures Valid() && fresh(ins) && fresh(outs) && fresh(originals) && !failed && !threwGError
      ensures offset == (if isMethod then 2 else 1) && ins.Length == giArgc + offset
      ensures forall i :: 0 <= i < outs.Length ==> outs[i] == Value(CNull)
    {
      offset := if isMethod then 2 else 1;
      var size := giArgc + if isMethod then 2 else 1;
      ins, outs := new Word[size](_ => Value(CNull)), new Word[size](_ => Value(CNull));
      originals := new Word[size](_ => Value(CNull));
      failed, threwGError := false, false;
    }

    predicate CallCompleted() reads this { !failed && !threwGError }
  }

  datatype Family = InFamily | ReturnFamily | OutFamily | InOutFamily

  class BasicTypeContainer {
    const family: Family
    const ty: GiType
    const transfer: Transfer
    const nullable: bool
    const at: nat                  // index of the argument's cells, offset included

    constructor (family: Family, ty: GiType, transfer: Transfer, nullable: bool, at: nat)
      ensures this.family == family && this.ty == ty && this.transfer == transfer && this.nullable == nullable
              && this.at == at
    {
      this.family, this.ty, this.transfer, this.nullable, this.at := family, ty, transfer, nullable, at;
    }

    ghost predicate Fits(state: CallCells) {
      state.Valid() && at < state.ins.Length && ContainerType(ty)
    }

    /** The value cell: what C sees of an in argument, what it wrote to an out argument. */
    function Holding(w: Word): CVal { if w.Value? then w.c else CNull }

    method In(heap: Heap, num: Readings, state: CallCells, v: JS) returns (ok: bool)
      requires Fits(state)
      modifies heap, state.ins, state.outs, state.originals
      ensures family.ReturnFamily? ==> !ok
      ensures family.OutFamily? ==>
                && ok && heap.next == old(heap.next) && heap.freed == old(heap.freed)
                && state.ins[..] == old(state.ins[..])[at := OutAddress(at)]
                && state.outs[..] == old(state.outs[..])[at := Value(CNull)]
      ensures family.InFamily? || family.InOutFamily? ==>
                var r := To(num, ty, v, nullable, Transfer.Nothing, old(heap.next));
                && (ok <==> r.Ok?)
                && (ok ==> heap.next == r.next && L.Freed(old(heap.freed), r.scratch, heap.freed))
                && (ok && family.InFamily? ==> state.ins[..] == old(state.ins[..])[at := Value(r.c)])
                && (ok && family.InOutFamily? ==>
                      && state.ins[..] == old(state.ins[..])[at := OutAddress(at)]
                      && state.outs[..] == old(state.outs[..])[at := Value(r.c)]
                      && state.originals[..] == old(state.originals[..])[at := Value(r.c)])
      ensures family.InFamily? ==> state.outs[..] == old(state.outs[..])
      ensures !family.InOutFamily? ==> state.originals[..] == old(state.originals[..])
    {
      match family
      case ReturnFamily => ok := false;
      case OutFamily =>
        state.outs[at] := Value(CNull);
        state.ins[at] := OutAddress(at);
        ok := true;
      case InFamily =>
        var c;
        ok, c := L.ToValue(heap, num, ty, v, nullable, Transfer.Nothing);
        if ok { state.ins[at] := Value(c); }
      case InOutFamily =>
        var c;
        ok, c := L.ToValue(heap, num, ty, v, nullable, Transfer.Nothing);
        if ok {
          state.outs[at] := Value(c);
          state.originals[at] := Value(c);
          state.ins[at] := OutAddress(at);
        }
    }

    /** out(): on failure a fully transferred value is freed at once and its cell cleared. */
    method Out(heap: Heap, state: CallCells, readable: bool) returns (ok: bool)
      requires Fits(state)
      modifies heap`freed, state.outs
      ensures ok <==> family.InFamily? || readable || Pointer(Holding(old(state.outs[at]))).None?
      ensures var gone := !ok && transfer.Everything?;
              && L.Freed(old(heap.freed), if gone then FreedOut(ty, transfer, Holding(old(state.outs[at])))
                         else Empty, heap.freed)
              && state.outs[..] == if gone then old(state.outs[..])[at := Value(CNull)] else old(state.outs[..])
    {
      var c := Holding(state.outs[at]);
      ok := family.InFamily? || readable || Pointer(c).None?;
      if !ok && transfer.Everything? {
        ghost var before := heap.freed;
        ReleaseContents(heap, c);
        ghost var between := heap.freed;
        ReleaseContainer(heap, c);
        L.BothFreed(before, Contents(ty, c), between, Holder(c), heap.freed);
        state.outs[at] := Value(CNull);
      }
    }

    method Release(heap: Heap, state: CallCells)
      requires Fits(state)
      modifies heap`freed
      ensures var t := Effective(transfer, state.CallCompleted());
              L.Freed(old(heap.freed),
                      match family
                      case InFamily => FreedIn(ty, t, Holding(state.ins[at]))
                      case InOutFamily => FreedInOut(ty, t, Holding(state.originals[at]), Holding(state.outs[at]))
                      case _ => FreedOut(ty, transfer, Holding(state.outs[at])),
                      heap.freed)
    {
      var t := Effective(transfer, state.CallCompleted());
      var c := Holding(state.outs[at]);
      match family
      case InFamily => ReleaseGiven(heap, t, Holding(state.ins[at]));
      case InOutFamily =>
        ghost var before := heap.freed;
        var original := Holding(state.originals[at]);
        if Pointer(original) != Pointer(c) { ReleaseGiven(heap, t, original); }
        ghost var between := heap.freed;
        ReleaseReceived(heap, t, c);
        L.BothFreed(before, if Pointer(original) == Pointer(c) then Empty else FreedIn(ty, t, original), between,
                    FreedOut(ty, t, c), heap.freed);
      case _ => ReleaseReceived(heap, transfer, c);
    }

    method ReleaseGiven(heap: Heap, t: Transfer, c: CVal)
      requires ContainerType(ty)
      modifies heap`freed
      ensures L.Freed(old(heap.freed), FreedIn(ty, t, c), heap.freed)
    {
      if Pointer(c).None? || t.Everything? { return; }
      ghost var before := heap.freed;
      ReleaseContents(heap, c);
      ghost var between := heap.freed;
      if !t.Container? { ReleaseContainer(heap, c); }
      L.BothFreed(before, Contents(ty, c), between, if t.Container? then Empty else Holder(c), heap.freed);
    }

    method ReleaseReceived(heap: Heap, t: Transfer, c: CVal)
      requires ContainerType(ty)
      modifies heap`freed
      ensures L.Freed(old(heap.freed), FreedOut(ty, t, c), heap.freed)
    {
      if Pointer(c).None? || t.Nothing? { return; }
      ghost var before := heap.freed;
      if !t.Container? { ReleaseContents(heap, c); }
      ghost var between := heap.freed;
      ReleaseContainer(heap, c);
      L.BothFreed(before, if t.Container? then Empty else Contents(ty, c), between, Holder(c), heap.freed);
    }

    method ReleaseContents(heap: Heap, c: CVal)
      requires ContainerType(ty)
      modifies heap`freed
      ensures L.Freed(old(heap.freed), Contents(ty, c), heap.freed)
    {
      if !IsString(Element(ty)) { return; }
      if c.CList? { FreeListStrings(heap, c.nodes); }
      if c.CArray? { FreeStrings(heap, c.items); }
    }

    method FreeListStrings(heap: Heap, nodes: seq<Node>)
      modifies heap`freed
      ensures L.Freed(old(heap.freed), ListStrings(nodes), heap.freed)
    {
      ghost var before := heap.freed;
      var i := 0;
      while i < |nodes|
        invariant 0 <= i <= |nodes| && L.Accounted(ListStrings(nodes), before, ListStrings(nodes[i..]), heap.freed)
      {
        ghost var now := heap.freed;
        Suffix(nodes, i);
        L.FreeString(heap, BStr, nodes[i].data);
        ghost var first := if nodes[i].data.CStr? then Cell(nodes[i].data.cell) else Empty;
        L.StepFreed(ListStrings(nodes), before, first, ListStrings(nodes[i + 1..]), now, heap.freed);
        i := i + 1;
      }
    }

    method FreeStrings(heap: Heap, items: seq<CVal>)
      modifies heap`freed
      ensures L.Freed(old(heap.freed), Strings(items), heap.freed)
    {
      ghost var before := heap.freed;
      var i := 0;
      while i < |items|
        invariant 0 <= i <= |items| && L.Accounted(Strings(items), before, Strings(items[i..]), heap.freed)
      {
        ghost var now := heap.freed;
        Suffix(items, i);
        L.FreeString(heap, BStr, items[i]);
        ghost var first := if items[i].CStr? then Cell(items[i].cell) else Empty;
        L.StepFreed(Strings(items), before, first, Strings(items[i + 1..]), now, heap.freed);
        i := i + 1;
      }
    }

    method ReleaseContainer(heap: Heap, c: CVal)
      modifies heap`freed
      ensures L.Freed(old(heap.freed), Holder(c), heap.freed)
    {
      if c.CList? { L.FreeLinks(heap, c.nodes); }
      if c.CArray? { heap.Free(c.header); }
    }
  }
}
