/** What CallbackIn::in (gi/arg-cache.cpp) writes for C to see: the function pointer, and the destroy notify and user
    data in the cells of the arguments that the callable names for them. */
module CallbackCells {
  import opened Basics
  import opened Trampoline
  import opened ArgsCache

  /** A cell of the in arguments; trampolines are known by number. */
  datatype Word = Untouched | Null | FunctionOf(tramp: nat) | NotifyFor(tramp: nat) | UserData(tramp: nat)

  /** The marshaller that the plan has for the callback at position `at`. */
  class CallbackIn {
    const at: nat
    const destroyPos: Option<nat>
    const closurePos: Option<nat>
    const scope: Scope

    constructor (at: nat, closurePos: Option<nat>, destroyPos: Option<nat>, scope: Scope)
      ensures this.at == at && this.closurePos == closurePos && this.destroyPos == destroyPos && this.scope == scope
    {
      this.at, this.closurePos, this.destroyPos, this.scope := at, closurePos, destroyPos, scope;
    }

    /** `isNull` is a null that is allowed; other values are functions. */
    method In(callbacks: Callbacks, cells: array<Word>, isNull: bool, wrongObject: bool) returns (ok: bool)
      requires at < cells.Length && (destroyPos.Some? ==> destroyPos.value < cells.Length)
      requires closurePos.Some? ==> closurePos.value < cells.Length
      modifies callbacks, cells
      ensures ok <==> isNull || !(wrongObject && scope.Notified?)
      ensures callbacks.Now() == Next(old(callbacks.Now()),
                                      if isNull then PassNull else Pass(scope, destroyPos.Some?, wrongObject))
      ensures !ok ==> cells[..] == old(cells[..])
      ensures ok ==>
                var i := |old(callbacks.Now()).tramps|;
                forall pos :: 0 <= pos < cells.Length ==>
                                cells[pos] == if pos == at then (if isNull then Null else FunctionOf(i))
                                else if closurePos == Some(pos) then (if isNull then Null else UserData(i))
                                else if destroyPos == Some(pos) then (if isNull then Null else NotifyFor(i))
                                else old(cells[pos])
    {
      var i := |callbacks.tramps|;
      ok := callbacks.In(scope, isNull, destroyPos.Some?, wrongObject);
      if ok {
        if destroyPos.Some? { cells[destroyPos.value] := if isNull then Null else NotifyFor(i); }
        if closurePos.Some? { cells[closurePos.value] := if isNull then Null else UserData(i); }
        cells[at] := if isNull then Null else FunctionOf(i);
      }
    }
  }

  /** A callback argument through the plan that initialisation left: its notify and its user data land where the
      callable says, and the trampoline is kept according to its scope. */
  method PassCallback(f: Function, c: Callable, j: uint8, scope: Scope, callbacks: Callbacks, cells: array<Word>,
                      isNull: bool, wrongObject: bool)
    returns (ok: bool)
    requires f.Initialized(c) && j as int < |c.args| == cells.Length && InRangeArg(c.args, j as int)
    requires j as int !in Claims(c, |c.args|) && PassableCallback(c.args[j])
    modifies callbacks, cells
    ensures ok <==> isNull || !(wrongObject && scope.Notified?)
    ensures var a, i := c.args[j], |old(callbacks.Now()).tramps|;
            && callbacks.Now() == Next(old(callbacks.Now()),
                                       if isNull then PassNull else Pass(scope, a.kind.destroy.Some?, wrongObject))
            && (ok ==>
                  && cells[j] == (if isNull then Null else FunctionOf(i))
                  && (a.kind.closure.Some? ==>
                        cells[a.kind.closure.value] == if isNull then Null else UserData(i))
                  && (a.kind.destroy.Some? && a.kind.destroy != a.kind.closure ==>
                        cells[a.kind.destroy.value] == if isNull then Null else NotifyFor(i))
                  && forall pos :: 0 <= pos < cells.Length && pos != j as int && !TakenBy(a, pos) ==>
                                     cells[pos] == old(cells[pos]))
  {
    var slot := f.cache.Argument(c, j);
    assert DescribedArg(c, j as int, At(c, f.cache.slots[..], j as int));
    var what := slot.value.what;
    var m := new CallbackIn(j as int, what.closure, what.destroy, scope);
    ok := m.In(callbacks, cells, isNull, wrongObject);
  }
}
