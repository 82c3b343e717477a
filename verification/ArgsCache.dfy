/** Construction of a function's plan (gi/arg-cache.cpp, Function::init): a table of argument slots, some of which are
    later taken over by the arrays and callbacks they belong to, and two counters that must stay in step with it. */
module ArgsCache {
  import opened Basics
  import Invoke

  const MAX_ARGS: uint8 := 253

  // ----- what introspection says about a callable

  datatype Kind =
    | Plain
    | CallbackArg(destroy: Option<nat>, closure: Option<nat>)
    | DestroyNotify
    | SizedArray(length: nat)               // a C array with a length argument

  /** `callerAllocates` matters for out arguments only; it says whether a size to allocate is known. */
  datatype ArgInfo = ArgInfo(direction: Direction, callerAllocates: Option<bool>, kind: Kind)

  datatype ReturnInfo = NoReturn | PlainReturn | SizedArrayReturn(length: nat)

  datatype Callable = Callable(isMethod: bool, ret: ReturnInfo, args: seq<ArgInfo>)

  // ----- what is cached

  datatype Marshaller =
    | Ordinary
    | CallerAllocatesOut
    | CallbackIn(destroy: Option<nat>, closure: Option<nat>)
    | ArrayWithLength(length: nat)
    | SkipAll
    | ArrayLengthOut
    | CallbackOut                           // the rest cannot be introspected: in() throws
    | DestroyNotifyNoCallback
    | DestroyNotifyNoUserData
    | CallerAllocatesNonStruct

  datatype Cached = Cached(what: Marshaller, skipIn: bool, skipOut: bool)

  predicate AllocatedByCaller(a: ArgInfo) { a.direction.Out? && a.callerAllocates.Some? }

  predicate IsCallback(a: ArgInfo) { !AllocatedByCaller(a) && a.kind.CallbackArg? && a.direction.In? }

  predicate IsArray(a: ArgInfo) { !AllocatedByCaller(a) && a.kind.SizedArray? }

  /** The slots that building this argument takes over: destroy notify and user data of a callback, length of an
      array. */
  function FirstTaken(a: ArgInfo): Option<nat> {
    if IsCallback(a) then a.kind.destroy else if IsArray(a) then Some(a.kind.length) else None
  }

  function SecondTaken(a: ArgInfo): Option<nat> {
    if IsCallback(a) then a.kind.closure else None
  }

  predicate TakenBy(a: ArgInfo, p: nat) { FirstTaken(a) == Some(p) || SecondTaken(a) == Some(p) }

  function With(claims: set<nat>, p: Option<nat>): set<nat> {
    if p.Some? then claims + {p.value} else claims
  }

  /** The slots taken over by the return value and the first `i` arguments. An argument whose own slot is already taken
      over takes over nothing. */
  function Claims(c: Callable, i: nat): set<nat>
    requires i <= |c.args|
  {
    if i == 0 then (if c.ret.SizedArrayReturn? then {c.ret.length} else {})
    else
      var before, a := Claims(c, i - 1), c.args[i - 1];
      if i - 1 in before then before else With(With(before, FirstTaken(a)), SecondTaken(a))
  }

  function MarshallerFor(a: ArgInfo): Marshaller {
    if AllocatedByCaller(a) then
      (if a.callerAllocates.value then CallerAllocatesOut else CallerAllocatesNonStruct)
    else
      match a.kind
      case Plain => Ordinary
      case SizedArray(length) => ArrayWithLength(length)
      case CallbackArg(destroy, closure) =>
        if !a.direction.In? then CallbackOut
        else if destroy.Some? && closure.None? then DestroyNotifyNoUserData
        else CallbackIn(destroy, closure)
      case DestroyNotify => if a.direction.In? then DestroyNotifyNoCallback else CallbackOut
  }

  function Built(a: ArgInfo): Cached {
    Cached(MarshallerFor(a), a.direction.Out?, a.direction.In?)
  }

  function BuiltReturn(ret: ReturnInfo): Cached
    requires !ret.NoReturn?
  {
    // an array with a length is set without flags, other return values skip in()
    if ret.SizedArrayReturn? then Cached(ArrayWithLength(ret.length), false, false) else Cached(Ordinary, true, false)
  }

  /** What becomes of the slots that building this argument takes over. */
  function TakenAs(a: ArgInfo): Cached {
    Cached(if IsArray(a) && a.direction.Out? then ArrayLengthOut else SkipAll, true, true)
  }

  /** What has become of the taken-over slot `p`: the last to take it over decides. */
  function ClaimedAs(c: Callable, i: nat, p: nat): (slot: Cached)
    requires i <= |c.args| && p in Claims(c, i)
    ensures slot.skipIn && slot.skipOut
  {
    if i == 0 then Cached(ArrayLengthOut, true, true)
    else if i - 1 !in Claims(c, i - 1) && TakenBy(c.args[i - 1], p) then TakenAs(c.args[i - 1])
    else ClaimedAs(c, i - 1, p)
  }

  /** The slot of argument `j` once the first `i` arguments have been visited. */
  predicate SlotIs(c: Callable, i: nat, j: nat, slot: Option<Cached>)
    requires i <= |c.args| && j < |c.args|
  {
    if j in Claims(c, i) then slot == Some(ClaimedAs(c, i, j))
    else if j < i then slot == Some(Built(c.args[j]))
    else slot == None
  }

  // ----- which marshaller an argument gets, told from its description

  /** Callbacks that can be passed: they come with user data, or without a destroy notify. */
  predicate PassableCallback(a: ArgInfo) { IsCallback(a) && (a.kind.destroy.Some? ==> a.kind.closure.Some?) }

  /** The marshaller of an argument whose slot is its own. */
  predicate Suits(a: ArgInfo, what: Marshaller) {
    var structured := AllocatedByCaller(a);
    && (what.CallerAllocatesOut? <==> structured && a.callerAllocates.value)
    && (what.CallerAllocatesNonStruct? <==> structured && !a.callerAllocates.value)
    && (what.CallbackIn? <==> PassableCallback(a))
    && (what.CallbackIn? ==> what.destroy == a.kind.destroy && what.closure == a.kind.closure)
    && (what.DestroyNotifyNoUserData? <==> IsCallback(a) && a.kind.destroy.Some? && a.kind.closure.None?)
    && (what.DestroyNotifyNoCallback? <==> IsNotify(a))
    && (what.CallbackOut? <==> !structured && (a.kind.CallbackArg? || a.kind.DestroyNotify?) && !a.direction.In?)
    && (what.ArrayWithLength? <==> IsArray(a))
    && (what.ArrayWithLength? ==> what.length == a.kind.length)
    && (what.Ordinary? <==> !structured && a.kind.Plain?)
  }

  lemma BuiltSuits(a: ArgInfo)
    ensures Suits(a, Built(a).what)
    ensures (Built(a).skipIn <==> a.direction.Out?) && (Built(a).skipOut <==> a.direction.In?)
  {
  }

  /** A slot that was taken over is an array length that C fills in, or passed over altogether. */
  predicate TakenOverFor(c: Callable, p: nat, slot: Cached) {
    && slot.skipIn && slot.skipOut && (slot.what.ArrayLengthOut? || slot.what.SkipAll?)
    && (slot.what.ArrayLengthOut? ==>
          || (c.ret.SizedArrayReturn? && c.ret.length == p)
          || exists k :: 0 <= k < |c.args| && IsArray(c.args[k]) && c.args[k].direction.Out? && TakenBy(c.args[k], p))
    && (slot.what.SkipAll? ==>
          exists k :: 0 <= k < |c.args| && TakenBy(c.args[k], p) && !(IsArray(c.args[k]) && c.args[k].direction.Out?))
  }

  lemma {:induction false} ClaimedFor(c: Callable, i: nat, p: nat)
    requires i <= |c.args| && p in Claims(c, i)
    ensures TakenOverFor(c, p, ClaimedAs(c, i, p))
  {
    if i > 0 && !(i - 1 !in Claims(c, i - 1) && TakenBy(c.args[i - 1], p)) { ClaimedFor(c, i - 1, p); }
  }

  /** With lengths of the direction of their arrays, C fills in exactly the lengths that are passed out. */
  lemma {:induction false} LengthsPassedOut(c: Callable, i: nat, p: nat)
    requires Sane(c) && (c.ret.SizedArrayReturn? ==> c.args[c.ret.length].direction.Out?)
    requires i <= |c.args| && p in Claims(c, i)
    ensures p < |c.args| && (ClaimedAs(c, i, p).what.ArrayLengthOut? <==> c.args[p].direction.Out?)
  {
    if i > 0 {
      assert SaneArg(c.args, i - 1);
      if !(i - 1 !in Claims(c, i - 1) && TakenBy(c.args[i - 1], p)) { LengthsPassedOut(c, i - 1, p); }
    }
  }

  // ----- counting

  /** Towards C, or back to JS. */
  datatype Way = Inward | Outward

  predicate Flows(a: ArgInfo, way: Way) { if way.Inward? then !a.direction.Out? else !a.direction.In? }

  function B(b: bool): nat { if b then 1 else 0 }

  /** Of the first `m` arguments, those that are passed this way and whose slot is still theirs. */
  function FlowCount(args: seq<ArgInfo>, claims: set<nat>, m: nat, way: Way): (r: nat)
    requires m <= |args|
    ensures r <= m
  {
    if m == 0 then 0 else FlowCount(args, claims, m - 1, way) + B(m - 1 !in claims && Flows(args[m - 1], way))
  }

  predicate IsNotify(a: ArgInfo) { !AllocatedByCaller(a) && a.kind.DestroyNotify? && a.direction.In? }

  /** Whether building an argument whose slot is free counts as one more argument. A destroy notify does not, nor does
      an array whose length was counted before it. */
  predicate Counts(c: Callable, i: nat)
    requires i < |c.args|
  {
    var a := c.args[i];
    !IsNotify(a) && !(IsArray(a) && a.kind.length < i && a.kind.length !in Claims(c, i))
  }

  /** One if `p` is a slot before `i` that is taken over only now. */
  function LateOne(args: seq<ArgInfo>, claims: set<nat>, p: Option<nat>, i: nat, way: Way): nat
    requires i <= |args|
  {
    B(p.Some? && p.value < i && p.value !in claims && Flows(args[p.value], way))
  }

  /** The slots taken over after they were visited. */
  function Late(c: Callable, i: nat, way: Way): nat
    requires i <= |c.args|
  {
    if i == 0 then 0
    else
      var before, a := Claims(c, i - 1), c.args[i - 1];
      Late(c, i - 1, way) +
      if i - 1 in before then 0
      else
        LateOne(c.args, before, FirstTaken(a), i - 1, way)
        + LateOne(c.args, With(before, FirstTaken(a)), SecondTaken(a), i - 1, way)
  }

  /** The arguments built without being counted. */
  function Uncounted(c: Callable, i: nat, way: Way): nat
    requires i <= |c.args|
  {
    if i == 0 then 0
    else Uncounted(c, i - 1, way) + B(i - 1 !in Claims(c, i - 1) && Flows(c.args[i - 1], way) && !Counts(c, i - 1))
  }

  /** The counters after the first `i` arguments. */
  function Counter(c: Callable, i: nat, way: Way): int
    requires i <= |c.args|
  {
    FlowCount(c.args, Claims(c, i), i, way) + Late(c, i, way) - Uncounted(c, i, way)
    + B(way.Outward? && !c.ret.NoReturn?)
  }

  /** Positions lie within the argument list, and no argument takes over itself. */
  predicate InRangeArg(args: seq<ArgInfo>, i: nat)
    requires i < |args|
  {
    var first, second := FirstTaken(args[i]), SecondTaken(args[i]);
    && (first.Some? ==> first.value < |args| && first.value != i)
    && (second.Some? ==> second.value < |args| && second.value != i)
  }

  predicate InRange(c: Callable) {
    && (c.ret.SizedArrayReturn? ==> c.ret.length < |c.args|)
    && forall i :: 0 <= i < |c.args| ==> InRangeArg(c.args, i)
  }

  // ----- effect of one claim on the counts

  lemma {:induction false} ClaimOne(args: seq<ArgInfo>, claims: set<nat>, p: nat, m: nat, way: Way)
    requires m <= |args| && p !in claims
    ensures FlowCount(args, claims + {p}, m, way) == FlowCount(args, claims, m, way) - B(p < m && Flows(args[p], way))
  {
    if m > 0 { ClaimOne(args, claims, p, m - 1, way); }
  }

  lemma {:induction false} ClaimOption(args: seq<ArgInfo>, claims: set<nat>, p: Option<nat>, i: nat, way: Way)
    requires i < |args| && p != Some(i)
    ensures FlowCount(args, With(claims, p), i + 1, way)
         == FlowCount(args, claims, i + 1, way) - LateOne(args, claims, p, i, way)
  {
    if p.Some? {
      if p.value in claims {
        assert claims + {p.value} == claims;
      } else {
        ClaimOne(args, claims, p.value, i + 1, way);
      }
    }
  }

  /** What one turn of the loop in Function::init does to a counter. */
  ghost predicate Stepped(c: Callable, i: nat, inc: bool, way: Way)
    requires i < |c.args|
  {
    Counter(c, i + 1, way) == Counter(c, i, way) + B(inc && Flows(c.args[i], way))
  }

  lemma {:induction false} SkippedStep(c: Callable, i: nat, way: Way)
    requires i < |c.args| && i in Claims(c, i)
    ensures Stepped(c, i, false, way)
  {
  }

  lemma {:induction false} BuiltStep(c: Callable, i: nat, way: Way)
    requires i < |c.args| && InRangeArg(c.args, i) && i !in Claims(c, i)
    ensures Stepped(c, i, Counts(c, i), way)
  {
    var before, first, second := Claims(c, i), FirstTaken(c.args[i]), SecondTaken(c.args[i]);
    ClaimOption(c.args, before, first, i, way);
    ClaimOption(c.args, With(before, first), second, i, way);
  }

  // ----- the cache and the loop

  function Extra(c: Callable): nat { (if c.ret.NoReturn? then 0 else 1) + (if c.isMethod then 1 else 0) }

  /** The slot of argument `j` in the table `s`. */
  function At(c: Callable, s: seq<Option<Cached>>, j: nat): Option<Cached>
    requires |s| == Extra(c) + |c.args| && j < |c.args|
  {
    s[Extra(c) + j]
  }

  predicate AllSlots(c: Callable, i: nat, s: seq<Option<Cached>>)
    requires i <= |c.args|
  {
    |s| == Extra(c) + |c.args| && forall j: nat :: j < |c.args| ==> SlotIs(c, i, j, At(c, s, j))
  }

  /** The table `s'` is `s` after argument `i` was built. */
  predicate BuiltInto(c: Callable, i: nat, s: seq<Option<Cached>>, s': seq<Option<Cached>>)
    requires i < |c.args|
  {
    && |s'| == |s| == Extra(c) + |c.args|
    && forall j: nat :: j < |c.args| ==>
                          if TakenBy(c.args[i], j) then At(c, s', j) == Some(TakenAs(c.args[i]))
                          else if j == i then At(c, s', j) == Some(Built(c.args[i]))
                          else At(c, s', j) == At(c, s, j)
  }

  lemma {:induction false} OverwriteStep(c: Callable, i: nat, s: seq<Option<Cached>>, s': seq<Option<Cached>>)
    requires i < |c.args| && InRangeArg(c.args, i) && i !in Claims(c, i) && AllSlots(c, i, s) && BuiltInto(c, i, s, s')
    ensures AllSlots(c, i + 1, s')
  {
    forall j: nat | j < |c.args| ensures SlotIs(c, i + 1, j, At(c, s', j)) { assert SlotIs(c, i, j, At(c, s, j)); }
  }

  lemma {:induction false} SkipStep(c: Callable, i: nat, s: seq<Option<Cached>>)
    requires i < |c.args| && i in Claims(c, i) && AllSlots(c, i, s)
    ensures AllSlots(c, i + 1, s)
  {
    forall j: nat | j < |c.args| ensures SlotIs(c, i + 1, j, At(c, s, j)) { assert SlotIs(c, i, j, At(c, s, j)); }
  }

  class Cache {
    const isMethod: bool
    const hasReturn: bool
    const slots: array<Option<Cached>>

    constructor (c: Callable)
      ensures isMethod == c.isMethod && hasReturn == !c.ret.NoReturn?
      ensures fresh(slots) && slots.Length == Extra(c) + |c.args|
      ensures forall k :: 0 <= k < slots.Length ==>
                            slots[k] == None
    {
      isMethod, hasReturn := c.isMethod, !c.ret.NoReturn?;
      slots := new Option<Cached>[Extra(c) + |c.args|](_ => None);
    }

    predicate Valid(c: Callable) {
      isMethod == c.isMethod && hasReturn == !c.ret.NoReturn? && slots.Length == Extra(c) + |c.args| <= MAX_ARGS as int
    }

    /** ArgsCache::arg_index; slots are laid out return value, instance, arguments. */
    function ReturnIndex(): uint8 { 0 }

    function InstanceIndex(): uint8 { if hasReturn then 1 else 0 }

    function ArgIndex(index: uint8): uint8
      requires index <= MAX_ARGS
    {
      (if hasReturn then 1 else 0) + (if isMethod then 1 else 0) + index
    }

    predicate Reflects(c: Callable, i: nat)
      requires i <= |c.args|
      reads slots
    {
      Valid(c) && AllSlots(c, i, slots[..])
    }

    function Argument(c: Callable, index: uint8): (slot: Option<Cached>)
      requires Valid(c) && index as int < |c.args|
      reads slots
      ensures slot == slots[Extra(c) + index as int]
    {
      slots[ArgIndex(index)]
    }

    method SetArgument(c: Callable, index: uint8, cached: Cached)
      requires Valid(c) && index as int < |c.args|
      modifies slots
      ensures slots[..] == old(slots[..])[Extra(c) + index as int := Some(cached)]
    {
      slots[ArgIndex(index)] := Some(cached);
    }

    method SetSkipAll(c: Callable, index: nat)
      requires Valid(c) && index < |c.args|
      modifies slots
      ensures slots[..] == old(slots[..])[Extra(c) + index := Some(Cached(SkipAll, true, true))]
    {
      SetArgument(c, index as uint8, Cached(SkipAll, true, true));
    }

    method BuildInstance(c: Callable)
      requires Valid(c)
      modifies slots
      ensures slots[..] ==
              if isMethod then old(slots[..])[InstanceIndex() as int := Some(Cached(Ordinary, false, false))]
              else old(slots[..])
    {
      if isMethod { slots[InstanceIndex()] := Some(Cached(Ordinary, false, false)); }
    }

    method BuildReturn(c: Callable) returns (inc: bool)
      requires Valid(c) && (c.ret.SizedArrayReturn? ==> c.ret.length < |c.args|)
      modifies slots
      ensures inc == hasReturn
      ensures hasReturn ==> slots[0] == Some(BuiltReturn(c.ret))
      ensures isMethod ==> slots[InstanceIndex()] == old(slots[InstanceIndex()])
      ensures forall j: nat :: j < |c.args| ==>
                                 At(c, slots[..], j) == if c.ret.SizedArrayReturn? && j == c.ret.length
                                 then Some(Cached(ArrayLengthOut, true, true)) else At(c, old(slots[..]), j)
    {
      inc := hasReturn;
      if hasReturn {
        slots[ReturnIndex()] := Some(BuiltReturn(c.ret));
        if c.ret.SizedArrayReturn? {
          SetArgument(c, c.ret.length as uint8, Cached(ArrayLengthOut, true, true));
        }
      }
    }

    /** ArgsCache::build_arg */
    method BuildArg(c: Callable, index: uint8) returns (inc: bool)
      requires index as int < |c.args| && InRangeArg(c.args, index as int) && Reflects(c, index as int)
      requires index as int !in Claims(c, index as int)
      modifies slots
      ensures Reflects(c, index as int + 1) && inc == Counts(c, index as int)
      ensures forall k :: 0 <= k < Extra(c) ==> slots[k] == old(slots[k])
    {
      ghost var before := slots[..];
      var a := c.args[index];
      if IsCallback(a) {
        BuildCallback(c, index);
        inc := true;
      } else if IsArray(a) {
        inc := BuildArray(c, index);
      } else {
        SetArgument(c, index, Built(a));
        inc := !IsNotify(a);
      }
      OverwriteStep(c, index as int, before, slots[..]);
    }

    method BuildCallback(c: Callable, index: uint8)
      requires Valid(c) && index as int < |c.args| && InRangeArg(c.args, index as int) && IsCallback(c.args[index])
      modifies slots
      ensures BuiltInto(c, index as int, old(slots[..]), slots[..])
      ensures forall k :: 0 <= k < Extra(c) ==> slots[k] == old(slots[k])
    {
      var kind := c.args[index].kind;
      if kind.destroy.Some? { SetSkipAll(c, kind.destroy.value); }
      if kind.closure.Some? { SetSkipAll(c, kind.closure.value); }
      SetArgument(c, index, Built(c.args[index]));
    }

    /** The length of an array that was counted before the array is now counted out: the two are one JS argument. */
    method BuildArray(c: Callable, index: uint8) returns (inc: bool)
      requires index as int < |c.args| && InRangeArg(c.args, index as int) && IsArray(c.args[index])
      requires Reflects(c, index as int)
      modifies slots
      ensures inc == Counts(c, index as int)
      ensures BuiltInto(c, index as int, old(slots[..]), slots[..])
      ensures forall k :: 0 <= k < Extra(c) ==> slots[k] == old(slots[k])
    {
      var a := c.args[index];
      var cachedLength := Argument(c, a.kind.length as uint8);
      assert SlotIs(c, index as int, a.kind.length, At(c, slots[..], a.kind.length));
      var skipLength := cachedLength.Some? && !(cachedLength.value.skipIn && cachedLength.value.skipOut);
      SetArgument(c, index, Built(a));
      SetArgument(c, a.kind.length as uint8, Cached(if a.direction.Out? then ArrayLengthOut else SkipAll, true, true));
      inc := !(a.kind.length < index as int && skipLength);
    }
  }

  predicate IsSkipped(slot: Option<Cached>) {
    slot.Some? && (slot.value.skipIn || slot.value.skipOut)
  }

  /** The return value's marshaller: an array with its own length position, and not skipped; others skip in(). */
  predicate SuitsReturn(ret: ReturnInfo, slot: Cached) {
    && (slot.what.ArrayWithLength? <==> ret.SizedArrayReturn?) && (slot.what.Ordinary? <==> ret.PlainReturn?)
    && (slot.what.ArrayWithLength? ==> slot.what.length == ret.length)
    && !slot.skipOut && (slot.skipIn <==> ret.PlainReturn?)
  }

  /** What the finished table says of each argument. */
  predicate Described(c: Callable, s: seq<Option<Cached>>) {
    |s| == Extra(c) + |c.args| && forall j: nat :: j < |c.args| ==> DescribedArg(c, j, At(c, s, j))
  }

  predicate DescribedArg(c: Callable, j: nat, slot: Option<Cached>)
    requires j < |c.args|
  {
    && slot.Some?
    && if j in Claims(c, |c.args|) then TakenOverFor(c, j, slot.value)
       else
         && Suits(c.args[j], slot.value.what)
         && (slot.value.skipIn <==> c.args[j].direction.Out?) && (slot.value.skipOut <==> c.args[j].direction.In?)
  }

  lemma SlotsDescribed(c: Callable, s: seq<Option<Cached>>)
    requires AllSlots(c, |c.args|, s)
    ensures Described(c, s)
  {
    forall j: nat | j < |c.args| ensures DescribedArg(c, j, At(c, s, j)) {
      assert SlotIs(c, |c.args|, j, At(c, s, j));
      if j in Claims(c, |c.args|) { ClaimedFor(c, |c.args|, j); } else { BuiltSuits(c.args[j]); }
    }
  }

  class Function {
    var jsInArgc: uint8
    var jsOutArgc: uint8
    var cache: Cache?

    constructor ()
      ensures jsInArgc == 0 && jsOutArgc == 0 && cache == null
    {
      jsInArgc, jsOutArgc, cache := 0, 0, null;
    }

    /** What Init leaves behind. */
    ghost predicate Initialized(c: Callable)
      reads this, if cache != null then {cache.slots} else {}
    {
      && cache != null && cache.Reflects(c, |c.args|) && Described(c, cache.slots[..])
      && jsInArgc as int == Counter(c, |c.args|, Inward) && jsOutArgc as int == Counter(c, |c.args|, Outward)
      && (!c.ret.NoReturn? ==> cache.slots[0] == Some(BuiltReturn(c.ret)) && SuitsReturn(c.ret, BuiltReturn(c.ret)))
      && (c.isMethod ==> cache.slots[Extra(c) - 1] == Some(Cached(Ordinary, false, false)))
    }

    /** Function::init: afterwards the slots are those the claims tell, and each counter is the number of slots passed
        that way, off by the slots taken over after they were counted and by the arguments that were not counted. */
    method Init(c: Callable) returns (ok: bool)
      requires InRange(c) && jsInArgc == 0 && jsOutArgc == 0 && cache == null
      modifies this
      ensures ok <==> Extra(c) + |c.args| <= MAX_ARGS as int
      ensures ok ==> Initialized(c) && fresh(cache) && fresh(cache.slots)
    {
      if Extra(c) + |c.args| > MAX_ARGS as int { return false; }
      var built := new Cache(c);
      cache := built;
      built.BuildInstance(c);
      var inc := built.BuildReturn(c);
      if inc { jsOutArgc := jsOutArgc + 1; }
      BuildArguments(c, built);
      SlotsDescribed(c, built.slots[..]);
      return true;
    }

    method BuildArguments(c: Callable, built: Cache)
      requires InRange(c) && built.Reflects(c, 0)
      requires jsInArgc as int == Counter(c, 0, Inward) && jsOutArgc as int == Counter(c, 0, Outward)
      modifies this`jsInArgc, this`jsOutArgc, built.slots
      ensures built.Reflects(c, |c.args|)
      ensures jsInArgc as int == Counter(c, |c.args|, Inward) && jsOutArgc as int == Counter(c, |c.args|, Outward)
      ensures forall k :: 0 <= k < Extra(c) ==> built.slots[k] == old(built.slots[k])
    {
      var i: uint8 := 0;
      while i as int < |c.args|
        invariant i as int <= |c.args| && built.Reflects(c, i as int)
        invariant jsInArgc <= i && jsOutArgc <= i + 1
        invariant jsInArgc as int == Counter(c, i as int, Inward) && jsOutArgc as int == Counter(c, i as int, Outward)
        invariant forall k :: 0 <= k < Extra(c) ==> built.slots[k] == old(built.slots[k])
      {
        var inc := Visit(c, built, i);
        Count(c, i, inc);
        i := i + 1;
      }
    }

    method Visit(c: Callable, built: Cache, i: uint8) returns (inc: bool)
      requires InRange(c) && i as int < |c.args| && built.Reflects(c, i as int)
      modifies built.slots
      ensures built.Reflects(c, i as int + 1) && Stepped(c, i as int, inc, Inward) && Stepped(c, i as int, inc, Outward)
      ensures forall k :: 0 <= k < Extra(c) ==> built.slots[k] == old(built.slots[k])
    {
      inc := false;
      assert SlotIs(c, i as int, i as int, At(c, built.slots[..], i as int)) && InRangeArg(c.args, i as int);
      if IsSkipped(built.Argument(c, i)) {
        SkippedStep(c, i as int, Inward);
        SkippedStep(c, i as int, Outward);
        SkipStep(c, i as int, built.slots[..]);
      } else {
        BuiltStep(c, i as int, Inward);
        BuiltStep(c, i as int, Outward);
        inc := built.BuildArg(c, i);
      }
    }

    method Count(c: Callable, i: uint8, inc: bool)
      requires i as int < |c.args| <= MAX_ARGS as int && jsInArgc <= i && jsOutArgc <= i + 1
      modifies this`jsInArgc, this`jsOutArgc
      ensures jsInArgc == old(jsInArgc) + if inc && Flows(c.args[i], Inward) then 1 else 0
      ensures jsOutArgc == old(jsOutArgc) + if inc && Flows(c.args[i], Outward) then 1 else 0
    {
      if inc {
        match c.args[i].direction
        case InOut => jsOutArgc, jsInArgc := jsOutArgc + 1, jsInArgc + 1;
        case In => jsInArgc := jsInArgc + 1;
        case Out => jsOutArgc := jsOutArgc + 1;
      }
    }

    /** The plan a call works with, read off the cache. */
    method ReadPlan(c: Callable, canThrow: bool) returns (p: Invoke.Plan)
      requires Initialized(c)
      ensures p == FinalPlan(c, canThrow)
    {
      var args: seq<Option<Invoke.Slot>> := [];
      var i: uint8 := 0;
      while i as int < |c.args|
        invariant i as int <= |c.args| && args == FinalSlots(c, i as int)
      {
        assert SlotIs(c, |c.args|, i as int, At(c, cache.slots[..], i as int));
        args := args + [SlotOf(cache.Argument(c, i))];
        i := i + 1;
      }
      var ret := if cache.hasReturn then SlotOf(cache.slots[cache.ReturnIndex()]) else None;
      return Invoke.Plan(c.isMethod, Invoke.Slot(false, false), ret, args, canThrow, jsInArgc as int, jsOutArgc as int,
                         (if c.isMethod then 1 else 0) + |c.args| + (if canThrow then 1 else 0));
    }
  }

  function SlotOf(slot: Option<Cached>): Option<Invoke.Slot> {
    if slot.None? then None else Some(Invoke.Slot(slot.value.skipIn, slot.value.skipOut))
  }

  // ----- what the counters mean

  /** The flags of argument `j` once everything is built. */
  function FinalSlot(c: Callable, j: nat): Invoke.Slot
    requires j < |c.args|
  {
    if j in Claims(c, |c.args|) then Invoke.Slot(true, true)
    else Invoke.Slot(Built(c.args[j]).skipIn, Built(c.args[j]).skipOut)
  }

  function FinalSlots(c: Callable, m: nat): (slots: seq<Option<Invoke.Slot>>)
    requires m <= |c.args|
    ensures |slots| == m && forall j :: 0 <= j < m ==> slots[j] == Some(FinalSlot(c, j))
  {
    if m == 0 then [] else FinalSlots(c, m - 1) + [Some(FinalSlot(c, m - 1))]
  }

  lemma {:induction false} CountsAreRanks(c: Callable, slots: seq<Option<Invoke.Slot>>, m: nat)
    requires slots == FinalSlots(c, |c.args|) && m <= |c.args|
    ensures Invoke.Rank(slots, m) == FlowCount(c.args, Claims(c, |c.args|), m, Inward)
    ensures Invoke.OutCount(slots, m) == FlowCount(c.args, Claims(c, |c.args|), m, Outward)
  {
    if m > 0 { CountsAreRanks(c, slots, m - 1); }
  }

  /** The counters a caller can trust: as many slots were taken over late as arguments were left uncounted. */
  predicate Even(c: Callable, way: Way) { Late(c, |c.args|, way) == Uncounted(c, |c.args|, way) }

  /** The in count is the number of slots JS has to supply, and the out count the number of slots that give JS a value
      with the return value, if and only if the two deviations are even. */
  lemma {:induction false} CountsExactIff(c: Callable)
    ensures Counter(c, |c.args|, Inward) == Invoke.Rank(FinalSlots(c, |c.args|), |c.args|) <==> Even(c, Inward)
    ensures Counter(c, |c.args|, Outward) == Invoke.OutCount(FinalSlots(c, |c.args|), |c.args|) + B(!c.ret.NoReturn?)
       <==> Even(c, Outward)
  {
    CountsAreRanks(c, FinalSlots(c, |c.args|), |c.args|);
  }

  /** The plan that Function::init leaves behind. */
  function FinalPlan(c: Callable, canThrow: bool): Invoke.Plan
    requires Counter(c, |c.args|, Inward) >= 0 && Counter(c, |c.args|, Outward) >= 0
  {
    Invoke.Plan(c.isMethod, Invoke.Slot(false, false),
                if c.ret.NoReturn? then None else SlotOf(Some(BuiltReturn(c.ret))),
                FinalSlots(c, |c.args|), canThrow, Counter(c, |c.args|, Inward), Counter(c, |c.args|, Outward),
                (if c.isMethod then 1 else 0) + |c.args| + (if canThrow then 1 else 0))
  }

  // ----- sane introspection data

  /** An argument that can be a length or user data: an ordinary one, passed this way. */
  predicate SaneTaken(args: seq<ArgInfo>, p: nat, direction: Direction) {
    p < |args| && args[p].kind.Plain? && !AllocatedByCaller(args[p]) && args[p].direction == direction
  }

  predicate SaneArg(args: seq<ArgInfo>, i: nat)
    requires i < |args|
  {
    var a := args[i];
    && (IsArray(a) ==> SaneTaken(args, a.kind.length, a.direction))
    && (IsCallback(a) ==>
          && (a.kind.closure.Some? ==> SaneTaken(args, a.kind.closure.value, In))
          && (a.kind.destroy.Some? ==> a.kind.destroy.value < |args| && IsNotify(args[a.kind.destroy.value])))
  }

  /** Lengths have the direction of their arrays, user data is passed in, destroy notifies are what they claim to be. */
  predicate Sane(c: Callable) {
    && (c.ret.SizedArrayReturn? ==> c.ret.length < |c.args| && c.args[c.ret.length].kind.Plain?)
    && forall i :: 0 <= i < |c.args| ==> SaneArg(c.args, i)
  }

  lemma SaneInRange(c: Callable)
    requires Sane(c)
    ensures InRange(c)
  {
    forall i | 0 <= i < |c.args| ensures InRangeArg(c.args, i) { assert SaneArg(c.args, i); }
  }

  /** Of the first `m` arguments, the destroy notifies that no callback has taken over. */
  function LooseNotifies(args: seq<ArgInfo>, claims: set<nat>, m: nat): nat
    requires m <= |args|
  {
    if m == 0 then 0 else LooseNotifies(args, claims, m - 1) + B(m - 1 !in claims && IsNotify(args[m - 1]))
  }

  /** The user data visited before the callback it belongs to. */
  function LateUserData(c: Callable, i: nat): nat
    requires i <= |c.args|
  {
    if i == 0 then 0
    else
      var before, a := Claims(c, i - 1), c.args[i - 1];
      LateUserData(c, i - 1)
      + if i - 1 !in before && IsCallback(a)
      then LateOne(c.args, With(before, a.kind.destroy), a.kind.closure, i - 1, Inward) else 0
  }

  lemma {:induction false} ClaimLoose(args: seq<ArgInfo>, claims: set<nat>, p: Option<nat>, m: nat)
    requires m <= |args|
    ensures LooseNotifies(args, With(claims, p), m)
         == LooseNotifies(args, claims, m)
            - B(p.Some? && p.value < m && p.value !in claims && IsNotify(args[p.value]))
  {
    if m > 0 { ClaimLoose(args, claims, p, m - 1); }
    if p.Some? && p.value in claims { assert With(claims, p) == claims; }
  }

  /** With sane data the out count never deviates; the in count does by late user data and loose notifies. */
  lemma {:induction false} SaneDeviation(c: Callable, i: nat)
    requires Sane(c) && i <= |c.args|
    ensures Late(c, i, Outward) == Uncounted(c, i, Outward)
    ensures Late(c, i, Inward) - Uncounted(c, i, Inward) == LateUserData(c, i) - LooseNotifies(c.args, Claims(c, i), i)
  {
    if i > 0 {
      SaneDeviation(c, i - 1);
      SaneStep(c, i - 1);
    }
  }

  lemma {:induction false} SaneStep(c: Callable, i: nat)
    requires Sane(c) && i < |c.args|
    ensures Late(c, i + 1, Outward) - Late(c, i, Outward) == Uncounted(c, i + 1, Outward) - Uncounted(c, i, Outward)
    ensures Late(c, i + 1, Inward) - Late(c, i, Inward) - (Uncounted(c, i + 1, Inward) - Uncounted(c, i, Inward))
         == LateUserData(c, i + 1) - LateUserData(c, i)
            - (LooseNotifies(c.args, Claims(c, i + 1), i + 1) - LooseNotifies(c.args, Claims(c, i), i))
  {
    var before, first, second := Claims(c, i), FirstTaken(c.args[i]), SecondTaken(c.args[i]);
    assert SaneArg(c.args, i);
    if i !in before {
      ClaimLoose(c.args, before, first, i + 1);
      ClaimLoose(c.args, With(before, first), second, i + 1);
    }
  }

  /** With sane data the in count is exact if and only if as many user data slots came before their callback as there
      are destroy notifies without one. */
  lemma {:induction false} SaneEvenIff(c: Callable)
    requires Sane(c)
    ensures InRange(c) && Even(c, Outward)
    ensures Even(c, Inward) <==> LateUserData(c, |c.args|) == LooseNotifies(c.args, Claims(c, |c.args|), |c.args|)
  {
    SaneDeviation(c, |c.args|);
    SaneInRange(c);
  }

  /** What a binding author has to see to: user data after its callback, no destroy notify without one. */
  predicate WellFormed(c: Callable) {
    && Sane(c)
    && (forall i :: 0 <= i < |c.args| && IsCallback(c.args[i]) && c.args[i].kind.closure.Some? ==>
                      c.args[i].kind.closure.value > i)
    && (forall j :: 0 <= j < |c.args| && IsNotify(c.args[j]) ==>
                      exists i :: 0 <= i < |c.args| && TakenBy(c.args[i], j))
  }

  /** Which slots are taken over does not depend on the order of the arguments. */
  lemma {:induction false} ClaimsOrderFree(c: Callable, i: nat, p: nat)
    requires Sane(c) && i <= |c.args|
    ensures p in Claims(c, i) <==> (c.ret.SizedArrayReturn? && p == c.ret.length)
                                   || exists k :: 0 <= k < i && TakenBy(c.args[k], p)
  {
    if i > 0 {
      ClaimsOrderFree(c, i - 1, p);
      if IsCallback(c.args[i - 1]) || IsArray(c.args[i - 1]) { NoTakerTaken(c, i - 1, i - 1); }
    }
  }

  /** An argument that takes over others is not itself taken over. */
  lemma {:induction false} NoTakerTaken(c: Callable, i: nat, m: nat)
    requires Sane(c) && i < |c.args| && m <= |c.args| && (IsCallback(c.args[i]) || IsArray(c.args[i]))
    ensures i !in Claims(c, m)
  {
    if m > 0 {
      NoTakerTaken(c, i, m - 1);
      assert SaneArg(c.args, m - 1);
    }
  }

  lemma {:induction false} NoLateUserData(c: Callable, i: nat)
    requires WellFormed(c) && i <= |c.args|
    ensures LateUserData(c, i) == 0
  {
    if i > 0 { NoLateUserData(c, i - 1); }
  }

  lemma {:induction false} NoLooseNotifies(c: Callable, m: nat)
    requires WellFormed(c) && m <= |c.args|
    ensures LooseNotifies(c.args, Claims(c, |c.args|), m) == 0
  {
    if m > 0 {
      NoLooseNotifies(c, m - 1);
      ClaimsOrderFree(c, |c.args|, m - 1);
    }
  }

  /** For every well-formed callable, whatever the order of its arguments, the plan is one the call protocol can run,
      and the slots take exactly the JS arguments that are asked for. */
  lemma {:induction false} PlanConsistent(c: Callable, canThrow: bool)
    requires WellFormed(c)
    ensures Counter(c, |c.args|, Inward) >= 0 && Counter(c, |c.args|, Outward) >= 0
    ensures Invoke.Consistent(FinalPlan(c, canThrow))
  {
    NoLateUserData(c, |c.args|);
    NoLooseNotifies(c, |c.args|);
    SaneEvenIff(c);
    CountsExactIff(c);
  }

  /** A function from its description to its call: whenever the out count is exact, as the call asserts. It is, whatever
      the in count, if lengths have the direction of their arrays (SaneEvenIff). */
  method InitAndInvoke(c: Callable, canThrow: bool, env: Invoke.Env) returns (ok: bool, result: Invoke.Result)
    requires InRange(c) && Even(c, Outward)
    ensures ok <==> Extra(c) + |c.args| <= MAX_ARGS as int
    ensures ok ==> Counter(c, |c.args|, Inward) >= 0 && Counter(c, |c.args|, Outward) >= 0
                   && result == Invoke.Outcome(FinalPlan(c, canThrow), env)
  {
    result := Invoke.TooManyArguments;
    var f := new Function();
    ok := f.Init(c);
    if ok {
      var p := f.ReadPlan(c, canThrow);
      CountsExactIff(c);
      var state;
      result, state := Invoke.InvokeFunction(p, env);
    }
  }

  // ----- inputs that fail

  /** User data before its callback: JS is asked for two arguments, of which one is used. */
  lemma UserDataFirst()
    ensures var c := Callable(false, NoReturn,
                              [ArgInfo(In, None, Plain), ArgInfo(In, None, CallbackArg(None, Some(0)))]);
            Sane(c) && Counter(c, 2, Inward) == 2 && Invoke.Rank(FinalSlots(c, 2), 2) == 1
  {
    var c := Callable(false, NoReturn, [ArgInfo(In, None, Plain), ArgInfo(In, None, CallbackArg(None, Some(0)))]);
    assert Claims(c, 1) == {} && Claims(c, 2) == {0};
    assert FlowCount(c.args, {0}, 1, Inward) == 0;
    assert Late(c, 1, Inward) == 0 && Uncounted(c, 1, Inward) == 0;
    CountsAreRanks(c, FinalSlots(c, 2), 2);
  }

  /** A destroy notify without a callback is not counted, but its slot is not skipped either. */
  lemma LooseNotify()
    ensures var c := Callable(false, NoReturn, [ArgInfo(In, None, DestroyNotify)]);
            Sane(c) && Counter(c, 1, Inward) == 0 && Invoke.Rank(FinalSlots(c, 1), 1) == 1
  {
    var c := Callable(false, NoReturn, [ArgInfo(In, None, DestroyNotify)]);
    assert Claims(c, 1) == {};
    assert FlowCount(c.args, {}, 1, Inward) == 1;
    CountsAreRanks(c, FinalSlots(c, 1), 1);
  }

  /** An out length before its in array: no JS argument is asked for though one is needed, and one output is counted
      though none is given. */
  lemma MixedLength()
    ensures var c := Callable(false, NoReturn, [ArgInfo(Out, None, Plain), ArgInfo(In, None, SizedArray(0))]);
            && InRange(c)
            && Counter(c, 2, Inward) == 0 && Invoke.Rank(FinalSlots(c, 2), 2) == 1
            && Counter(c, 2, Outward) == 1 && Invoke.OutCount(FinalSlots(c, 2), 2) == 0
  {
    var c := Callable(false, NoReturn, [ArgInfo(Out, None, Plain), ArgInfo(In, None, SizedArray(0))]);
    assert Claims(c, 1) == {} && Claims(c, 2) == {0};
    assert FlowCount(c.args, {0}, 1, Inward) == 0 && FlowCount(c.args, {0}, 1, Outward) == 0;
    assert Late(c, 1, Inward) == 0 && Uncounted(c, 1, Inward) == 0;
    assert Late(c, 1, Outward) == 0 && Uncounted(c, 1, Outward) == 0;
    CountsAreRanks(c, FinalSlots(c, 2), 2);
  }
}
