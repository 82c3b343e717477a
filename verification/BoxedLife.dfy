/** How a boxed wrapper gets its C memory and how it gives it back (gi/boxed.cpp, gi/struct.cpp, gi/gi-utils.cpp). */
module BoxedLife {
  import opened Basics
  import D = DirectAllocation

  /** What the type system knows of a structure or union. */
  datatype Registration = Unregistered | Boxed(isGValue: bool) | Variant | Other

  /** An introspected method. */
  datatype MethodInfo = MethodInfo(isConstructor: bool, nArgs: nat, name: string)

  datatype Type = Type(isStruct: bool, registration: Registration, fields: seq<D.FieldType>, methods: seq<MethodInfo>) {
    /** m_can_allocate_directly */
    predicate Simple() { D.IsSimple(fields) }

    predicate WithPointers() { D.AnyPointers(fields) }
  }

  /** Where a piece of memory came from. */
  datatype Origin = Malloc | BoxedCopy | VariantRef | ConstructorFunction

  datatype Memory = Memory(address: nat, origin: Origin)

  datatype Deallocator = GFree(unsetValue: bool) | GBoxedFree | GVariantUnref

  datatype Disposal = Untouched | Freed(how: Deallocator, what: Option<Memory>) | Unreachable

  // ----- constructor functions

  datatype Which = AnyConstructor | ZeroArgs | New

  predicate Is(w: Which, m: MethodInfo) {
    m.isConstructor && (w.ZeroArgs? ==> m.nArgs == 0) && (w.New? ==> m.name == "new")
  }

  /** `r` is the first of the methods before `n` that is a constructor of this kind. */
  predicate First(w: Which, ms: seq<MethodInfo>, n: nat, r: Option<nat>)
    requires n <= |ms|
  {
    match r
    case None => forall i :: 0 <= i < n ==> !Is(w, ms[i])
    case Some(k) => k < n && Is(w, ms[k]) && forall i :: 0 <= i < k ==> !Is(w, ms[i])
  }

  /** Which constructor counts as the default one: the first called "new", or else the first without arguments, or
      else the first of all. */
  predicate IsDefault(ms: seq<MethodInfo>, zeroArgs: Option<nat>, default: Option<nat>) {
    if exists m :: m in ms && Is(New, m) then First(New, ms, |ms|, default)
    else if zeroArgs.Some? then default == zeroArgs
    else First(AnyConstructor, ms, |ms|, default)
  }

  /** GI::find_boxed_constructor_indices; types that are not registered have no constructors. */
  method FindConstructors(t: Type) returns (zeroArgs: Option<nat>, default: Option<nat>)
    ensures if t.registration.Unregistered? then zeroArgs == None && default == None
            else First(ZeroArgs, t.methods, |t.methods|, zeroArgs) && IsDefault(t.methods, zeroArgs, default)
  {
    zeroArgs, default := None, None;
    if t.registration.Unregistered? { return; }
    var first: Option<nat> := None;
    var i := 0;
    while i < |t.methods|
      invariant 0 <= i <= |t.methods|
      invariant First(AnyConstructor, t.methods, i, first)
      invariant First(ZeroArgs, t.methods, i, zeroArgs)
      invariant First(New, t.methods, i, default)
    {
      var m := t.methods[i];
      if m.isConstructor {
        if first.None? { first := Some(i); }
        if zeroArgs.None? && m.nArgs == 0 { zeroArgs := Some(i); }
        if default.None? && m.name == "new" { default := Some(i); }
      }
      i := i + 1;
    }
    if default.None? { default := zeroArgs; }
    if default.None? { default := first; }
  }

  predicate HasZeroArgs(t: Type) {
    !t.registration.Unregistered? && exists m :: m in t.methods && Is(ZeroArgs, m)
  }

  /** Variants have a JS constructor of their own. */
  predicate BuiltElsewhere(t: Type) { t.isStruct && t.registration.Variant? }

  /** The wrapper is not to be a copy, or cannot be one. */
  predicate NothingToCopy(t: Type, args: Args) {
    !args.CopyOf? || (args.isInstance && !t.registration.Boxed? && !t.Simple())
  }

  predicate HasDefault(t: Type) {
    !t.registration.Unregistered? && exists m :: m in t.methods && Is(AnyConstructor, m)
  }

  // ----- what becomes of a wrapper

  datatype Args = NoArgs | CopyOf(isInstance: bool) | PlainObject | OneOther | Several

  /** How a wrapper comes about: from JS, from a C value that is copied or shared, or as a view of a field. */
  datatype Source = FromJs(args: Args) | FromC | Shared | View

  /** What the called C and JS code does: the constructor function (fails, returns null, returns memory), the property
      bag. */
  datatype Env = Env(constructorFails: bool, constructorNull: bool, propsOk: bool, delegateOk: bool, address: nat)

  datatype Wrapper = Wrapper(ptr: Option<Memory>, owning: bool, direct: bool)

  const BLANK: Wrapper := Wrapper(None, false, false)

  function Owning(m: Memory): Wrapper { Wrapper(Some(m), true, m.origin.Malloc?) }

  predicate CopiesBoxed(t: Type, source: Source) {
    t.registration.Boxed? && (source.FromC? || (source.FromJs? && source.args == CopyOf(true)))
  }

  predicate CopiesMemory(t: Type, source: Source) {
    && t.Simple() && !t.registration.Boxed?
    && ((source.FromC? && !t.registration.Variant?)
        || (source.FromJs? && source.args == CopyOf(true) && !(t.isStruct && t.registration.Variant?)))
  }

  /** The wrapper is made by calling a constructor function without arguments. */
  predicate CallsZeroArgs(t: Type, source: Source) {
    && source.FromJs? && !(t.isStruct && t.registration.Variant?) && source.args != CopyOf(false)
    && !CopiesBoxed(t, source) && !CopiesMemory(t, source) && HasZeroArgs(t)
  }

  predicate AllocatesDirectly(t: Type, source: Source) {
    && source.FromJs? && !(t.isStruct && t.registration.Variant?) && source.args != CopyOf(false)
    && !CopiesBoxed(t, source) && !CopiesMemory(t, source) && !HasZeroArgs(t) && t.Simple()
    && (!t.WithPointers() || !HasDefault(t) || source.args.PlainObject?)
  }

  /** The finished wrapper, as a table of cases. */
  function Made(t: Type, source: Source, env: Env): Wrapper {
    if source.Shared? || source.View? then Wrapper(Some(Memory(env.address, Malloc)), false, false)
    else if CopiesBoxed(t, source) then Owning(Memory(env.address, BoxedCopy))
    else if source.FromC? && t.registration.Variant? then Owning(Memory(env.address, VariantRef))
    else if CopiesMemory(t, source) || AllocatesDirectly(t, source) then Owning(Memory(env.address, Malloc))
    else if CallsZeroArgs(t, source) && !env.constructorFails then
      (if env.constructorNull then Wrapper(None, true, false) else Owning(Memory(env.address, ConstructorFunction)))
    else BLANK
  }

  function Disposed(t: Type, w: Wrapper): Disposal {
    if !w.owning then Untouched
    else if w.direct then Freed(GFree(t.isStruct && t.registration == Boxed(true)), w.ptr)
    else if t.registration.Boxed? then Freed(GBoxedFree, w.ptr)
    else if t.isStruct && t.registration.Variant? then Freed(GVariantUnref, w.ptr)
    else Unreachable
  }

  /** The deallocator that goes with an allocator; a constructor function of a boxed type returns a boxed value. */
  predicate Matches(how: Deallocator, origin: Origin) {
    match origin
    case Malloc => how.GFree?
    case BoxedCopy => how.GBoxedFree?
    case VariantRef => how.GVariantUnref?
    case ConstructorFunction => how.GBoxedFree?
  }

  /** GVariant is a structure. */
  predicate Plausible(t: Type) { t.registration.Variant? ==> t.isStruct }

  /** Every wrapper that owns memory frees that memory with the deallocator that matches its allocator, unless the
      destructor runs into its assertion; wrappers that share memory free nothing. */
  lemma MatchingDeallocator(t: Type, source: Source, env: Env)
    requires Plausible(t)
    ensures var w, d := Made(t, source, env), Disposed(t, Made(t, source, env));
            && (!w.owning <==> d.Untouched?)
            && (d.Freed? ==> d.what == w.ptr && (w.ptr.Some? ==> Matches(d.how, w.ptr.value.origin)))
            && (source.Shared? || source.View? ==> d.Untouched?)
  {
  }

  /** The destructor's assertion is hit exactly for types registered as neither boxed nor variant whose wrapper was
      made by a constructor function without arguments. */
  lemma UnreachableIff(t: Type, source: Source, env: Env)
    requires Plausible(t)
    ensures Disposed(t, Made(t, source, env)).Unreachable?
       <==> t.registration.Other? && CallsZeroArgs(t, source) && !env.constructorFails
  {
  }

  /** In particular not for boxed types, variants, or types that are allocated directly. */
  lemma SafeTypes(t: Type, source: Source, env: Env)
    requires Plausible(t)
    requires t.registration.Boxed? || t.registration.Variant? || t.registration.Unregistered?
             || Made(t, source, env).direct
    ensures !Disposed(t, Made(t, source, env)).Unreachable?
  {
    UnreachableIff(t, source, env);
  }

  /** Such a type exists: registered as something else, with a constructor that takes no arguments. */
  lemma AssertionReachable(env: Env)
    requires !env.constructorFails
    ensures var t := Type(true, Other, [], [MethodInfo(true, 0, "new")]);
            Plausible(t) && Disposed(t, Made(t, FromJs(NoArgs), env)).Unreachable?
  {
    var t := Type(true, Other, [], [MethodInfo(true, 0, "new")]);
    assert t.methods[0] in t.methods && Is(ZeroArgs, t.methods[0]);
  }

  // ----- the code

  class BoxedInstance {
    const t: Type
    var ptr: Option<Memory>
    var owningPtr: bool
    var allocatedDirectly: bool
    ghost var pointersSet: nat           // calls of own_ptr and share_ptr

    constructor (t: Type)
      ensures this.t == t && Now() == BLANK && pointersSet == 0
    {
      this.t := t;
      ptr, owningPtr, allocatedDirectly := None, false, false;
      pointersSet := 0;
    }

    function Now(): Wrapper
      reads this
    {
      Wrapper(ptr, owningPtr, allocatedDirectly)
    }

    /** The source asserts that there is no pointer yet; here that is a precondition. */
    method OwnPtr(p: Option<Memory>)
      requires ptr == None
      modifies this`ptr, this`owningPtr, this`pointersSet
      ensures ptr == p && owningPtr && pointersSet == old(pointersSet) + 1
    {
      ptr, owningPtr := p, true;
      pointersSet := pointersSet + 1;
    }

    method SharePtr(p: Memory)
      requires ptr == None
      modifies this`ptr, this`owningPtr, this`pointersSet
      ensures ptr == Some(p) && !owningPtr && pointersSet == old(pointersSet) + 1
    {
      ptr, owningPtr := Some(p), false;
      pointersSet := pointersSet + 1;
    }

    method AllocateDirectly(address: nat)
      requires ptr == None && t.Simple()
      modifies this
      ensures Now() == Owning(Memory(address, Malloc)) && pointersSet == old(pointersSet) + 1
    {
      OwnPtr(Some(Memory(address, Malloc)));
      allocatedDirectly := true;
    }

    /** The fields can be set from the arguments, once there is memory. */
    static predicate Filled(args: Args, env: Env) { args.NoArgs? || (!args.Several? && env.propsOk) }

    /** constructor_impl of BoxedInstance and of StructInstance: a variant is constructed elsewhere; a copy of another
        kind of object is refused; copies are made where they can be; otherwise comes the constructor function without
        arguments, then malloc, then the default constructor, which makes another wrapper. */
    method Construct(args: Args, env: Env) returns (ok: bool)
      requires Now() == BLANK && pointersSet == 0
      modifies this
      ensures Now() == Made(t, FromJs(args), env) && pointersSet <= 1
      ensures BuiltElsewhere(t) ==> ok == env.delegateOk && Now() == BLANK
      ensures !BuiltElsewhere(t) && args == CopyOf(false) ==> !ok && Now() == BLANK
      ensures !BuiltElsewhere(t) && args == CopyOf(true) && t.registration.Boxed? ==>
                ok && Now() == Owning(Memory(env.address, BoxedCopy))
      ensures !BuiltElsewhere(t) && args == CopyOf(true) && !t.registration.Boxed? && t.Simple() ==>
                ok && Now() == Owning(Memory(env.address, Malloc))
      ensures !BuiltElsewhere(t) && NothingToCopy(t, args) ==>
                if HasZeroArgs(t) then
                  && (ok <==> !env.constructorFails && Filled(args, env))
                  && (owningPtr <==> !env.constructorFails)
                  && ptr == if env.constructorFails || env.constructorNull then None
                            else Some(Memory(env.address, ConstructorFunction))
                else if t.Simple() && (!t.WithPointers() || !HasDefault(t) || args.PlainObject?) then
                  ok == Filled(args, env) && Now() == Owning(Memory(env.address, Malloc))
                else Now() == BLANK && (ok <==> HasDefault(t) && env.delegateOk)
    {
      if t.isStruct && t.registration.Variant? { return env.delegateOk; }
      if args.CopyOf? {
        if !args.isInstance { return false; }
        if t.registration.Boxed? {
          OwnPtr(Some(Memory(env.address, BoxedCopy)));
          return true;
        }
        if t.Simple() {
          AllocateDirectly(env.address);
          return true;
        }
      }
      var zeroArgs, default := FindConstructors(t);
      FoundOrNot(t, zeroArgs, default);
      if zeroArgs.Some? {
        if env.constructorFails { return false; }
        OwnPtr(if env.constructorNull then None else Some(Memory(env.address, ConstructorFunction)));
      } else if t.Simple() && (!t.WithPointers() || default.None?) {
        AllocateDirectly(env.address);
      } else if default.Some? {
        if t.Simple() && args.PlainObject? {
          AllocateDirectly(env.address);
        } else {
          return env.delegateOk;
        }
      } else {
        return false;
      }
      if args.NoArgs? { return true; }
      if args.Several? { return false; }
      return env.propsOk;
    }

    /** init_from_c_struct, with and without copying, and adopt_nested_ptr */
    method Init(source: Source, env: Env) returns (ok: bool)
      requires !source.FromJs? && Now() == BLANK && pointersSet == 0
      modifies this
      ensures Now() == Made(t, source, env) && pointersSet <= 1
      ensures source.Shared? || source.View? ==> ok && ptr == Some(Memory(env.address, Malloc)) && !owningPtr
      ensures source.FromC? ==>
                match t.registration
                case Boxed(_) => ok && Now() == Owning(Memory(env.address, BoxedCopy))
                case Variant => ok && Now() == Owning(Memory(env.address, VariantRef))
                case _ => ok == t.Simple() && Now() == if ok then Owning(Memory(env.address, Malloc)) else BLANK
    {
      if source.Shared? || source.View? {
        SharePtr(Memory(env.address, Malloc));
        return true;
      }
      if t.registration.Boxed? {
        OwnPtr(Some(Memory(env.address, BoxedCopy)));
        return true;
      }
      if t.registration.Variant? {
        OwnPtr(Some(Memory(env.address, VariantRef)));
        return true;
      }
      if t.Simple() {
        AllocateDirectly(env.address);
        return true;
      }
      return false;
    }

    /** The wrapper was made in one of the ways there are. */
    ghost predicate Finished()
      reads this
    {
      exists source, env :: Now() == Made(t, source, env)
    }

    /** ~StructInstance and ~BoxedInstance: memory that is owned is freed by the deallocator that matches its
        allocator, and forgotten; or else it came from a constructor function of a type that is neither boxed nor
        variant. */
    method Destroy() returns (d: Disposal)
      requires Plausible(t) && Finished()
      modifies this`ptr
      ensures !owningPtr <==> d.Untouched?
      ensures d.Untouched? ==> ptr == old(ptr)
      ensures d.Freed? ==> ptr == None && d.what == old(ptr) && (d.what.Some? ==> Matches(d.how, d.what.value.origin))
      ensures d.Freed? && d.how.GFree? ==> (d.how.unsetValue <==> t.isStruct && t.registration == Boxed(true))
      ensures d.Unreachable? ==> t.registration.Other? && HasZeroArgs(t)
                                 && (old(ptr).Some? ==> old(ptr).value.origin.ConstructorFunction?)
    {
      ghost var source, env :| Now() == Made(t, source, env);
      MatchingDeallocator(t, source, env);
      UnreachableIff(t, source, env);
      var unsetValue := t.isStruct && owningPtr && allocatedDirectly && t.registration == Boxed(true);
      if !owningPtr { return Untouched; }
      var released := ptr;
      if allocatedDirectly {
        ptr := None;
        return Freed(GFree(unsetValue), released);
      }
      if t.registration.Boxed? {
        ptr := None;
        return Freed(GBoxedFree, released);
      }
      if t.isStruct && t.registration.Variant? {
        ptr := None;
        return Freed(GVariantUnref, released);
      }
      return Unreachable;
    }
  }

  lemma FoundOrNot(t: Type, zeroArgs: Option<nat>, default: Option<nat>)
    requires if t.registration.Unregistered? then zeroArgs == None && default == None
             else First(ZeroArgs, t.methods, |t.methods|, zeroArgs) && IsDefault(t.methods, zeroArgs, default)
    ensures zeroArgs.Some? <==> HasZeroArgs(t)
    ensures default.Some? <==> HasDefault(t)
  {
    if zeroArgs.Some? { assert t.methods[zeroArgs.value] in t.methods; }
    if default.Some? { assert t.methods[default.value] in t.methods; }
  }
}
