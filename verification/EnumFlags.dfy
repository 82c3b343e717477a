/** Range checks of enum and flags arguments (EnumIn and FlagsIn in gi/arg-cache.cpp): bounds and masks are squeezed
    into 32 bits when the argument is cached. */
module EnumFlags {
  import opened Basics

  // ----- enum bounds

  function Least(values: seq<int>): (m: int)
    requires values != []
    ensures m in values && forall v :: v in values ==> m <= v
  {
    var last := values[|values| - 1];
    if |values| == 1 then last
    else
      var m := Least(values[..|values| - 1]);
      assert forall v :: v in values ==> v in values[..|values| - 1] || v == last;
      if last < m then last else m
  }

  function Greatest(values: seq<int>): (m: int)
    requires values != []
    ensures m in values && forall v :: v in values ==> v <= m
  {
    var last := values[|values| - 1];
    if |values| == 1 then last
    else
      var m := Greatest(values[..|values| - 1]);
      assert forall v :: v in values ==> v in values[..|values| - 1] || v == last;
      if last > m then last else m
  }

  /** The bit fields of Arg::Enum. */
  datatype Bounds = Bounds(min: int, max: int, isUnsigned: bool)

  function Packed(min: int, max: int): Bounds {
    Bounds(U32.Cast(min), U32.Cast(max), min >= 0 && max > I32.Max())
  }

  /** The values before the first: an enum without values keeps them. */
  function BoundsOf(values: seq<int>): Bounds {
    if values == [] then Packed(I64.Max(), I64.Min()) else Packed(Least(values), Greatest(values))
  }

  /** The comparison in EnumIn::in, on the number JS::ToInt64 gave. */
  predicate Accepts(b: Bounds, n: int) {
    if b.isUnsigned then b.min <= n <= b.max else I32.Cast(b.min) <= n <= I32.Cast(b.max)
  }

  class EnumIn {
    const bounds: Bounds
    ghost const values: seq<int>

    ghost predicate Valid() { bounds == BoundsOf(values) }

    constructor (values: seq<int>)
      requires forall v :: v in values ==> I64.Holds(v)
      ensures Valid() && this.values == values
    {
      var min, max := I64.Max(), I64.Min();
      var i := 0;
      while i < |values|
        invariant 0 <= i <= |values|
        invariant if i == 0 then min == I64.Max() && max == I64.Min()
                  else min == Least(values[..i]) && max == Greatest(values[..i])
      {
        assert values[..i + 1][..i] == values[..i] && values[i] in values;
        if values[i] > max { max := values[i]; }
        if values[i] < min { min := values[i]; }
        i := i + 1;
      }
      assert values[..i] == values;
      bounds := Packed(min, max);
      this.values := values;
    }

    /** EnumIn::in: the 32 bits stored in the argument, or None for the exception. What is accepted depends on whether
        one 32-bit type holds all values. What is stored reads back as the number exactly if the storage type holds
        that; which it does if it holds all values, or is signed and no type holds all. */
    method In(number: int) returns (stored: Option<int>)
      requires Valid() && I64.Holds(number)
      ensures values != [] && (AllHeld(I32, values) || AllHeld(U32, values)) ==>
                (stored.Some? <==> Least(values) <= number <= Greatest(values))
      ensures values != [] && Representable(values) && !AllHeld(I32, values) && !AllHeld(U32, values) ==>
                (stored.Some? <==> Least(values) <= number <= Greatest(values) - 0x1_0000_0000)
      ensures values == [] ==> (stored.Some? <==> number == -1 || number == 0)
      ensures stored.Some? ==> U32.Holds(stored.value)
      ensures stored.Some? ==> (EnumFromInt(true, stored.value) == number <==> I32.Holds(number))
      ensures stored.Some? ==> (EnumFromInt(false, stored.value) == number <==> U32.Holds(number))
      ensures stored.Some? && Representable(values) && !AllHeld(U32, values) ==>
                EnumFromInt(true, stored.value) == number
      ensures stored.Some? && AllHeld(I32, values) ==> EnumFromInt(true, stored.value) == number
      ensures stored.Some? && values != [] && AllHeld(U32, values) ==> EnumFromInt(false, stored.value) == number
    {
      if Representable(values) { AcceptedWhen(values, number); }
      var min, max := if bounds.isUnsigned then bounds.min else I32.Cast(bounds.min),
                      if bounds.isUnsigned then bounds.max else I32.Cast(bounds.max);
      if number > max || number < min { return None; }
      ReadsBackIff(true, number);
      ReadsBackIff(false, number);
      if AllHeld(I32, values) { StoredReadsBack(values, number, true); }
      if AllHeld(U32, values) && values != [] { StoredReadsBack(values, number, false); }
      return Some(U32.Cast(number));
    }
  }

  lemma AcceptedWhen(values: seq<int>, n: int)
    requires I64.Holds(n) && Representable(values)
    ensures Accepts(BoundsOf(values), n) <==>
            if values == [] then n == -1 || n == 0
            else if AllHeld(I32, values) || AllHeld(U32, values) then Least(values) <= n <= Greatest(values)
            else Least(values) <= n <= Greatest(values) - 0x1_0000_0000
  {
    if values == [] {
      EmptyEnum(n);
    } else if AllHeld(I32, values) || AllHeld(U32, values) {
      OneType(values, n);
    } else {
      assert Least(values) < 0 && Greatest(values) > I32.Max();
      SignedCast(Least(values));
      TopWraps(Greatest(values));
    }
  }

  lemma StoredReadsBack(values: seq<int>, n: int, signedStorage: bool)
    requires I64.Holds(n) && Accepts(BoundsOf(values), n) && AllHeld(if signedStorage then I32 else U32, values)
    requires !signedStorage ==> values != []
    ensures EnumFromInt(signedStorage, U32.Cast(n)) == n
  {
    if values == [] { EmptyEnum(n); } else { AcceptedReadsBack(values, n, signedStorage); }
  }

  predicate AllHeld(tag: IntTag, values: seq<int>) { forall v :: v in values ==> tag.Holds(v) }

  /** Each value by itself fits one of the two 32-bit types. */
  predicate Representable(values: seq<int>) { forall v :: v in values ==> I32.Holds(v) || U32.Holds(v) }

  lemma OneType(values: seq<int>, n: int)
    requires values != [] && (AllHeld(I32, values) || AllHeld(U32, values))
    ensures Accepts(BoundsOf(values), n) <==> Least(values) <= n <= Greatest(values)
  {
    SignedCast(Least(values));
    SignedCast(Greatest(values));
  }

  /** An enum argument accepts exactly the interval from the least to the greatest value if and only if its values all
      fit one 32-bit type, signed or unsigned. */
  lemma AcceptsIntervalIff(values: seq<int>)
    requires values != [] && Representable(values)
    ensures (forall n :: I64.Holds(n) ==> (Accepts(BoundsOf(values), n) <==> Least(values) <= n <= Greatest(values)))
       <==> AllHeld(I32, values) || AllHeld(U32, values)
  {
    var min, max := Least(values), Greatest(values);
    if AllHeld(I32, values) || AllHeld(U32, values) {
      forall n | I64.Holds(n) ensures Accepts(BoundsOf(values), n) <==> min <= n <= max { OneType(values, n); }
    } else {
      assert min < 0 && max > I32.Max();
      TopWraps(max);
      assert I64.Holds(max) && !Accepts(BoundsOf(values), max);
    }
  }

  lemma TopWraps(n: int)
    requires U32.Holds(n) && !I32.Holds(n)
    ensures I32.Cast(U32.Cast(n)) == n - 0x1_0000_0000
  {
  }

  lemma SignedCast(n: int)
    requires I32.Holds(n) || U32.Holds(n)
    ensures I32.Holds(n) ==> I32.Cast(U32.Cast(n)) == n
    ensures U32.Holds(n) ==> U32.Cast(n) == n
  {
  }

  /** Hence everything the generic check of members accepts. */
  lemma AcceptsMembers(values: seq<int>, n: int)
    requires n in values && (AllHeld(I32, values) || AllHeld(U32, values))
    ensures Accepts(BoundsOf(values), n)
  {
    SignedCast(Least(values));
    SignedCast(Greatest(values));
  }

  /** An enum with -1 and 2^32 - 1 accepts only the former. */
  lemma MixedEnum(n: int)
    requires I64.Holds(n)
    ensures Accepts(BoundsOf([-1, 0xffff_ffff]), n) <==> n == -1
  {
    assert [-1, 0xffff_ffff][..1] == [-1];
    assert Least([-1, 0xffff_ffff]) == -1 && Greatest([-1, 0xffff_ffff]) == 0xffff_ffff;
  }

  /** An enum without values accepts -1 and 0. */
  lemma EmptyEnum(n: int)
    requires I64.Holds(n)
    ensures Accepts(BoundsOf([]), n) <==> n == -1 || n == 0
  {
  }

  /** enum_from_int: how an enum stored in 32 bits is read back. */
  function EnumFromInt(signedStorage: bool, stored: int): int {
    if signedStorage then I32.Cast(stored) else U32.Cast(stored)
  }

  /** A value comes back unchanged exactly when the storage type holds it; in particular every accepted value does, if
      the storage has the signedness of the values. */
  lemma ReadsBackIff(signedStorage: bool, n: int)
    ensures EnumFromInt(signedStorage, U32.Cast(n)) == n <==> if signedStorage then I32.Holds(n) else U32.Holds(n)
  {
    if I32.Holds(n) || U32.Holds(n) { SignedCast(n); }
  }

  lemma AcceptedReadsBack(values: seq<int>, n: int, signedStorage: bool)
    requires values != [] && I64.Holds(n) && Accepts(BoundsOf(values), n)
    requires AllHeld(if signedStorage then I32 else U32, values)
    ensures EnumFromInt(signedStorage, U32.Cast(n)) == n
  {
    SignedCast(Least(values));
    SignedCast(Greatest(values));
    ReadsBackIff(signedStorage, n);
  }

  // ----- flags masks, as numbers written in binary

  function And(a: nat, b: nat): (r: nat)
    ensures r <= a && r <= b
  {
    if a == 0 || b == 0 then 0 else 2 * And(a / 2, b / 2) + if a % 2 == 1 && b % 2 == 1 then 1 else 0
  }

  function Or(a: nat, b: nat): (r: nat)
    ensures r >= a && r >= b
    decreases a + b
  {
    if a == 0 then b else if b == 0 then a else 2 * Or(a / 2, b / 2) + if a % 2 == 1 || b % 2 == 1 then 1 else 0
  }

  predicate Bit(a: nat, k: nat) {
    if k == 0 then a % 2 == 1 else Bit(a / 2, k - 1)
  }

  lemma {:induction false} NoBits(k: nat)
    ensures !Bit(0, k)
  {
    if k > 0 { NoBits(k - 1); }
  }

  lemma {:induction false} OrBits(a: nat, b: nat, k: nat)
    ensures Bit(Or(a, b), k) <==> Bit(a, k) || Bit(b, k)
    decreases k
  {
    if a == 0 || b == 0 { NoBits(k); } else if k > 0 { OrBits(a / 2, b / 2, k - 1); }
  }

  lemma {:induction false} OrFits(a: nat, b: nat, n: nat)
    requires a < Power(n) && b < Power(n)
    ensures Or(a, b) < Power(n)
    decreases n
  {
    if a > 0 && b > 0 { OrFits(a / 2, b / 2, n - 1); }
  }

  function Power(n: nat): (p: nat)
    ensures p > 0
  {
    if n == 0 then 1 else 2 * Power(n - 1)
  }

  ghost predicate Covers(a: nat, m: nat) {
    forall k: nat :: Bit(a, k) ==> Bit(m, k)
  }

  lemma {:induction false} CoversHalves(a: nat, m: nat)
    ensures Covers(a, m) <==> (a % 2 == 1 ==> m % 2 == 1) && Covers(a / 2, m / 2)
  {
    if Covers(a, m) {
      assert Bit(a, 0) ==> Bit(m, 0);
      forall k: nat | Bit(a / 2, k) ensures Bit(m / 2, k) {
        assert Bit(a, k + 1) ==> Bit(m, k + 1);
      }
    }
    if (a % 2 == 1 ==> m % 2 == 1) && Covers(a / 2, m / 2) {
      forall k: nat | Bit(a, k) ensures Bit(m, k) {
        if k > 0 { assert Bit(a / 2, k - 1) ==> Bit(m / 2, k - 1); }
      }
    }
  }

  /** Masking keeps a number exactly when all its bits are in the mask. */
  lemma {:induction false} KeptIff(a: nat, m: nat)
    ensures And(a, m) == a <==> Covers(a, m)
    decreases a
  {
    if a == 0 {
      forall k: nat ensures !Bit(0, k) { NoBits(k); }
    } else if m == 0 {
      var k := SomeBit(a);
      NoBits(k);
    } else {
      KeptIff(a / 2, m / 2);
      CoversHalves(a, m);
    }
  }

  lemma {:induction false} SomeBit(a: nat) returns (k: nat)
    requires a > 0
    ensures Bit(a, k)
  {
    if a % 2 == 1 {
      k := 0;
    } else {
      k := SomeBit(a / 2);
      k := k + 1;
    }
  }

  /** Arg::Flags: the OR of the declared values, each cast to unsigned. */
  function Mask(values: seq<int>): nat {
    if values == [] then 0 else Or(Mask(values[..|values| - 1]), U32.Cast(values[|values| - 1]))
  }

  lemma Power32()
    ensures Power(32) == 0x1_0000_0000
  {
    assert Power(8) == 0x100;
    assert Power(16) == 0x1_0000;
    assert Power(24) == 0x100_0000;
  }

  lemma {:induction false} MaskFits(values: seq<int>)
    ensures Mask(values) < 0x1_0000_0000
  {
    if values != [] {
      MaskFits(values[..|values| - 1]);
      Power32();
      OrFits(Mask(values[..|values| - 1]), U32.Cast(values[|values| - 1]), 32);
    }
  }

  predicate Declared(values: seq<int>, k: nat) {
    exists v :: v in values && Bit(U32.Cast(v), k)
  }

  lemma {:induction false} MaskBits(values: seq<int>, k: nat)
    ensures Bit(Mask(values), k) <==> Declared(values, k)
  {
    if values == [] {
      NoBits(k);
    } else {
      var rest, last := values[..|values| - 1], values[|values| - 1];
      MaskBits(rest, k);
      OrBits(Mask(rest), U32.Cast(last), k);
      assert forall v :: v in values <==> v in rest || v == last;
    }
  }

  predicate FlagsAccept(mask: nat, number: int) {
    And(U64.Cast(number), mask) == U64.Cast(number)
  }

  class FlagsIn {
    const mask: nat
    ghost const values: seq<int>

    ghost predicate Valid() { mask == Mask(values) }

    constructor (values: seq<int>)
      ensures Valid() && this.values == values
    {
      var m: nat := 0;
      var i := 0;
      while i < |values|
        invariant 0 <= i <= |values| && m == Mask(values[..i])
      {
        assert values[..i + 1][..i] == values[..i];
        m := Or(m, U32.Cast(values[i]));
        i := i + 1;
      }
      assert values[..i] == values;
      mask := m;
      this.values := values;
    }

    /** FlagsIn::in */
    method In(number: int) returns (stored: Option<int>)
      requires Valid() && I64.Holds(number)
      ensures stored.Some? <==> 0 <= number < 0x1_0000_0000 && AllDeclared(values, number)
      ensures stored.Some? ==> stored.value == number
    {
      FlagsAcceptIff(values, number);
      var bits := U64.Cast(number);
      if And(bits, mask) != bits { return None; }
      return Some(U32.Cast(number));
    }
  }

  ghost predicate AllDeclared(values: seq<int>, bits: nat) {
    forall k: nat :: Bit(bits, k) ==> Declared(values, k)
  }

  lemma {:induction false} CoveredIffDeclared(values: seq<int>, bits: nat)
    ensures Covers(bits, Mask(values)) <==> AllDeclared(values, bits)
  {
    forall k: nat ensures Bit(Mask(values), k) <==> Declared(values, k) { MaskBits(values, k); }
    if AllDeclared(values, bits) {
      forall k: nat | Bit(bits, k) ensures Bit(Mask(values), k) { assert Declared(values, k); }
    }
  }

  lemma Bits64(number: int)
    requires I64.Holds(number)
    ensures U64.Cast(number) == if number < 0 then number + 0x1_0000_0000_0000_0000 else number
  {
  }

  /** A flags argument accepts a number exactly when it is in [0, 2^32) and each of its bits occurs in a declared
      value. */
  lemma FlagsAcceptIff(values: seq<int>, number: int)
    requires I64.Holds(number)
    ensures FlagsAccept(Mask(values), number) <==> 0 <= number < 0x1_0000_0000 && AllDeclared(values, number)
  {
    MaskFits(values);
    Bits64(number);
    KeptIff(U64.Cast(number), Mask(values));
    CoveredIffDeclared(values, U64.Cast(number));
  }

  /** gjs_flags_value_is_valid, for a registered flags type with this class mask. */
  predicate GenericFlagsAccept(mask: nat, value: int) {
    And(U32.Cast(value), mask) == value
  }

  /** The generic check accepts the same numbers, when the class mask is the OR of the declared values. */
  lemma SameAsGeneric(values: seq<int>, number: int)
    requires I64.Holds(number)
    ensures FlagsAccept(Mask(values), number) <==> GenericFlagsAccept(Mask(values), number)
  {
    MaskFits(values);
    Bits64(number);
  }
}
