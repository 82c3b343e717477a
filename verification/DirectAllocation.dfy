/** Which structures can be allocated without a constructor, and which of those contain pointers (gi/gi-utils.cpp). */
module DirectAllocation {

  /** The type of a field, as far as allocation is concerned. */
  datatype FieldType =
    | CArray(elem: FieldType)             // a C array counts as its elements
    | Pointer(untyped: bool)              // any other pointer, untyped if it is a void*
    | Scalar
    | EnumOrFlags
    | Nested(fields: seq<FieldType>)      // a structure or union held by value; opaque if it has no fields
    | OtherInterface                      // callbacks, objects and the like, held by value

  /** GI::struct_is_simple */
  predicate IsSimple(fields: seq<FieldType>)
    decreases fields
  {
    fields != [] && forall i :: 0 <= i < |fields| ==> CanBeAllocated(fields[i])
  }

  /** type_can_be_allocated_directly */
  predicate CanBeAllocated(t: FieldType)
    decreases t
  {
    match t
    case CArray(e) => CanBeAllocated(e)
    case Nested(fields) => IsSimple(fields)
    case OtherInterface => false
    case _ => true
  }

  /** GI::simple_struct_has_pointers */
  predicate AnyPointers(fields: seq<FieldType>)
    decreases fields
  {
    exists i :: 0 <= i < |fields| && HasPointers(fields[i])
  }

  /** direct_allocation_has_pointers */
  predicate HasPointers(t: FieldType)
    decreases t
  {
    match t
    case CArray(e) => HasPointers(e)
    case Pointer(untyped) => !untyped
    case Nested(fields) => AnyPointers(fields)
    case _ => false
  }

  /** Type `leaf` is found in `t` through arrays and nested structures only. */
  predicate Contains(t: FieldType, leaf: FieldType)
    decreases t
  {
    t == leaf || match t
                 case CArray(e) => Contains(e, leaf)
                 case Nested(fields) => InFields(fields, leaf)
                 case _ => false
  }

  predicate InFields(fields: seq<FieldType>, leaf: FieldType)
    decreases fields
  {
    exists i :: 0 <= i < |fields| && Contains(fields[i], leaf)
  }

  /** A type can be allocated exactly when no opaque structure and no other interface occurs in it, at any depth. */
  lemma {:induction false} AllocatedIff(t: FieldType)
    ensures CanBeAllocated(t) <==> !Contains(t, OtherInterface) && !Contains(t, Nested([]))
    decreases t
  {
    match t
    case CArray(e) => AllocatedIff(e);
    case Nested(fields) =>
      forall i | 0 <= i < |fields|
        ensures CanBeAllocated(fields[i]) <==> !Contains(fields[i], OtherInterface) && !Contains(fields[i], Nested([]))
      {
        AllocatedIff(fields[i]);
      }
      if fields == [] { assert t == Nested([]); }
    case _ =>
  }

  /** The same of structures. */
  lemma {:induction false} SimpleIff(fields: seq<FieldType>)
    ensures IsSimple(fields) <==> fields != [] && !InFields(fields, OtherInterface) && !InFields(fields, Nested([]))
  {
    forall i | 0 <= i < |fields|
      ensures CanBeAllocated(fields[i]) <==> !Contains(fields[i], OtherInterface) && !Contains(fields[i], Nested([]))
    {
      AllocatedIff(fields[i]);
    }
  }

  /** A type has pointers exactly when a typed pointer occurs in it, at any depth. */
  lemma {:induction false} PointersIff(t: FieldType)
    ensures HasPointers(t) <==> Contains(t, Pointer(false))
    decreases t
  {
    match t
    case CArray(e) => PointersIff(e);
    case Nested(fields) =>
      forall i | 0 <= i < |fields| ensures HasPointers(fields[i]) <==> Contains(fields[i], Pointer(false)) {
        PointersIff(fields[i]);
      }
    case _ =>
  }
}
