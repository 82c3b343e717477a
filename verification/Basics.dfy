/** Small shared vocabulary: optional values, ownership transfer, direction, C integer types. */
module Basics {

  datatype Option<+T> = None | Some(value: T)

  /** GITransfer: what changes hands together with an argument. */
  datatype Transfer = Nothing | Container | Everything

  /** GIDirection. */
  datatype Direction = In | InOut | Out

  /** The 8-bit counters and indices of the call engine. */
  newtype uint8 = x: int | 0 <= x < 256

  /** The C integer types that introspection type tags name. */
  datatype IntTag = I8 | U8 | I16 | U16 | I32 | U32 | I64 | U64 {
    predicate Signed() { I8? || I16? || I32? || I64? }

    function Min(): int {
      match this
      case I8 => -0x80
      case I16 => -0x8000
      case I32 => -0x8000_0000
      case I64 => -0x8000_0000_0000_0000
      case _ => 0
    }

    function Max(): int {
      match this
      case I8 => 0x7f
      case U8 => 0xff
      case I16 => 0x7fff
      case U16 => 0xffff
      case I32 => 0x7fff_ffff
      case U32 => 0xffff_ffff
      case I64 => 0x7fff_ffff_ffff_ffff
      case U64 => 0xffff_ffff_ffff_ffff
    }

    predicate Holds(n: int) { Min() <= n <= Max() }

    /** Types whose values fit in 32 bits, and so in a pointer. */
    predicate Small() { !I64? && !U64? }

    /** The number of values of the type. */
    function Size(): int { Max() - Min() + 1 }

    /** A cast to this type: the one value of the type congruent to `n`. */
    function Cast(n: int): (r: int)
      ensures Holds(r)
      ensures Holds(n) ==> r == n
    {
      if Holds(n) then n else (n - Min()) % Size() + Min()
    }
  }

  // ----- sequences

  lemma EmptyPrefix<T>(a: seq<T>)
    ensures [] + a == a
  {
  }

  lemma Associate<T>(a: seq<T>, b: seq<T>, c: seq<T>)
    ensures (a + b) + c == a + (b + c)
  {
  }

  /** What is left of `s` from index `i` on. */
  lemma Suffix<T>(s: seq<T>, i: nat)
    requires i < |s|
    ensures s[i..] != [] && s[i..][0] == s[i] && s[i..][1..] == s[i + 1..]
  {
  }
}
