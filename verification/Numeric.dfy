/** Range-checked conversion between JS Numbers and C numbers (gi/js-value-inl.h, gi/arg-inl.h). */
module Numeric {
  import opened Basics
  import opened JsValues

  /** What unpacking a JS value into a C integer gives. */
  datatype Conversion = Ok(n: int) | OutOfRange | Throws

  // ----- doubles

  function Pow2(k: nat): nat
    ensures Pow2(k) >= 1
  {
    if k == 0 then 1 else 2 * Pow2(k - 1)
  }

  function RoundHalfEven(m: nat, ulp: nat): nat
    requires ulp > 0
  {
    var q, r := m / ulp, m % ulp;
    if 2 * r < ulp || (2 * r == ulp && q % 2 == 0) then q * ulp else (q + 1) * ulp
  }

  function RoundMagnitude(m: nat, ulp: nat): nat
    requires ulp > 0
    decreases m - ulp
  {
    if m < (SAFE + 1) * ulp then RoundHalfEven(m, ulp) else RoundMagnitude(m, 2 * ulp)
  }

  /** The double nearest to an integer, ties to even (section 4.3 of IEEE 754-2019). */
  function ToDouble(n: int): int {
    if n < 0 then 0 - RoundMagnitude(-n, 1) as int else RoundMagnitude(n, 1)
  }

  /** A 53-bit significand scaled by a power of two. */
  ghost predicate Representable(m: nat) {
    exists q: nat, k: nat :: Scaled(m, q, k)
  }

  ghost predicate Scaled(m: nat, q: nat, k: nat) {
    q <= SAFE && m == q * Pow2(k)
  }

  // ----- C to JS: c_value_to_js

  predicate Warns(tag: IntTag, n: int) {
    !tag.Small() && (n > SAFE || (tag.Signed() && n < -SAFE))
  }

  function ToJs(tag: IntTag, n: int): JS
    requires tag.Holds(n)
  {
    if Warns(tag, n) then Integer(ToDouble(n)) else Integer(n)
  }

  // ----- JS to C: gjs_arg_set_from_js_value

  function ToInt32(x: Num): int { I32.Cast(Integral(x)) }

  /** The C type a Number is unpacked into before its range is checked (JSValuePackT). */
  datatype Holder = Int32 | Double

  function HolderOf(tag: IntTag): Holder
    requires tag.Small()
  {
    if tag.U32? then Double else Int32
  }

  function Unpacked(h: Holder, x: Num): Num {
    if h.Int32? then Fin(ToInt32(x) as real) else x
  }

  /** The comparison of js_value_to_c_checked. */
  predicate InRange(tag: IntTag, x: Num) {
    x.Fin? && tag.Min() as real <= x.r <= tag.Max() as real
  }

  function FromJs(num: Readings, tag: IntTag, v: JS): Conversion {
    if !tag.Small() then FromJs64(num, tag, v)
    else if !tag.I32? && (v.Undefined? || (v.Number? && !v.x.Fin?)) then Ok(0)
    else
      var x := ToNumber(num, v);
      if x.None? then Throws
      else
        // an int32 is its own holder and is not checked
        var held := Unpacked(HolderOf(tag), x.value);
        if tag.I32? || InRange(tag, held) then Ok(Integral(held)) else OutOfRange
  }

  function FromJs64(num: Readings, tag: IntTag, v: JS): Conversion {
    match v
    case BigInt(n) => if tag.Holds(n) then Ok(n) else OutOfRange
    case Number(x) => if tag.Holds(Integral(x)) then Ok(Integral(x)) else OutOfRange
    case _ => Ok(tag.Cast(Integral(ToNumber(num, v).value)))
  }

  // ----- properties

  lemma TruncInteger(n: int)
    ensures Trunc(n as real) == n
  {
    assert -((-n) as real) == n as real;
  }

  /** A 64-bit argument takes a BigInt in range as it is and refuses others, which are not rounded. */
  lemma BigIntAccepts(num: Readings, tag: IntTag, n: int)
    ensures FromJs(num, tag, BigInt(n)) == if tag.Small() then Throws else if tag.Holds(n) then Ok(n) else OutOfRange
  {
  }

  /** Every accepted value fits the C type it is stored in. */
  lemma AcceptedFits(num: Readings, tag: IntTag, v: JS)
    requires FromJs(num, tag, v).Ok?
    ensures tag.Holds(FromJs(num, tag, v).n)
  {
    if tag.Small() && ToNumber(num, v).Some? { HeldInteger(ToNumber(num, v).value); }
  }

  /** What an int32 holder contains truncates to itself. */
  lemma HeldInteger(x: Num)
    ensures Integral(Unpacked(Int32, x)) == ToInt32(x)
  {
    TruncInteger(ToInt32(x));
  }

  /** C to JS to C is the identity for every 8-, 16- and 32-bit integer. */
  lemma SmallRoundTrip(num: Readings, tag: IntTag, n: int)
    requires tag.Small() && tag.Holds(n)
    ensures FromJs(num, tag, ToJs(tag, n)) == Ok(n)
  {
    TruncInteger(n);
    HeldInteger(Fin(n as real));
  }

  /** 8- and 16-bit arguments accept a Number exactly when its ToInt32 lands in the type's range. */
  lemma NarrowAccepts(num: Readings, tag: IntTag, x: Num)
    requires tag.I8? || tag.U8? || tag.I16? || tag.U16?
    ensures FromJs(num, tag, Number(x)).Ok? <==> tag.Holds(ToInt32(x))
    ensures FromJs(num, tag, Number(x)).Ok? ==> FromJs(num, tag, Number(x)).n == ToInt32(x)
  {
    assert !x.Fin? ==> ToInt32(x) == 0;
    HeldInteger(x);
  }

  /** uint32 arguments accept a Number exactly when it is not finite, or lies between 0 and 2^32 - 1. */
  lemma Uint32Accepts(num: Readings, x: Num)
    ensures FromJs(num, U32, Number(x)).Ok? <==> !x.Fin? || 0.0 <= x.r <= 4294967295.0
    ensures FromJs(num, U32, Number(x)).Ok? ==> FromJs(num, U32, Number(x)).n == Integral(x)
  {
  }

  /** int32 arguments are never out of range: they wrap. */
  lemma Int32Wraps(num: Readings, x: Num)
    ensures FromJs(num, I32, Number(x)) == Ok(ToInt32(x))
    ensures exists k: int :: Integral(x) == ToInt32(x) + k * 0x1_0000_0000
  {
    var n := Integral(x);
    var k := (n + 0x8000_0000) / 0x1_0000_0000;
    assert n == ToInt32(x) + k * 0x1_0000_0000;
    HeldInteger(x);
  }

  lemma {:induction false} RoundingGivesDoubles(m: nat, j: nat)
    ensures Representable(RoundMagnitude(m, Pow2(j)))
    decreases m - Pow2(j)
  {
    var u := Pow2(j);
    if m < (SAFE + 1) * u {
      var q := m / u;
      assert q <= SAFE by { assert q * u <= m; if q > SAFE { MulLe(SAFE + 1, q, u); } }
      var q' := if RoundHalfEven(m, u) == q * u then q else q + 1;
      assert RoundHalfEven(m, u) == q' * u;
      if q' <= SAFE {
        assert Scaled(RoundHalfEven(m, u), q', j);
      } else {
        assert q' == 2 * 0x10_0000_0000_0000;
        assert Scaled(RoundHalfEven(m, u), 0x10_0000_0000_0000, j + 1);
      }
    } else {
      assert 2 * u == Pow2(j + 1);
      RoundingGivesDoubles(m, j + 1);
    }
  }

  lemma MulLe(a: nat, b: nat, c: nat)
    requires a <= b
    ensures a * c <= b * c
  {
  }

  lemma {:induction false} Pow2Divides(j: nat, k: nat)
    requires j <= k
    ensures Pow2(k) == Pow2(k - j) * Pow2(j)
  {
    if j < k { Pow2Divides(j, k - 1); }
  }

  lemma MultipleHasNoRemainder(a: nat, u: nat)
    requires u > 0
    ensures (a * u) % u == 0 && (a * u) / u == a
  {
    var q, r := (a * u) / u, (a * u) % u;
    assert (a - q) * u == r;
    if a - q >= 1 { MulLe(1, a - q, u); }
    if a - q <= -1 { MulLe(1, q - a, u); }
  }

  lemma {:induction false} RoundingKeepsDoubles(m: nat, j: nat, q: nat, k: nat)
    requires Scaled(m, q, k) && j <= k
    ensures RoundMagnitude(m, Pow2(j)) == m
    decreases m - Pow2(j)
  {
    var u := Pow2(j);
    if m < (SAFE + 1) * u {
      Pow2Divides(j, k);
      var a := q * Pow2(k - j);
      assert m == a * u;
      MultipleHasNoRemainder(a, u);
    } else {
      if k == j { MulLe(q, SAFE, u); }
      assert 2 * u == Pow2(j + 1);
      RoundingKeepsDoubles(m, j + 1, q, k);
    }
  }

  function Distance(a: int, b: int): nat { if a < b then b - a else a - b }

  /** `d` and `r` are neighbouring multiples of a power of two, an odd one and an even one. */
  ghost predicate EvenNeighbour(r: nat, d: nat) {
    exists a: nat, b: nat, j: nat :: OddAndEven(r, d, a, b, j)
  }

  ghost predicate OddAndEven(r: nat, d: nat, a: nat, b: nat, j: nat) {
    d == a * Pow2(j) && r == b * Pow2(j) && a % 2 == 1 && b % 2 == 0
  }

  lemma MulPlus(a: int, b: int, c: int)
    ensures (a + b) * c == a * c + b * c
  {
  }

  /** Where the multiple `a * u` lies from `q * u`. */
  lemma MultipleSteps(a: nat, q: nat, u: nat)
    ensures a < q ==> a * u <= q * u - u
    ensures a == q + 1 ==> a * u == q * u + u
    ensures a > q + 1 ==> a * u >= q * u + 2 * u
  {
    if a < q {
      MulLe(a, q - 1, u);
      MulPlus(q, -1, u);
    } else if a > q {
      MulPlus(q, 1, u);
      MulPlus(q, 2, u);
      if a > q + 1 { MulLe(q + 2, a, u); }
    }
  }

  /** The choice between the multiples on both sides, `lo` being the `q`-th. */
  lemma NearestOfTwo(m: nat, lo: nat, u: nat, q: nat, x: nat, a: nat)
    requires lo <= m < lo + u
    requires a < q ==> x <= lo - u
    requires a == q ==> x == lo
    requires a == q + 1 ==> x == lo + u
    requires a > q + 1 ==> x >= lo + 2 * u
    ensures var down := 2 * (m - lo) < u || (2 * (m - lo) == u && q % 2 == 0);
            var r, b := if down then lo else lo + u, if down then q else q + 1;
            && Distance(r, m) <= m - lo && Distance(r, m) <= Distance(x, m)
            && (a != b && Distance(r, m) == Distance(x, m) ==> b % 2 == 0 && a % 2 == 1)
  {
  }

  function Chosen(m: nat, ulp: nat): nat
    requires ulp > 0
  {
    var q, r := m / ulp, m % ulp;
    if 2 * r < ulp || (2 * r == ulp && q % 2 == 0) then q else q + 1
  }

  lemma Division(m: nat, u: nat)
    requires u > 0
    ensures m == m / u * u + m % u && m % u < u
  {
  }

  lemma RoundsToChosen(m: nat, u: nat)
    requires u > 0
    ensures RoundHalfEven(m, u) == Chosen(m, u) * u
    ensures Chosen(m, u) * u == if Chosen(m, u) == m / u then m / u * u else m / u * u + u
  {
    MulPlus(m / u, 1, u);
  }

  /** Among the multiples of `ulp`, rounding takes the nearest, and of two the even one. */
  lemma NearestMultiple(m: nat, ulp: nat, a: nat)
    requires ulp > 0
    ensures var r, b := RoundHalfEven(m, ulp), Chosen(m, ulp);
            && r == b * ulp && Distance(r, m) <= m - m / ulp * ulp && Distance(r, m) <= Distance(a * ulp, m)
            && (a != b && Distance(r, m) == Distance(a * ulp, m) ==> b % 2 == 0 && a % 2 == 1)
  {
    RoundsToChosen(m, ulp);
    NearestChosen(m, ulp, m / ulp, m / ulp * ulp, m % ulp, a, a * ulp);
  }

  lemma NearestChosen(m: nat, u: nat, q: nat, lo: nat, rem: nat, a: nat, x: nat)
    requires u > 0 && q == m / u && lo == q * u && rem == m % u && x == a * u
    ensures var b := Chosen(m, u);
            var r := if b == q then lo else lo + u;
            && Distance(r, m) <= m - lo && Distance(r, m) <= Distance(x, m)
            && (a != b && Distance(r, m) == Distance(x, m) ==> b % 2 == 0 && a % 2 == 1)
  {
    Division(m, u);
    MultipleSteps(a, q, u);
    NearestOfTwo(m, lo, u, q, x, a);
  }

  lemma Quotient(m: nat, u: nat, h: nat)
    requires u > 0 && m >= h * u
    ensures m / u * u >= h * u
  {
    if m / u < h {
      MulLe(m / u + 1, h, u);
      MulPlus(m / u, 1, u);
    } else {
      MulLe(h, m / u, u);
    }
  }

  /** A double that is no multiple of the spacing around `m` lies below all that are as large as `m`. */
  lemma FinerIsSmaller(m: nat, j: nat, d: nat, q: nat, k: nat)
    requires Scaled(d, q, k) && k < j && m >= 0x10_0000_0000_0000 * Pow2(j)
    ensures d < m / Pow2(j) * Pow2(j)
  {
    Quotient(m, Pow2(j), 0x10_0000_0000_0000);
    Pow2Divides(k, j - 1);
    MulLe(1, Pow2(j - 1 - k), Pow2(k));
    MulLe(q, SAFE, Pow2(k));
  }

  lemma {:induction false} RoundsToNearest(m: nat, j: nat, d: nat, q: nat, k: nat)
    requires Scaled(d, q, k) && (j == 0 || m >= 0x10_0000_0000_0000 * Pow2(j))
    ensures var r := RoundMagnitude(m, Pow2(j));
            && Distance(r, m) <= Distance(d, m)
            && (d != r && Distance(r, m) == Distance(d, m) ==> EvenNeighbour(r, d))
    decreases m - Pow2(j)
  {
    var u := Pow2(j);
    if m < (SAFE + 1) * u {
      RoundsHere(m, j, d, q, k);
    } else {
      assert 2 * u == Pow2(j + 1);
      RoundsToNearest(m, j + 1, d, q, k);
    }
  }

  lemma RoundsHere(m: nat, j: nat, d: nat, q: nat, k: nat)
    requires Scaled(d, q, k) && (j == 0 || m >= 0x10_0000_0000_0000 * Pow2(j))
    ensures var r := RoundHalfEven(m, Pow2(j));
            && Distance(r, m) <= Distance(d, m)
            && (d != r && Distance(r, m) == Distance(d, m) ==> EvenNeighbour(r, d))
  {
    if k >= j {
      var a, r := q * Pow2(k - j), RoundHalfEven(m, Pow2(j));
      Pow2Divides(j, k);
      Regroup(q, Pow2(k - j), Pow2(j));
      NearestMultiple(m, Pow2(j), a);
      if d != r && Distance(r, m) == Distance(d, m) { assert OddAndEven(r, d, a, Chosen(m, Pow2(j)), j); }
    } else {
      NearestMultiple(m, Pow2(j), 0);
      FinerIsSmaller(m, j, d, q, k);
    }
  }

  lemma Regroup(a: nat, b: nat, c: nat)
    ensures a * (b * c) == (a * b) * c
  {
  }

  /** The double given for an integer is the nearest there is, and of two the one with the even significand. */
  lemma NearestDouble(n: int, d: int)
    requires Representable(if d < 0 then -d else d)
    ensures Distance(ToDouble(n), n) <= Distance(d, n)
    ensures d != ToDouble(n) && (d < 0 <==> n < 0) && Distance(ToDouble(n), n) == Distance(d, n) ==>
              EvenNeighbour(if n < 0 then -ToDouble(n) else ToDouble(n), if d < 0 then -d else d)
  {
    var m: nat, e: nat := if n < 0 then -n else n, if d < 0 then -d else d;
    var q, k :| Scaled(e, q, k);
    assert Pow2(0) == 1;
    RoundsToNearest(m, 0, e, q, k);
    assert Scaled(0, 0, 0);
    RoundsToNearest(m, 0, 0, 0, 0);
  }

  /** A 64-bit integer survives the trip to a JS Number and back exactly when some double holds it. */
  lemma BigRoundTrip(num: Readings, tag: IntTag, n: int)
    requires !tag.Small() && tag.Holds(n)
    ensures FromJs(num, tag, ToJs(tag, n)) == Ok(n) <==> Representable(if n < 0 then -n else n)
  {
    var m: nat := if n < 0 then -n else n;
    TruncInteger(n);
    TruncInteger(ToDouble(n));
    assert Pow2(0) == 1;
    RoundingGivesDoubles(m, 0);
    if Representable(m) {
      var q, k :| Scaled(m, q, k);
      RoundingKeepsDoubles(m, 0, q, k);
    }
    if !Warns(tag, n) { assert Scaled(m, m, 0); }
  }

  /** In particular every integer that raises no rounding warning survives. */
  lemma SafeRoundTrip(num: Readings, tag: IntTag, n: int)
    requires !tag.Small() && tag.Holds(n)
    ensures Warns(tag, n) <==> n < -0x1f_ffff_ffff_ffff || 0x1f_ffff_ffff_ffff < n
    ensures !Warns(tag, n) ==> FromJs(num, tag, ToJs(tag, n)) == Ok(n)
  {
    TruncInteger(n);
  }

  /** The first integer that does not survive: it comes back as its even neighbour. */
  lemma FirstLoss(num: Readings)
    ensures Warns(I64, SAFE + 2) && FromJs(num, I64, ToJs(I64, SAFE + 2)) == Ok(SAFE + 1)
  {
    RoundedOnce(SAFE + 2);
    assert RoundHalfEven(SAFE + 2, 2) == SAFE + 1;
    TruncInteger(SAFE + 1);
  }

  /** Integers of 54 bits are rounded to even ones. */
  lemma RoundedOnce(m: nat)
    requires SAFE + 1 <= m < 2 * (SAFE + 1)
    ensures RoundMagnitude(m, 1) == RoundHalfEven(m, 2)
  {
    assert RoundMagnitude(m, 1) == RoundMagnitude(m, 2);
  }
}
