/** JavaScript values as the marshallers see them, and the ECMA-262 abstract operations on them. */
module JsValues {
  import opened Basics

  /** A JS Number; negative zero is not distinguished from zero. */
  datatype Num = Fin(r: real) | NaN | Inf(negative: bool)

  datatype JS =
    | Undefined
    | Null
    | Bool(b: bool)
    | Number(x: Num)
    | BigInt(n: int)
    | Str(s: string)
    | Arr(elems: seq<JS>)
    | Obj(props: seq<Prop>)

  /** An own enumerable property, in enumeration order. */
  datatype Prop = Prop(key: string, val: JS)

  function Integer(n: int): JS { Number(Fin(n as real)) }

  /** Rounds towards zero. */
  function Trunc(r: real): (n: int)
    ensures r >= 0.0 ==> n as real <= r < (n + 1) as real
    ensures r < 0.0 ==> (n - 1) as real < r <= n as real
  {
    if r >= 0.0 then r.Floor else -((-r).Floor)
  }

  /** The integer a Number stands for after truncation; NaN and the infinities give 0. */
  function Integral(x: Num): int {
    if x.Fin? then Trunc(x.r) else 0
  }

  // ----- canonical decimal integers, the text of integer property keys

  function Digit(d: int): char
    requires 0 <= d < 10
  {
    '0' + d as char
  }

  function PrintNat(n: nat): (s: string)
    ensures |s| > 0 && forall i :: 0 <= i < |s| ==> '0' <= s[i] <= '9'
  {
    if n < 10 then [Digit(n)] else PrintNat(n / 10) + [Digit(n % 10)]
  }

  /** The text of an integer, as ToString (section 7.1.17 of ECMA-262) writes it. */
  function Print(n: int): string {
    if n < 0 then "-" + PrintNat(-n) else PrintNat(n)
  }

  predicate AllDigits(s: string) {
    |s| > 0 && forall i :: 0 <= i < |s| ==> '0' <= s[i] <= '9'
  }

  function ParseNat(s: string): nat
    requires AllDigits(s)
  {
    var d := s[|s| - 1] as int - '0' as int;
    if |s| == 1 then d else ParseNat(s[..|s| - 1]) * 10 + d
  }

  function Parse(s: string): Option<int> {
    if AllDigits(s) then Some(ParseNat(s))
    else if |s| > 1 && s[0] == '-' && AllDigits(s[1..]) then Some(0 - ParseNat(s[1..]) as int)
    else None
  }

  lemma {:induction false} ParsePrintNat(n: nat)
    ensures AllDigits(PrintNat(n)) && ParseNat(PrintNat(n)) == n
  {
    if n >= 10 {
      ParsePrintNat(n / 10);
      var s := PrintNat(n);
      assert s[..|s| - 1] == PrintNat(n / 10);
    }
  }

  lemma {:induction false} ParseText(digits: string)
    requires AllDigits(digits)
    ensures Parse(digits) == Some(ParseNat(digits))
    ensures Parse("-" + digits) == Some(0 - ParseNat(digits) as int)
  {
    var t := "-" + digits;
    assert t[1..] == digits;
    assert t[0] == '-';
  }

  /** Printing an integer loses nothing. */
  lemma {:induction false} ParsePrint(n: int)
    ensures Parse(Print(n)) == Some(n)
  {
    var m: nat := if n < 0 then -n else n;
    var digits := PrintNat(m);
    assert AllDigits(digits) && ParseNat(digits) == m by { ParsePrintNat(m); }
    ParseText(digits);
  }

  // ----- reading values as numbers

  /** The integers up to this magnitude are all doubles. */
  const SAFE: int := 0x1f_ffff_ffff_ffff

  /** How JS reads as numbers those strings that are not plain decimal integers, such as "1.5", "0x1" or " 1"; strings
      that are not listed read as NaN. Every claim holds for any readings. */
  type Readings = map<string, Num>

  function ReadString(num: Readings, s: string): Num {
    if s == "" then Fin(0.0)
    else if Parse(s).Some? && -SAFE <= Parse(s).value <= SAFE then Fin(Parse(s).value as real)
    else if s in num then num[s]
    else NaN
  }

  /** Section 7.1.4 of ECMA-262. None is the TypeError a BigInt raises; objects count as NaN. */
  function ToNumber(num: Readings, v: JS): Option<Num> {
    match v
    case Null => Some(Fin(0.0))
    case Bool(b) => Some(Fin(if b then 1.0 else 0.0))
    case Number(x) => Some(x)
    case BigInt(_) => None
    case Str(s) => Some(ReadString(num, s))
    case _ => Some(NaN)
  }
}
