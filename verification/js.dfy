/**
 The small part of JavaScript value semantics that the editor's logic depends on:
 optional fields, loosely compared numbers that may be `undefined` or `NaN`,
 Monaco's selection ranges, truthiness, and the decimal rendering of a user id
 inside a template literal.
 */
module Js {

  /** A field that may be missing from a message (`undefined`). */
  datatype Option<+T> = None | Some(value: T) {

    /** The `x || d` idiom for a field whose present values are all truthy. */
    function GetOr(default: T): T {
      match this
      case Some(v) => v
      case None => default
    }
  }

  /**
   A numeric field of a JavaScript object as the client code sees it: absent
   (`undefined`), `NaN` (what `undefined++` produces), or an integer.
   Fractional numbers are not modelled.
   */
  datatype JsNum = Undef | NaN | Num(n: int)

  /** `a == b` on two such fields: `undefined == undefined`, `NaN` equals nothing. */
  predicate LooseEq(a: JsNum, b: JsNum) {
    match (a, b)
    case (Undef, Undef) => true
    case (Num(x), Num(y)) => x == y
    case _ => false
  }

  /** The value a field holds after `x++`. */
  function Inc(a: JsNum): (r: JsNum)
    ensures a.Num? <==> r.Num?
    ensures a.Num? ==> r.n == a.n + 1
  {
    match a
    case Num(x) => Num(x + 1)
    case _ => NaN
  }

  /** `x || 0`: every falsy number (`undefined`, `NaN`, `0`) becomes `0`. */
  function OrZero(a: JsNum): (r: JsNum)
    ensures r.Num?
    ensures a.Num? ==> r == a
    ensures !a.Num? ==> r == Num(0)
  {
    match a
    case Num(_) => a
    case _ => Num(0)
  }

  /**
   A Monaco range or selection as carried in messages. An object that lacks
   the fields (the `{}` a server stores for a fresh user) has all four `Undef`.
   */
  datatype Range = Range(startLineNumber: JsNum, startColumn: JsNum, endLineNumber: JsNum, endColumn: JsNum)

  const EmptyObjectRange: Range := Range(Undef, Undef, Undef, Undef)

  /** The clients' cursor test: same column and same line, compared with `==`. */
  predicate IsCaret(r: Range) {
    LooseEq(r.startColumn, r.endColumn) && LooseEq(r.startLineNumber, r.endLineNumber)
  }

  /**
   An arbitrary JSON-like value a client may put in a message field. Objects
   are represented by the range fields they carry; arrays by their elements.
   */
  datatype Value =
    | Undefined
    | Null
    | Boolean(b: bool)
    | Number(x: int)
    | NaNNumber
    | Text(s: string)
    | Object(range: Range)
    | Array(items: seq<Range>)

  /** JavaScript truthiness: objects and arrays are truthy even when empty. */
  predicate Truthy(v: Value) {
    match v
    case Undefined => false
    case Null => false
    case Boolean(b) => b
    case Number(x) => x != 0
    case NaNNumber => false
    case Text(s) => s != ""
    case Object(_) => true
    case Array(_) => true
  }

  /**
   Reading the four range fields off a value: `undefined` and `null` throw a
   `TypeError` (`None`), an object yields its fields, and every other value
   has none of them, so each reads as `undefined`.
   */
  function RangeFields(v: Value): (r: Option<Range>)
    ensures r.None? <==> (v.Undefined? || v.Null?)
    ensures v.Object? ==> r == Some(v.range)
    ensures r.Some? && !v.Object? ==> r.value == EmptyObjectRange
  {
    match v
    case Undefined => None
    case Null => None
    case Object(range) => Some(range)
    case _ => Some(EmptyObjectRange)
  }

  /**
   What `for (x of v)` visits: the elements of an array, one item per
   character of a string (a character has no range fields), and `None` for a
   value that is not iterable, where the loop throws.
   */
  function Elements(v: Value): (r: Option<seq<Range>>)
    ensures r.Some? <==> (v.Array? || v.Text?)
    ensures v.Array? ==> r == Some(v.items)
    ensures v.Text? ==> r.Some? && |r.value| == |v.s| && forall i :: 0 <= i < |v.s| ==> r.value[i] == EmptyObjectRange
  {
    match v
    case Array(items) => Some(items)
    case Text(s) => Some(seq(|s|, _ => EmptyObjectRange))
    case _ => None
  }

  function DigitChar(d: nat): (c: char)
    requires d < 10
    ensures '0' <= c <= '9'
  {
    "0123456789"[d]
  }

  /** How a non-negative integer id is printed by a template literal or `+`. */
  function NatToString(n: nat): (s: string)
    ensures 0 < |s|
    ensures forall i :: 0 <= i < |s| ==> '0' <= s[i] <= '9'
    decreases n
  {
    if n < 10 then [DigitChar(n)] else NatToString(n / 10) + [DigitChar(n % 10)]
  }
}
