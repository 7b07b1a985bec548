/**
 Row values as JavaScript sees them, with the comparisons the relational layer
 uses. How the host renders a number or a byte array as text, and reads a number
 from text, are parameters: no property here depends on which text it is.
 */
module Values {
  import opened JsText
  import opened Options

  /** A JavaScript number, over exact reals. */
  datatype Num = Finite(r: real) | NaN | PosInf | NegInf

  datatype Value = Bool(b: bool) | Number(n: Num) | Text(s: Str) | Blob(data: seq<int>) | Null | Undefined

  type Row = map<Str, Value>

  /** `row[column]`: a missing key reads as undefined. */
  function Cell(row: Row, column: Str): Value {
    if column in row then row[column] else Undefined
  }

  // ----- comparisons

  /** `a < b` on numbers: false whenever either is NaN. */
  predicate Below(a: Num, b: Num) {
    match (a, b)
    case (NaN, _) => false
    case (_, NaN) => false
    case (_, NegInf) => false
    case (PosInf, _) => false
    case (NegInf, _) => true
    case (_, PosInf) => true
    case (Finite(x), Finite(y)) => x < y
  }

  /** `a <= b` on numbers. */
  predicate AtMost(a: Num, b: Num) {
    a != NaN && b != NaN && !Below(b, a)
  }

  /** `a === b` where `b` is not a byte array: NaN equals nothing. */
  predicate Identical(a: Value, b: Value) {
    a == b && a != Number(NaN) && !a.Blob?
  }

  /** `SameValueZero`, the equality of `Array.includes` and `Set.has`: NaN equals itself. */
  predicate SameValue(a: Value, b: Value) {
    a == b && !a.Blob?
  }

  // ----- renderings

  /** The host's text conversions. */
  datatype Host = Host(
    numberText: Num -> Str, bytesText: seq<int> -> Str, bytesHex: seq<int> -> Str, textNumber: Str -> Num)

  /** `String(v)` */
  function StringOf(h: Host, v: Value): Str {
    match v
    case Bool(b) => if b then Js("true") else Js("false")
    case Number(n) => h.numberText(n)
    case Text(s) => s
    case Blob(data) => h.bytesText(data)
    case Null => Js("null")
    case Undefined => Js("undefined")
  }

  /** A primary key as the text rows are stored under; None where the source throws. */
  function EncodePk(h: Host, v: Value): Option<Str> {
    match v
    case Text(s) => Some(s)
    case Number(n) => Some(h.numberText(n))
    case Bool(_) => Some(StringOf(h, v))
    case Blob(data) => Some(h.bytesHex(data))
    case Null => None
    case Undefined => None
  }

  /** The numeric operand of an ordered comparison with a number on its left. */
  function ToNumber(h: Host, v: Value): Num {
    match v
    case Number(n) => n
    case Text(s) => h.textNumber(s)
    case Bool(b) => if b then Finite(1.0) else Finite(0.0)
    case Null => Finite(0.0)
    case Blob(data) => h.textNumber(h.bytesText(data))
    case Undefined => NaN
  }

  // ----- what the tables above say

  /** The order on numbers: negative infinity, the reals in their order, positive infinity; NaN is nowhere. */
  predicate Precedes(a: Num, b: Num) {
    a != NaN && b != NaN && a != b && (a == NegInf || b == PosInf || (a.Finite? && b.Finite? && a.r < b.r))
  }

  lemma ComparisonsOrder(a: Num, b: Num)
    ensures Below(a, b) <==> Precedes(a, b)
    ensures AtMost(a, b) <==> Precedes(a, b) || (a == b && a != NaN)
    ensures a != NaN && b != NaN ==> a == b || Precedes(a, b) || Precedes(b, a)
  {
  }

  /** Texts stand for themselves, and no two of the constants render alike. */
  lemma RenderingsDiffer(h: Host, s: Str)
    ensures StringOf(h, Text(s)) == s
    ensures StringOf(h, Bool(true)) == Js("true") && StringOf(h, Bool(false)) == Js("false")
    ensures StringOf(h, Null) == Js("null") && StringOf(h, Undefined) == Js("undefined")
    ensures |{Js("true"), Js("false"), Js("null"), Js("undefined")}| == 4
  {
    assert Js("true")[0] == 0x74 && Js("null")[0] == 0x6E;
  }

  /** A key is stored under its rendering, byte arrays under their digits; null and undefined are no keys. */
  lemma KeyTexts(h: Host, v: Value)
    ensures EncodePk(h, v).None? <==> v in {Null, Undefined}
    ensures EncodePk(h, v).Some? ==> EncodePk(h, v).value == if v.Blob? then h.bytesHex(v.data) else StringOf(h, v)
  {
  }
}
