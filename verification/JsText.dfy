/** JavaScript strings: sequences of UTF-16 code units. */
module JsText {

  type Unit = u: int | 0 <= u < 0x1_0000
  type Str = seq<Unit>

  /** A literal, for the ASCII texts the source spells out. */
  function Js(s: string): (t: Str)
    requires forall i :: 0 <= i < |s| ==> s[i] < 128 as char
    ensures |t| == |s| && forall i :: 0 <= i < |s| ==> t[i] == s[i] as int
  {
    seq(|s|, i requires 0 <= i < |s| => s[i] as int)
  }
}
