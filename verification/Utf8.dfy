/**
 UTF-8 as section 3 of RFC 3629 defines it, over well-formed Unicode text, and
 the two host operations the store is built on: `TextEncoder.encodeInto` and a
 default `TextDecoder`, which drops one leading byte-order mark.
 */
module Utf8 {
  import opened Bytes
  import opened Options
  import JsText

  /** A Unicode scalar value: any code point that is not a surrogate. */
  type Scalar = c: int | 0 <= c < 0x11_0000 && !(0xD800 <= c <= 0xDFFF)
  type Text = seq<Scalar>

  const BOM: Scalar := 0xFEFF

  /** ASCII literals as text. */
  function Ascii(s: string): (t: Text)
    requires forall i :: 0 <= i < |s| ==> s[i] < 128 as char
    ensures |t| == |s| && forall i :: 0 <= i < |s| ==> t[i] == s[i] as int
  {
    JsText.Js(s)
  }

  /** `length` of the JavaScript string: UTF-16 code units. */
  function Utf16Length(t: Text): nat {
    if t == [] then 0 else (if t[0] < 0x1_0000 then 1 else 2) + Utf16Length(t[1..])
  }

  /** A continuation byte carrying the low six bits of `c`. */
  function Trail(c: nat): byte {
    0x80 + c % 0x40
  }

  /** What is left of `c` above its low six bits. */
  function High(c: nat): (h: nat)
    ensures 0x40 * h <= c < 0x40 * h + 0x40
  {
    c / 0x40
  }

  function EncodeOne(c: Scalar): (d: Buffer)
    ensures 1 <= |d| <= 4
  {
    if c < 0x80 then
      [c]
    else if c < 0x800 then
      [0xC0 + High(c), Trail(c)]
    else if c < 0x1_0000 then
      [0xE0 + High(High(c)), Trail(High(c)), Trail(c)]
    else
      [0xF0 + High(High(High(c))), Trail(High(High(c))), Trail(High(c)), Trail(c)]
  }

  function Encode(t: Text): (d: Buffer)
    ensures |d| >= |t|
  {
    if t == [] then [] else EncodeOne(t[0]) + Encode(t[1..])
  }

  predicate Continuation(b: byte) {
    0x80 <= b < 0xC0
  }

  /** Length of the sequence a lead byte announces; 0 when it cannot lead. */
  function SequenceLength(b: byte): nat {
    if b < 0x80 then 1
    else if 0xC2 <= b < 0xE0 then 2
    else if 0xE0 <= b < 0xF0 then 3
    else if 0xF0 <= b < 0xF5 then 4
    else 0
  }

  /** A lead byte and as many continuation bytes as it announces. */
  predicate Shaped(d: Buffer) {
    && 1 <= |d| <= 4
    && SequenceLength(d[0]) == |d|
    && forall i :: 1 <= i < |d| ==> Continuation(d[i])
  }

  /** Appends the six payload bits of a continuation byte. */
  function Shift(c: nat, b: byte): nat
    requires Continuation(b)
  {
    0x40 * c + (b - 0x80)
  }

  /** The code point of one whole sequence, before the range checks. */
  function RawPoint(d: Buffer): (c: nat)
    requires Shaped(d)
  {
    if |d| == 1 then d[0]
    else if |d| == 2 then Shift(d[0] - 0xC0, d[1])
    else if |d| == 3 then Shift(Shift(d[0] - 0xE0, d[1]), d[2])
    else Shift(Shift(Shift(d[0] - 0xF0, d[1]), d[2]), d[3])
  }

  predicate WellFormedSequence(d: Buffer) {
    && Shaped(d)
    && var c := RawPoint(d);
       c < 0x11_0000 && !(0xD800 <= c <= 0xDFFF)
       && (|d| == 3 ==> 0x800 <= c) && (|d| == 4 ==> 0x1_0000 <= c)
  }

  /** Strict decoding; None where the host would substitute U+FFFD. */
  function Decode(d: Buffer): (t: Option<Text>)
  {
    if d == [] then Some([]) else
    var n := SequenceLength(d[0]);
    if n == 0 || n > |d| || !WellFormedSequence(d[..n]) then None else
    match Decode(d[n..])
    case None => None
    case Some(rest) => Some([RawPoint(d[..n])] + rest)
  }

  function StripBom(t: Text): Text {
    if t != [] && t[0] == BOM then t[1..] else t
  }

  /** `new TextDecoder('utf-8').decode`: one leading byte-order mark is dropped. */
  function HostDecode(d: Buffer): Option<Text> {
    match Decode(d)
    case None => None
    case Some(t) => Some(StripBom(t))
  }

  lemma ShiftTrail(c: nat)
    ensures Continuation(Trail(c)) && Shift(High(c), Trail(c)) == c
  {
  }

  lemma TwoBytesDecode(c: Scalar)
    requires 0x80 <= c < 0x800
    ensures WellFormedSequence(EncodeOne(c)) && RawPoint(EncodeOne(c)) == c
  {
    ShiftTrail(c);
  }

  lemma ThreeBytesDecode(c: Scalar)
    requires 0x800 <= c < 0x1_0000
    ensures WellFormedSequence(EncodeOne(c)) && RawPoint(EncodeOne(c)) == c
  {
    ShiftTrail(c);
    ShiftTrail(High(c));
  }

  lemma FourBytesDecode(c: Scalar)
    requires 0x1_0000 <= c
    ensures WellFormedSequence(EncodeOne(c)) && RawPoint(EncodeOne(c)) == c
  {
    ShiftTrail(c);
    ShiftTrail(High(c));
    ShiftTrail(High(High(c)));
  }

  lemma EncodeOneDecodes(c: Scalar)
    ensures WellFormedSequence(EncodeOne(c)) && RawPoint(EncodeOne(c)) == c
  {
    if 0x80 <= c < 0x800 {
      TwoBytesDecode(c);
    } else if 0x800 <= c < 0x1_0000 {
      ThreeBytesDecode(c);
    } else if 0x1_0000 <= c {
      FourBytesDecode(c);
    }
  }

  lemma {:induction false} DecodeEncode(t: Text)
    ensures Decode(Encode(t)) == Some(t)
  {
    if t == [] {
    } else {
      var one, rest := EncodeOne(t[0]), Encode(t[1..]);
      var d := one + rest;
      EncodeOneDecodes(t[0]);
      assert d[0] == one[0] && d[..|one|] == one && d[|one|..] == rest;
      DecodeEncode(t[1..]);
      assert [t[0]] + t[1..] == t;
    }
  }

  lemma ShiftSplits(h: nat, b: byte)
    requires Continuation(b)
    ensures High(Shift(h, b)) == h && Trail(Shift(h, b)) == b
  {
  }

  lemma TwoBytesEncode(d: Buffer)
    requires |d| == 2 && WellFormedSequence(d)
    ensures EncodeOne(RawPoint(d)) == d
  {
    ShiftSplits(d[0] - 0xC0, d[1]);
  }

  lemma ThreeDigits(h: nat, c: Scalar, lead: nat, x: byte, y: byte)
    requires High(h) == lead && Trail(h) == x && High(c) == h && Trail(c) == y
    requires 0x800 <= c < 0x1_0000
    ensures EncodeOne(c) == [0xE0 + lead, x, y]
  {
  }

  lemma FourDigits(g: nat, h: nat, c: Scalar, lead: nat, x: byte, y: byte, z: byte)
    requires High(g) == lead && Trail(g) == x && High(h) == g && Trail(h) == y && High(c) == h && Trail(c) == z
    requires 0x1_0000 <= c
    ensures EncodeOne(c) == [0xF0 + lead, x, y, z]
  {
  }

  lemma ThreeBytesEncode(d: Buffer)
    requires |d| == 3 && WellFormedSequence(d)
    ensures EncodeOne(RawPoint(d)) == d
  {
    var lead: nat := d[0] - 0xE0;
    var h := Shift(lead, d[1]);
    ShiftSplits(lead, d[1]);
    ShiftSplits(h, d[2]);
    ThreeDigits(h, Shift(h, d[2]), lead, d[1], d[2]);
  }

  lemma FourBytesEncode(d: Buffer)
    requires |d| == 4 && WellFormedSequence(d)
    ensures EncodeOne(RawPoint(d)) == d
  {
    var lead: nat := d[0] - 0xF0;
    var g := Shift(lead, d[1]);
    var h := Shift(g, d[2]);
    ShiftSplits(lead, d[1]);
    ShiftSplits(g, d[2]);
    ShiftSplits(h, d[3]);
    FourDigits(g, h, Shift(h, d[3]), lead, d[1], d[2], d[3]);
  }

  lemma SequenceEncodes(d: Buffer)
    requires WellFormedSequence(d)
    ensures EncodeOne(RawPoint(d)) == d
  {
    if |d| == 2 {
      TwoBytesEncode(d);
    } else if |d| == 3 {
      ThreeBytesEncode(d);
    } else if |d| == 4 {
      FourBytesEncode(d);
    }
  }

  lemma EncodeCons(c: Scalar, t: Text)
    ensures Encode([c] + t) == EncodeOne(c) + Encode(t)
  {
    assert ([c] + t)[1..] == t;
  }

  lemma DecodeSplits(d: Buffer) returns (n: nat)
    requires d != [] && Decode(d).Some?
    ensures 1 <= n <= |d| && WellFormedSequence(d[..n]) && Decode(d[n..]).Some?
    ensures Decode(d).value == [RawPoint(d[..n])] + Decode(d[n..]).value
  {
    n := SequenceLength(d[0]);
  }

  /** Strict decoding accepts only encodings: nothing else denotes the text. */
  lemma {:induction false} EncodeDecode(d: Buffer)
    requires Decode(d).Some?
    ensures Encode(Decode(d).value) == d
  {
    if d == [] {
    } else {
      var n := DecodeSplits(d);
      EncodeDecode(d[n..]);
      SequenceEncodes(d[..n]);
      EncodeCons(RawPoint(d[..n]), Decode(d[n..]).value);
      assert d == d[..n] + d[n..];
    }
  }

  lemma EncodeInjective(s: Text, t: Text)
    requires Encode(s) == Encode(t)
    ensures s == t
  {
    DecodeEncode(s);
    DecodeEncode(t);
  }

  /**
   What a reader gets back for text that was encoded and then decoded by the
   host: the text itself exactly when it does not start with U+FEFF.
   */
  lemma HostRoundTrip(t: Text)
    ensures HostDecode(Encode(t)) == Some(StripBom(t))
    ensures HostDecode(Encode(t)) == Some(t) <==> !(t != [] && t[0] == BOM)
    ensures HostDecode(Encode([BOM] + t)) == Some(t)
  {
    DecodeEncode(t);
    DecodeEncode([BOM] + t);
    assert ([BOM] + t)[1..] == t;
    if t != [] && t[0] == BOM {
      assert |t[1..]| != |t|;
    }
  }

  lemma Assoc(a: Buffer, b: Buffer, c: Buffer)
    ensures a + (b + c) == (a + b) + c
  {
  }

  lemma {:induction false} EncodeConcat(s: Text, t: Text)
    ensures Encode(s + t) == Encode(s) + Encode(t)
  {
    if s == [] {
      assert s + t == t;
    } else {
      EncodeConcat(s[1..], t);
      assert (s + t)[0] == s[0] && (s + t)[1..] == s[1..] + t;
      Assoc(EncodeOne(s[0]), Encode(s[1..]), Encode(t));
    }
  }

  // ----- byte order is code point order

  /** Strict lexicographic order on sequences of numbers. */
  predicate Less(a: seq<int>, b: seq<int>) {
    b != [] && (a == [] || a[0] < b[0] || (a[0] == b[0] && Less(a[1..], b[1..])))
  }

  lemma {:induction false} LessAfterCommonPrefix(p: seq<int>, a: seq<int>, b: seq<int>)
    ensures Less(p + a, p + b) == Less(a, b)
  {
    if p == [] {
      assert p + a == a && p + b == b;
    } else {
      LessAfterCommonPrefix(p[1..], a, b);
      assert (p + a)[1..] == p[1..] + a && (p + b)[1..] == p[1..] + b;
    }
  }

  /** A difference at position k, after equal elements, decides the order. */
  lemma {:induction false} LessAtDifference(a: seq<int>, b: seq<int>, k: nat)
    requires k < |a| && k < |b| && a[..k] == b[..k] && a[k] < b[k]
    ensures Less(a, b)
  {
    if k == 0 {
    } else {
      assert a[0] == a[..k][0] == b[..k][0] == b[0];
      assert a[1..][..k - 1] == a[..k][1..] == b[..k][1..] == b[1..][..k - 1];
      LessAtDifference(a[1..], b[1..], k - 1);
    }
  }

  lemma {:induction false} LessIsTotal(a: seq<int>, b: seq<int>)
    ensures Less(a, b) || Less(b, a) || a == b
    ensures !(Less(a, b) && Less(b, a))
    ensures !Less(a, a)
  {
    if a == [] || b == [] {
      if a != [] { LessIsTotal(a[1..], []); }
    } else {
      LessIsTotal(a[1..], b[1..]);
      if a[0] == b[0] && a[1..] == b[1..] {
        assert a == [a[0]] + a[1..] && b == [b[0]] + b[1..];
      }
    }
  }

  lemma {:induction false} LessIsTransitive(a: seq<int>, b: seq<int>, c: seq<int>)
    requires Less(a, b) && Less(b, c)
    ensures Less(a, c)
  {
    if a != [] && a[0] == b[0] && b[0] == c[0] {
      LessIsTransitive(a[1..], b[1..], c[1..]);
    }
  }

  /** Six-bit digits order as the number they end: high part first. */
  lemma TrailOrder(c: nat, d: nat)
    requires c < d
    ensures High(c) <= High(d)
    ensures High(c) == High(d) ==> Trail(c) < Trail(d)
  {
  }

  /** Longer encodings have larger lead bytes. */
  lemma LeadOrder(c: Scalar, d: Scalar)
    requires c < d && (|EncodeOne(c)| != |EncodeOne(d)| || |EncodeOne(c)| == 1)
    ensures EncodeOne(c)[0] < EncodeOne(d)[0]
  {
  }

  /** The first differing byte of two encodings, and its direction. */
  lemma EncodeOneOrder(c: Scalar, d: Scalar) returns (k: nat)
    requires c < d
    ensures k < |EncodeOne(c)| && k < |EncodeOne(d)|
    ensures EncodeOne(c)[..k] == EncodeOne(d)[..k] && EncodeOne(c)[k] < EncodeOne(d)[k]
  {
    var x, y := EncodeOne(c), EncodeOne(d);
    if |x| != |y| || |x| == 1 {
      LeadOrder(c, d);
      k := 0;
    } else {
      TrailOrder(c, d);
      if High(c) == High(d) {
        k := |x| - 1;
      } else {
        TrailOrder(High(c), High(d));
        if |x| == 2 {
          k := 0;
        } else if High(High(c)) == High(High(d)) {
          k := |x| - 2;
        } else {
          TrailOrder(High(High(c)), High(High(d)));
          k := if |x| == 4 && High(High(High(c))) == High(High(High(d))) then 1 else 0;
        }
      }
    }
  }

  /**
   UTF-8 preserves order: comparing encodings byte by byte is comparing the
   texts code point by code point.
   */
  lemma {:induction false} EncodePreservesOrder(s: Text, t: Text)
    ensures Less(Encode(s), Encode(t)) <==> Less(s, t)
  {
    if s == [] || t == [] {
    } else if s[0] == t[0] {
      LessAfterCommonPrefix(EncodeOne(s[0]), Encode(s[1..]), Encode(t[1..]));
      EncodePreservesOrder(s[1..], t[1..]);
    } else if s[0] < t[0] {
      var k := EncodeOneOrder(s[0], t[0]);
      EncodedDifference(s, t, k);
    } else {
      var k := EncodeOneOrder(t[0], s[0]);
      EncodedDifference(t, s, k);
      LessIsTotal(Encode(s), Encode(t));
    }
  }

  lemma EncodedDifference(s: Text, t: Text, k: nat)
    requires s != [] && t != []
    requires k < |EncodeOne(s[0])| && k < |EncodeOne(t[0])|
    requires EncodeOne(s[0])[..k] == EncodeOne(t[0])[..k] && EncodeOne(s[0])[k] < EncodeOne(t[0])[k]
    ensures Less(Encode(s), Encode(t))
  {
    var a, b := EncodeOne(s[0]), EncodeOne(t[0]);
    assert Encode(s)[..k] == a[..k] && Encode(t)[..k] == b[..k];
    assert Encode(s)[k] == a[k] && Encode(t)[k] == b[k];
    LessAtDifference(Encode(s), Encode(t), k);
  }

  /** The byte layout: a lead byte that tells the length, then six bits to a byte, in the shortest form. */
  lemma EncodeOneLayout(c: Scalar)
    ensures var d := EncodeOne(c);
            && |d| == (if c < 0x80 then 1 else if c < 0x800 then 2 else if c < 0x1_0000 then 3 else 4)
            && (forall i :: 0 < i < |d| ==> 0x80 <= d[i] < 0xC0)
            && (|d| == 1 ==> d[0] == c)
            && (|d| == 2 ==> c == 0x40 * (d[0] - 0xC0) as int + (d[1] - 0x80) as int)
            && (|d| == 3 ==> c == 0x1000 * (d[0] - 0xE0) as int + 0x40 * (d[1] - 0x80) as int + (d[2] - 0x80) as int)
            && (|d| == 4 ==> c == 0x4_0000 * (d[0] - 0xF0) as int + 0x1000 * (d[1] - 0x80) as int
                                  + 0x40 * (d[2] - 0x80) as int + (d[3] - 0x80) as int)
  {
    LayoutParts(c);
    LayoutParts(c / 0x40);
    LayoutParts(c / 0x40 / 0x40);
  }

  lemma LayoutParts(n: nat)
    ensures n == 0x40 * High(n) + (Trail(n) as int - 0x80)
  {
  }

  /** NUL is the only character whose encoding holds a zero byte. */
  lemma {:induction false} ZeroByteIff(t: Text)
    ensures 0 in Encode(t) <==> 0 in t
  {
    hide EncodeOne;
    if t != [] {
      ZeroByteIff(t[1..]);
      ZeroUnit(t[0]);
      assert t == [t[0]] + t[1..];
    }
  }

  lemma ZeroUnit(c: Scalar)
    ensures 0 in EncodeOne(c) <==> c == 0
  {
    if c == 0 { assert EncodeOne(c)[0] == 0; }
  }

  /** The UTF-16 code units of a text: one each, or a surrogate pair above U+FFFF. */
  function Units(t: Text): seq<int> {
    if t == [] then []
    else
      var c := t[0];
      (if c < 0x1_0000 then [c] else [0xD800 + (c - 0x1_0000) / 0x400, 0xDC00 + (c - 0x1_0000) % 0x400])
      + Units(t[1..])
  }

  lemma {:induction false} Utf16LengthIs(t: Text)
    ensures Utf16Length(t) == |Units(t)|
  {
    if t != [] { Utf16LengthIs(t[1..]); }
  }
}
