/**
 The quoting tokenizer and the literal parser of the SQL subset: splitting a
 comma list respects quoted strings, and rendering then splitting then parsing
 gives every list of literals back.
 */
module Sql {
  import opened JsText
  import opened Options

  const QUOTE: Unit := 0x27
  const COMMA: Unit := 0x2C
  const MINUS: Unit := 0x2D
  const DOT: Unit := 0x2E

  // ----- String.prototype.trim

  predicate Space(u: Unit) {
    0x09 <= u <= 0x0D || u == 0x20 || u == 0xA0 || u == 0x1680 || 0x2000 <= u <= 0x200A
    || u == 0x2028 || u == 0x2029 || u == 0x202F || u == 0x205F || u == 0x3000 || u == 0xFEFF
  }

  function TrimStart(s: Str): Str {
    if s != [] && Space(s[0]) then TrimStart(s[1..]) else s
  }

  function TrimEnd(s: Str): Str {
    if s != [] && Space(s[|s| - 1]) then TrimEnd(s[..|s| - 1]) else s
  }

  function Trim(s: Str): Str {
    TrimEnd(TrimStart(s))
  }

  lemma TrimKeeps(s: Str)
    requires s != [] && !Space(s[0]) && !Space(s[|s| - 1])
    ensures Trim(s) == s
  {
  }

  // ----- splitList

  function Prepend(part: Str, rest: Option<seq<Str>>): Option<seq<Str>> {
    match rest
    case None => None
    case Some(ps) => Some([part] + ps)
  }

  /** The items of a comma list before trimming; None when a quote is left open. */
  function Items(raw: Str, cur: Str, inStr: bool): Option<seq<Str>>
    decreases |raw|
  {
    if raw == [] then
      if inStr then None else Some([cur])
    else if raw[0] == QUOTE then
      if inStr && |raw| >= 2 && raw[1] == QUOTE then Items(raw[2..], cur + [QUOTE, QUOTE], true)
      else Items(raw[1..], cur + [QUOTE], !inStr)
    else if raw[0] == COMMA && !inStr then Prepend(cur, Items(raw[1..], [], false))
    else Items(raw[1..], cur + [raw[0]], inStr)
  }

  /** Trims every item and drops the empty ones. */
  function Kept(parts: seq<Str>): seq<Str> {
    if parts == [] then []
    else (if Trim(parts[0]) == [] then [] else [Trim(parts[0])]) + Kept(parts[1..])
  }

  function SplitList(raw: Str): Option<seq<Str>> {
    match Items(raw, [], false)
    case None => None
    case Some(parts) => Some(Kept(parts))
  }

  lemma {:induction false} KeptConcat(a: seq<Str>, b: seq<Str>)
    ensures Kept(a + b) == Kept(a) + Kept(b)
  {
    hide Trim;
    if a == [] {
      assert a + b == b;
    } else {
      KeptConcat(a[1..], b);
      assert (a + b)[1..] == a[1..] + b;
      var one := if Trim(a[0]) == [] then [] else [Trim(a[0])];
      assert one + (Kept(a[1..]) + Kept(b)) == (one + Kept(a[1..])) + Kept(b);
    }
  }

  function TrimAll(parts: seq<Str>): (ts: seq<Str>)
    ensures |ts| == |parts| && forall i :: 0 <= i < |ts| ==> ts[i] == Trim(parts[i])
  {
    seq(|parts|, i requires 0 <= i < |parts| => Trim(parts[i]))
  }

  /** The filter the loop ends with. */
  method DropEmpty(parts: seq<Str>, ghost raws: seq<Str>) returns (out: seq<Str>)
    requires parts == TrimAll(raws)
    ensures out == Kept(raws)
  {
    out := [];
    for i := 0 to |parts|
      invariant out == Kept(raws[..i])
    {
      KeptConcat(raws[..i], [raws[i]]);
      assert raws[..i + 1] == raws[..i] + [raws[i]];
      assert Kept([raws[i]][1..]) == [];
      if |parts[i]| > 0 {
        out := out + [parts[i]];
      }
    }
    assert raws[..|raws|] == raws;
  }

  function AfterParts(raws: seq<Str>, rest: Option<seq<Str>>): Option<seq<Str>> {
    match rest
    case None => None
    case Some(ps) => Some(raws + ps)
  }

  /** The character loop as written. */
  method SplitListLoop(raw: Str) returns (r: Option<seq<Str>>)
    ensures r == SplitList(raw)
  {
    hide Trim;
    var parts: seq<Str>, cur: Str, inStr := [], [], false;
    ghost var raws: seq<Str> := [];
    var i := 0;
    assert raw[0..] == raw;
    NothingYet(Items(raw, [], false));
    while i < |raw|
      invariant 0 <= i <= |raw|
      invariant parts == TrimAll(raws)
      invariant Items(raw, [], false) == AfterParts(raws, Items(raw[i..], cur, inStr))
    {
      var ch := raw[i];
      assert raw[i..][0] == ch && raw[i..][1..] == raw[i + 1..];
      if ch == QUOTE {
        if inStr && i + 1 < |raw| && raw[i + 1] == QUOTE {
          assert raw[i..][2..] == raw[i + 2..];
          cur := cur + [QUOTE, QUOTE];
          i := i + 1;
        } else {
          inStr := !inStr;
          cur := cur + [ch];
        }
      } else if ch == COMMA && !inStr {
        parts := parts + [Trim(cur)];
        Reassociate(raws, cur, Items(raw[i + 1..], [], false));
        raws := raws + [cur];
        cur := [];
      } else {
        cur := cur + [ch];
      }
      i := i + 1;
    }
    assert raw[i..] == [];
    if inStr {
      return None;
    }
    parts := parts + [Trim(cur)];
    raws := raws + [cur];
    var out := DropEmpty(parts, raws);
    r := Some(out);
  }

  lemma NothingYet(rest: Option<seq<Str>>)
    ensures AfterParts([], rest) == rest
  {
    if rest.Some? { assert [] + rest.value == rest.value; }
  }

  lemma Reassociate(raws: seq<Str>, cur: Str, rest: Option<seq<Str>>)
    ensures AfterParts(raws, Prepend(cur, rest)) == AfterParts(raws + [cur], rest)
  {
    if rest.Some? {
      assert raws + ([cur] + rest.value) == raws + [cur] + rest.value;
    }
  }

  // ----- what every split satisfies

  function Quotes(s: Str): nat {
    if s == [] then 0 else (if s[0] == QUOTE then 1 else 0) + Quotes(s[1..])
  }

  lemma {:induction false} QuotesConcat(a: Str, b: Str)
    ensures Quotes(a + b) == Quotes(a) + Quotes(b)
  {
    if a == [] {
      assert a + b == b;
    } else {
      QuotesConcat(a[1..], b);
      assert (a + b)[1..] == a[1..] + b;
    }
  }

  lemma QuotesOfOne(u: Unit)
    ensures Quotes([u]) == if u == QUOTE then 1 else 0
  {
    assert |[u][1..]| == 0;
  }

  /** A list is rejected exactly when its quotes are odd in number: one is left open. */
  lemma {:induction false} RejectedIff(raw: Str, cur: Str, inStr: bool)
    ensures Items(raw, cur, inStr).None? <==> (Quotes(raw) + (if inStr then 1 else 0)) % 2 == 1
    decreases |raw|
  {
    if raw == [] {
    } else if raw[0] == QUOTE {
      if inStr && |raw| >= 2 && raw[1] == QUOTE {
        assert Quotes(raw) == 1 + Quotes(raw[1..]) && raw[1..][1..] == raw[2..];
        RejectedIff(raw[2..], cur + [QUOTE, QUOTE], true);
      } else {
        RejectedIff(raw[1..], cur + [QUOTE], !inStr);
      }
    } else if raw[0] == COMMA && !inStr {
      RejectedIff(raw[1..], [], false);
    } else {
      RejectedIff(raw[1..], cur + [raw[0]], inStr);
    }
  }

  lemma SplitRejectedIff(raw: Str)
    ensures SplitList(raw).None? <==> Quotes(raw) % 2 == 1
  {
    RejectedIff(raw, [], false);
  }

  predicate Balanced(s: Str) {
    Quotes(s) % 2 == 0
  }

  /** Every item is quote-balanced. */
  lemma {:induction false} ItemsBalanced(raw: Str, cur: Str, inStr: bool)
    requires Items(raw, cur, inStr).Some? && Quotes(cur) % 2 == (if inStr then 1 else 0)
    ensures forall i :: 0 <= i < |Items(raw, cur, inStr).value| ==> Balanced(Items(raw, cur, inStr).value[i])
    decreases |raw|
  {
    if raw == [] {
    } else if raw[0] == QUOTE {
      if inStr && |raw| >= 2 && raw[1] == QUOTE {
        QuotesConcat(cur, [QUOTE, QUOTE]);
        QuotesOfOne(QUOTE);
        assert [QUOTE, QUOTE][1..] == [QUOTE];
        ItemsBalanced(raw[2..], cur + [QUOTE, QUOTE], true);
      } else {
        QuotesConcat(cur, [QUOTE]);
        QuotesOfOne(QUOTE);
        ItemsBalanced(raw[1..], cur + [QUOTE], !inStr);
      }
    } else if raw[0] == COMMA && !inStr {
      ItemsBalanced(raw[1..], [], false);
    } else {
      QuotesConcat(cur, [raw[0]]);
      QuotesOfOne(raw[0]);
      ItemsBalanced(raw[1..], cur + [raw[0]], inStr);
    }
  }

  lemma {:induction false} TrimStartQuotes(s: Str)
    ensures Quotes(TrimStart(s)) == Quotes(s)
  {
    if s != [] && Space(s[0]) { TrimStartQuotes(s[1..]); }
  }

  lemma {:induction false} TrimEndQuotes(s: Str)
    ensures Quotes(TrimEnd(s)) == Quotes(s)
  {
    if s != [] && Space(s[|s| - 1]) {
      TrimEndQuotes(s[..|s| - 1]);
      QuotesConcat(s[..|s| - 1], [s[|s| - 1]]);
      QuotesOfOne(s[|s| - 1]);
      assert s == s[..|s| - 1] + [s[|s| - 1]];
    }
  }

  lemma {:induction false} KeptBalanced(parts: seq<Str>)
    requires forall i :: 0 <= i < |parts| ==> Balanced(parts[i])
    ensures forall i :: 0 <= i < |Kept(parts)| ==> Balanced(Kept(parts)[i]) && Kept(parts)[i] != []
  {
    hide Quotes, TrimStart, TrimEnd;
    if parts != [] {
      KeptBalanced(parts[1..]);
      TrimStartQuotes(parts[0]);
      TrimEndQuotes(TrimStart(parts[0]));
    }
  }

  /** For every accepted text, each part is non-empty and quote-balanced. */
  lemma PartsBalanced(raw: Str)
    requires SplitList(raw).Some?
    ensures forall i :: 0 <= i < |SplitList(raw).value| ==>
        Balanced(SplitList(raw).value[i]) && SplitList(raw).value[i] != []
  {
    ItemsBalanced(raw, [], false);
    KeptBalanced(Items(raw, [], false).value);
  }

  function Join(parts: seq<Str>): Str {
    if parts == [] then []
    else if |parts| == 1 then parts[0]
    else parts[0] + [COMMA] + Join(parts[1..])
  }

  lemma JoinCons(part: Str, rest: seq<Str>)
    requires rest != []
    ensures Join([part] + rest) == part + [COMMA] + Join(rest)
  {
    assert ([part] + rest)[1..] == rest;
  }

  lemma JoinOne(part: Str)
    ensures Join([part]) == part
  {
  }

  /** Splitting loses nothing: the untrimmed items joined by commas are the text. */
  lemma {:induction false} ItemsJoinBack(raw: Str, cur: Str, inStr: bool)
    requires Items(raw, cur, inStr).Some?
    ensures Items(raw, cur, inStr).value != [] && Join(Items(raw, cur, inStr).value) == cur + raw
    decreases |raw|
  {
    hide Join;
    if raw == [] {
      assert cur + raw == cur;
      JoinOne(cur);
    } else if raw[0] == QUOTE {
      if inStr && |raw| >= 2 && raw[1] == QUOTE {
        ItemsJoinBack(raw[2..], cur + [QUOTE, QUOTE], true);
        assert cur + [QUOTE, QUOTE] + raw[2..] == cur + raw;
      } else {
        ItemsJoinBack(raw[1..], cur + [QUOTE], !inStr);
        assert cur + [QUOTE] + raw[1..] == cur + raw;
      }
    } else if raw[0] == COMMA && !inStr {
      ItemsJoinBack(raw[1..], [], false);
      assert [] + raw[1..] == raw[1..];
      JoinCons(cur, Items(raw[1..], [], false).value);
      assert cur + [COMMA] + raw[1..] == cur + raw;
    } else {
      ItemsJoinBack(raw[1..], cur + [raw[0]], inStr);
      assert cur + [raw[0]] + raw[1..] == cur + raw;
    }
  }

  // ----- literals

  datatype SqlValue = Null | Boolean(b: bool) | Numeric(n: real) | Quoted(s: Str)

  predicate Digit(u: Unit) {
    0x30 <= u <= 0x39
  }

  predicate Digits(s: Str) {
    forall i :: 0 <= i < |s| ==> Digit(s[i])
  }

  /** The integer a digit string denotes. */
  function Whole(s: Str): nat
    requires Digits(s)
  {
    if s == [] then 0 else 10 * Whole(s[..|s| - 1]) + (s[|s| - 1] - 0x30)
  }

  function Scale(k: nat): (r: real)
    ensures r > 0.0
  {
    if k == 0 then 1.0 else 10.0 * Scale(k - 1)
  }

  /** The exact value of `-?whole(.frac)?`. */
  function NumeralValue(neg: bool, whole: Str, frac: Str): real
    requires Digits(whole) && Digits(frac)
  {
    var v := Whole(whole) as real + Whole(frac) as real / Scale(|frac|);
    if neg then -v else v
  }

  /** Length of the leading run of digits. */
  function DigitRun(s: Str): (n: nat)
    ensures n <= |s| && Digits(s[..n]) && (n < |s| ==> !Digit(s[n]))
  {
    if s == [] || !Digit(s[0]) then 0
    else
      var n := 1 + DigitRun(s[1..]);
      assert forall i :: 0 <= i < n ==> s[..n][i] == if i == 0 then s[0] else s[1..][..n - 1][i - 1];
      n
  }

  /** `/^-?\d+(\.\d+)?$/` and the number it spells. */
  function ParseNumeral(t: Str): Option<real> {
    var neg := t != [] && t[0] == MINUS;
    var body := if neg then t[1..] else t;
    var n := DigitRun(body);
    if n == 0 then None
    else if n == |body| then Some(NumeralValue(neg, body, []))
    else if body[n] != DOT then None
    else
      var frac := body[n + 1..];
      if frac != [] && DigitRun(frac) == |frac| then
        assert frac[..|frac|] == frac;
        Some(NumeralValue(neg, body[..n], frac))
      else None
  }

  /** `''` pairs become one quote, left to right. */
  function Unescape(s: Str): Str {
    if s == [] then []
    else if |s| >= 2 && s[0] == QUOTE && s[1] == QUOTE then [QUOTE] + Unescape(s[2..])
    else [s[0]] + Unescape(s[1..])
  }

  function Escape(s: Str): Str {
    if s == [] then [] else (if s[0] == QUOTE then [QUOTE, QUOTE] else [s[0]]) + Escape(s[1..])
  }

  const LONG_S: Unit := 0x17F

  function UpperUnit(u: Unit): Unit {
    if 0x61 <= u <= 0x7A then u - 0x20 else if u == LONG_S then 0x53 else u
  }

  /**
   `toUpperCase`, as far as comparing with NULL, TRUE and FALSE goes: besides the
   ASCII letters only U+017F has one of their letters as its uppercase, and no
   character expands to two of them in the order they need.
   */
  function Upper(s: Str): (r: Str)
    ensures |r| == |s| && forall i :: 0 <= i < |s| ==> r[i] == UpperUnit(s[i])
  {
    seq(|s|, i requires 0 <= i < |s| => UpperUnit(s[i]))
  }

  function ParseLiteral(raw: Str): Option<SqlValue> {
    var t := Trim(raw);
    if |t| >= 2 && t[0] == QUOTE && t[|t| - 1] == QUOTE then Some(Quoted(Unescape(t[1..|t| - 1])))
    else if Upper(t) == Js("NULL") then Some(Null)
    else if Upper(t) == Js("TRUE") then Some(Boolean(true))
    else if Upper(t) == Js("FALSE") then Some(Boolean(false))
    else
      match ParseNumeral(t)
      case Some(n) => Some(Numeric(n))
      case None => None
  }

  // ----- rendering and back

  /** A literal as it may be spelled: strings with their quotes doubled, decimal numerals, keywords. */
  datatype Literal =
    | NullLiteral
    | BoolLiteral(b: bool)
    | NumberLiteral(neg: bool, whole: Str, frac: Str)
    | StringLiteral(s: Str)

  predicate LiteralOk(l: Literal) {
    l.NumberLiteral? ==> l.whole != [] && Digits(l.whole) && Digits(l.frac)
  }

  function Meaning(l: Literal): SqlValue
    requires LiteralOk(l)
  {
    match l
    case NullLiteral => Null
    case BoolLiteral(b) => Boolean(b)
    case NumberLiteral(neg, whole, frac) => Numeric(NumeralValue(neg, whole, frac))
    case StringLiteral(s) => Quoted(s)
  }

  function Render(l: Literal): Str {
    match l
    case NullLiteral => Js("NULL")
    case BoolLiteral(b) => if b then Js("TRUE") else Js("FALSE")
    case NumberLiteral(neg, whole, frac) =>
      (if neg then [MINUS] else []) + whole + (if frac == [] then [] else [DOT] + frac)
    case StringLiteral(s) => [QUOTE] + Escape(s) + [QUOTE]
  }

  function RenderAll(ls: seq<Literal>): (parts: seq<Str>)
    ensures |parts| == |ls| && forall i :: 0 <= i < |ls| ==> parts[i] == Render(ls[i])
  {
    seq(|ls|, i requires 0 <= i < |ls| => Render(ls[i]))
  }

  lemma {:induction false} UnescapeEscape(s: Str)
    ensures Unescape(Escape(s)) == s
  {
    if s != [] {
      UnescapeEscape(s[1..]);
      var rest := Escape(s[1..]);
      if s[0] == QUOTE {
        assert ([QUOTE, QUOTE] + rest)[2..] == rest;
      } else {
        assert ([s[0]] + rest)[1..] == rest;
      }
      assert [s[0]] + s[1..] == s;
    }
  }

  lemma {:induction false} DigitRunOf(s: Str, tail: Str)
    requires Digits(s) && (tail == [] || !Digit(tail[0]))
    ensures DigitRun(s + tail) == |s|
  {
    if s == [] {
      assert s + tail == tail;
    } else {
      DigitRunOf(s[1..], tail);
      assert (s + tail)[1..] == s[1..] + tail;
    }
  }

  lemma NumeralParses(neg: bool, whole: Str, frac: Str)
    requires whole != [] && Digits(whole) && Digits(frac)
    ensures ParseNumeral(Render(NumberLiteral(neg, whole, frac))) == Some(NumeralValue(neg, whole, frac))
  {
    hide Whole, NumeralValue, DigitRun;
    var t := Render(NumberLiteral(neg, whole, frac));
    var tail: Str := if frac == [] then [] else [DOT] + frac;
    var body := whole + tail;
    if neg {
      assert t[0] == MINUS && t[1..] == body;
    } else {
      assert t == body && t[0] == whole[0];
    }
    DigitRunOf(whole, tail);
    if frac == [] {
      assert body == whole;
    } else {
      DigitRunOf(frac, []);
      assert frac + [] == frac;
      assert body[|whole|] == DOT && body[|whole| + 1..] == frac && body[..|whole|] == whole;
    }
  }

  /** Keywords are told apart from numerals, and from each other, by their first letter. */
  lemma NumeralIsNoKeyword(t: Str)
    requires t != [] && (Digit(t[0]) || t[0] == MINUS)
    ensures Upper(t) != Js("NULL") && Upper(t) != Js("TRUE") && Upper(t) != Js("FALSE")
  {
    assert Upper(t)[0] == t[0];
    assert Js("NULL")[0] == 0x4E && Js("TRUE")[0] == 0x54 && Js("FALSE")[0] == 0x46;
  }

  lemma KeywordsUpper()
    ensures Upper(Js("NULL")) == Js("NULL") && Upper(Js("TRUE")) == Js("TRUE") && Upper(Js("FALSE")) == Js("FALSE")
  {
  }

  lemma RenderEnds(l: Literal)
    requires LiteralOk(l)
    ensures Render(l) != [] && !Space(Render(l)[0]) && !Space(Render(l)[|Render(l)| - 1])
    ensures l.NumberLiteral? ==> Digit(Render(l)[0]) || Render(l)[0] == MINUS
  {
    match l
    case NullLiteral =>
      assert Js("NULL")[0] == 0x4E && Js("NULL")[3] == 0x4C;
    case BoolLiteral(b) =>
      assert Js("TRUE")[0] == 0x54 && Js("TRUE")[3] == 0x45 && Js("FALSE")[0] == 0x46 && Js("FALSE")[4] == 0x45;
    case NumberLiteral(neg, whole, frac) =>
    case StringLiteral(s) =>
  }

  lemma ParseQuoted(s: Str)
    ensures ParseLiteral([QUOTE] + s + [QUOTE]) == Some(Quoted(Unescape(s)))
  {
    hide Trim, ParseNumeral, Upper, Js, Unescape, Space;
    var t := [QUOTE] + s + [QUOTE];
    assert Trim(t) == t by { QuotesStay(t); }
    assert t[1..|t| - 1] == s;
  }

  lemma QuotesStay(t: Str)
    requires t != [] && t[0] == QUOTE && t[|t| - 1] == QUOTE
    ensures Trim(t) == t
  {
    hide Trim;
    TrimKeeps(t);
  }

  lemma ParsePlain(t: Str)
    requires Trim(t) == t && t != [] && t[0] != QUOTE
    ensures Upper(t) == Js("NULL") ==> ParseLiteral(t) == Some(Null)
    ensures Upper(t) == Js("TRUE") ==> ParseLiteral(t) == Some(Boolean(true))
    ensures Upper(t) == Js("FALSE") ==> ParseLiteral(t) == Some(Boolean(false))
    ensures Upper(t) != Js("NULL") && Upper(t) != Js("TRUE") && Upper(t) != Js("FALSE") && ParseNumeral(t).Some? ==>
              ParseLiteral(t) == Some(Numeric(ParseNumeral(t).value))
  {
    hide Trim, ParseNumeral, Upper;
    KeywordsApart();
  }

  /** One literal: parsing its rendering gives its value. */
  lemma ParseRender(l: Literal)
    requires LiteralOk(l)
    ensures ParseLiteral(Render(l)) == Some(Meaning(l))
  {
    hide Trim, ParseNumeral, Space, Upper, NumeralValue, Escape, Unescape, ParseLiteral, Js;
    RenderEnds(l);
    TrimKeeps(Render(l));
    match l
    case NullLiteral => KeywordsUpper(); KeywordHead(l); ParsePlain(Render(l));
    case BoolLiteral(b) => KeywordsUpper(); KeywordHead(l); ParsePlain(Render(l));
    case NumberLiteral(neg, whole, frac) =>
      NumeralIsNoKeyword(Render(l));
      NumeralParses(neg, whole, frac);
      ParsePlain(Render(l));
    case StringLiteral(s) =>
      UnescapeEscape(s);
      ParseQuoted(Escape(s));
  }

  lemma KeywordHead(l: Literal)
    requires l.NullLiteral? || l.BoolLiteral?
    ensures Render(l)[0] != QUOTE
  {
  }

  lemma KeywordsApart()
    ensures Js("TRUE") != Js("NULL") && Js("FALSE") != Js("NULL") && Js("FALSE") != Js("TRUE")
  {
    assert Js("TRUE")[0] == 0x54 && Js("NULL")[0] == 0x4E;
  }

  // ----- splitting a rendered list

  /** Text with no quote and no comma is copied through outside a string. */
  lemma {:induction false} ScanPlain(text: Str, tail: Str, cur: Str)
    requires forall i :: 0 <= i < |text| ==> text[i] != QUOTE && text[i] != COMMA
    ensures Items(text + tail, cur, false) == Items(tail, cur + text, false)
    decreases |text|
  {
    if text == [] {
      assert text + tail == tail && cur + text == cur;
    } else {
      ScanPlain(text[1..], tail, cur + [text[0]]);
      assert (text + tail)[1..] == text[1..] + tail;
      assert cur + [text[0]] + text[1..] == cur + text;
    }
  }

  /** Inside a string, one escaped character is copied through. */
  lemma StepQuoted(u: Unit, rest: Str, cur: Str)
    ensures var one := if u == QUOTE then [QUOTE, QUOTE] else [u];
            Items(one + rest, cur, true) == Items(rest, cur + one, true)
  {
    var one := if u == QUOTE then [QUOTE, QUOTE] else [u];
    assert (one + rest)[|one|..] == rest && (one + rest)[0] == u;
    if u == QUOTE { assert (one + rest)[1] == QUOTE; }
  }

  lemma CloseQuote(tail: Str, cur: Str)
    requires tail == [] || tail[0] != QUOTE
    ensures Items([QUOTE] + tail, cur, true) == Items(tail, cur + [QUOTE], false)
  {
    assert ([QUOTE] + tail)[1..] == tail;
  }

  /** An escaped body and its closing quote are copied through inside a string. */
  lemma {:induction false} ScanQuoted(s: Str, tail: Str, cur: Str)
    requires tail == [] || tail[0] != QUOTE
    ensures Items(Escape(s) + ([QUOTE] + tail), cur, true) == Items(tail, cur + Escape(s) + [QUOTE], false)
    decreases |s|
  {
    hide Items;
    var close := [QUOTE] + tail;
    if s == [] {
      CloseQuote(tail, cur);
      assert Escape(s) + close == close && cur + Escape(s) == cur;
    } else {
      var one := if s[0] == QUOTE then [QUOTE, QUOTE] else [s[0]];
      var rest := Escape(s[1..]);
      StepQuoted(s[0], rest + close, cur);
      ScanQuoted(s[1..], tail, cur + one);
      assert Escape(s) + close == one + (rest + close);
      assert cur + one + rest == cur + Escape(s);
    }
  }

  lemma OpenQuote(body: Str, cur: Str)
    ensures Items([QUOTE] + body, cur, false) == Items(body, cur + [QUOTE], true)
  {
    assert ([QUOTE] + body)[1..] == body;
  }

  /** What `trim` strips: the white space and line ends of sections 12.2 and 12.3 of ECMA-262. */
  const BLANKS: set<Unit> := {
    0x09, 0x0A, 0x0B, 0x0C, 0x0D, 0x20, 0xA0, 0x1680, 0x2000, 0x2001, 0x2002, 0x2003, 0x2004, 0x2005, 0x2006, 0x2007,
    0x2008, 0x2009, 0x200A, 0x2028, 0x2029, 0x202F, 0x205F, 0x3000, 0xFEFF}

  predicate Blank(s: Str) {
    forall i :: 0 <= i < |s| ==> s[i] in BLANKS
  }

  /** A literal as written in a list: keywords in any case, blanks on both sides. */
  datatype Spelling = Spelling(before: Str, l: Literal, text: Str, after: Str)

  function Written(sp: Spelling): Str {
    sp.before + sp.text + sp.after
  }

  /** A letter of a keyword in either case; U+017F is a small S. */
  predicate LetterIs(u: Unit, capital: Unit) {
    u == capital || u == capital + 0x20 || (u == 0x17F && capital == 0x53)
  }

  predicate SpellingOk(sp: Spelling) {
    && LiteralOk(sp.l) && Blank(sp.before) && Blank(sp.after)
    && if sp.l.NullLiteral? || sp.l.BoolLiteral? then
         |sp.text| == |Render(sp.l)| && forall i :: 0 <= i < |sp.text| ==> LetterIs(sp.text[i], Render(sp.l)[i])
       else sp.text == Render(sp.l)
  }

  lemma SpaceIsBlank(u: Unit)
    ensures Space(u) <==> u in BLANKS
  {
  }

  lemma {:induction false} TrimStartBlank(before: Str, s: Str)
    requires Blank(before) && (s == [] || !Space(s[0]))
    ensures TrimStart(before + s) == s
  {
    if before == [] {
      assert before + s == s;
    } else {
      SpaceIsBlank(before[0]);
      TrimStartBlank(before[1..], s);
      assert (before + s)[1..] == before[1..] + s;
    }
  }

  lemma {:induction false} TrimEndBlank(s: Str, after: Str)
    requires Blank(after) && (s == [] || !Space(s[|s| - 1]))
    ensures TrimEnd(s + after) == s
  {
    if after == [] {
      assert s + after == s;
    } else {
      SpaceIsBlank(after[|after| - 1]);
      TrimEndBlank(s, after[..|after| - 1]);
      assert (s + after)[..|s + after| - 1] == s + after[..|after| - 1];
    }
  }

  lemma KeywordLetters(l: Literal, i: nat)
    requires (l.NullLiteral? || l.BoolLiteral?) && i < |Render(l)|
    ensures 0x41 <= Render(l)[i] <= 0x5A
  {
  }

  /** The text of a spelling has blanks and commas nowhere but inside quotes. */
  lemma SpellingEnds(sp: Spelling)
    requires SpellingOk(sp)
    ensures sp.text != [] && !Space(sp.text[0]) && !Space(sp.text[|sp.text| - 1])
    ensures !sp.l.StringLiteral? ==>
              forall i :: 0 <= i < |sp.text| ==> sp.text[i] != QUOTE && sp.text[i] != COMMA
  {
    hide Render;
    if sp.l.NullLiteral? || sp.l.BoolLiteral? {
      RenderEnds(sp.l);
      forall i | 0 <= i < |sp.text|
        ensures sp.text[i] != QUOTE && sp.text[i] != COMMA && !Space(sp.text[i])
      {
        KeywordLetters(sp.l, i);
      }
    } else {
      RenderEnds(sp.l);
      if !sp.l.StringLiteral? { PlainNumeral(sp.l); }
    }
  }

  lemma PlainNumeral(l: Literal)
    requires LiteralOk(l) && l.NumberLiteral?
    ensures forall i :: 0 <= i < |Render(l)| ==> Render(l)[i] != QUOTE && Render(l)[i] != COMMA
  {
  }

  lemma TrimWritten(sp: Spelling)
    requires SpellingOk(sp)
    ensures Trim(Written(sp)) == sp.text && Trim(sp.text) == sp.text
  {
    hide TrimStart, TrimEnd, SpellingOk, Space;
    assert Blank(sp.before) && Blank(sp.after) by { SpellingBlanks(sp); }
    SpellingEnds(sp);
    assert Written(sp) == sp.before + (sp.text + sp.after);
    TrimStartBlank(sp.before, sp.text + sp.after);
    TrimEndBlank(sp.text, sp.after);
    TrimKeeps(sp.text);
  }

  lemma SpellingBlanks(sp: Spelling)
    requires SpellingOk(sp)
    ensures Blank(sp.before) && Blank(sp.after) && LiteralOk(sp.l)
  {
  }

  lemma UpperKeyword(sp: Spelling)
    requires SpellingOk(sp) && (sp.l.NullLiteral? || sp.l.BoolLiteral?)
    ensures Upper(sp.text) == Render(sp.l) && sp.text[0] != QUOTE
  {
    hide Render;
    forall i | 0 <= i < |sp.text|
      ensures Upper(sp.text)[i] == Render(sp.l)[i]
    {
      KeywordLetters(sp.l, i);
    }
    RenderEnds(sp.l);
    KeywordLetters(sp.l, 0);
  }

  /** However it is spelled, a literal parses to its value. */
  lemma ParseSpelling(sp: Spelling)
    requires SpellingOk(sp)
    ensures ParseLiteral(Written(sp)) == Some(Meaning(sp.l))
  {
    hide Trim, ParseNumeral, Space, Upper, Written, Blank;
    TrimWritten(sp);
    assert ParseLiteral(Written(sp)) == ParseLiteral(sp.text);
    if sp.l.NullLiteral? || sp.l.BoolLiteral? {
      UpperKeyword(sp);
      KeywordsApart();
    } else {
      ParseRender(sp.l);
    }
  }

  lemma {:induction false} BlankIsPlain(s: Str)
    requires Blank(s)
    ensures forall i :: 0 <= i < |s| ==> s[i] != QUOTE && s[i] != COMMA
  {
  }

  /** A written literal is one item up to the next comma or the end. */
  lemma ScanWritten(sp: Spelling, tail: Str)
    requires SpellingOk(sp) && (tail == [] || tail[0] == COMMA)
    ensures Items(Written(sp) + tail, [], false) == Items(tail, Written(sp), false)
  {
    hide Items, Escape, SpellingOk, Blank;
    SpellingBlanks(sp);
    SpellingEnds(sp);
    BlankIsPlain(sp.before);
    BlankIsPlain(sp.after);
    if sp.l.StringLiteral? {
      QuotedText(sp);
      ScanString(sp.before, sp.l.s, sp.after, tail);
    } else {
      ScanPlain(Written(sp), tail, []);
      assert [] + Written(sp) == Written(sp);
    }
  }

  lemma ScanString(before: Str, s: Str, after: Str, tail: Str)
    requires forall i :: 0 <= i < |before| ==> before[i] != QUOTE && before[i] != COMMA
    requires forall i :: 0 <= i < |after| ==> after[i] != QUOTE && after[i] != COMMA
    requires tail == [] || tail[0] == COMMA
    ensures var item := before + ([QUOTE] + Escape(s) + [QUOTE]) + after;
            Items(item + tail, [], false) == Items(tail, item, false)
  {
    hide Items, Escape;
    var item := before + ([QUOTE] + Escape(s) + [QUOTE]) + after;
    var rest := after + tail;
    var body := Escape(s) + ([QUOTE] + rest);
    assert item + tail == before + ([QUOTE] + body);
    ScanPlain(before, [QUOTE] + body, []);
    assert [] + before == before;
    OpenQuote(body, before);
    ScanQuoted(s, rest, before + [QUOTE]);
    var cur := before + [QUOTE] + Escape(s) + [QUOTE];
    ScanPlain(after, tail, cur);
    assert cur + after == item;
  }

  lemma QuotedText(sp: Spelling)
    requires SpellingOk(sp) && sp.l.StringLiteral?
    ensures sp.text == [QUOTE] + Escape(sp.l.s) + [QUOTE]
  {
  }

  function WriteAll(sps: seq<Spelling>): (parts: seq<Str>)
    ensures |parts| == |sps| && forall i :: 0 <= i < |sps| ==> parts[i] == Written(sps[i])
  {
    seq(|sps|, i requires 0 <= i < |sps| => Written(sps[i]))
  }

  function Texts(sps: seq<Spelling>): (parts: seq<Str>)
    ensures |parts| == |sps| && forall i :: 0 <= i < |sps| ==> parts[i] == sps[i].text
  {
    seq(|sps|, i requires 0 <= i < |sps| => sps[i].text)
  }

  lemma {:induction false} ScanAll(sps: seq<Spelling>)
    requires sps != [] && forall i :: 0 <= i < |sps| ==> SpellingOk(sps[i])
    ensures Items(Join(WriteAll(sps)), [], false) == Some(WriteAll(sps))
    decreases |sps|
  {
    hide Written, SpellingOk;
    var first := Written(sps[0]);
    if |sps| == 1 {
      assert first + [] == first;
      ScanWritten(sps[0], []);
      assert WriteAll(sps) == [first];
    } else {
      var rest := Join(WriteAll(sps[1..]));
      assert WriteAll(sps)[1..] == WriteAll(sps[1..]);
      var tail := [COMMA] + rest;
      assert Join(WriteAll(sps)) == first + tail && tail[1..] == rest;
      ScanWritten(sps[0], tail);
      ScanAll(sps[1..]);
      assert [first] + WriteAll(sps[1..]) == WriteAll(sps);
    }
  }

  lemma {:induction false} KeptTrims(parts: seq<Str>, texts: seq<Str>)
    requires |parts| == |texts| && forall i :: 0 <= i < |parts| ==> texts[i] != [] && Trim(parts[i]) == texts[i]
    ensures Kept(parts) == texts
  {
    hide Trim;
    if parts != [] {
      KeptTrims(parts[1..], texts[1..]);
      assert [texts[0]] + texts[1..] == texts;
    }
  }

  /**
   Any list of literals survives, however it is spelled: splitting at the commas
   gives the texts without their blanks, and parsing each gives the original values
   in order, whatever quotes, commas or parentheses the strings hold.
   */
  lemma SplitThenParse(sps: seq<Spelling>)
    requires forall i :: 0 <= i < |sps| ==> SpellingOk(sps[i])
    ensures SplitList(Join(WriteAll(sps))) == Some(Texts(sps))
    ensures forall i :: 0 <= i < |sps| ==>
        LiteralOk(sps[i].l) && ParseLiteral(Texts(sps)[i]) == Some(Meaning(sps[i].l))
  {
    hide Written, SpellingOk, Trim, ParseLiteral, Meaning;
    if sps == [] {
      assert WriteAll(sps) == [] && Texts(sps) == [];
      EmptyList();
    } else {
      ScanAll(sps);
      forall i | 0 <= i < |sps|
        ensures Texts(sps)[i] != [] && Trim(WriteAll(sps)[i]) == Texts(sps)[i]
      {
        SpellingEnds(sps[i]);
        TrimWritten(sps[i]);
      }
      KeptTrims(WriteAll(sps), Texts(sps));
    }
    forall i | 0 <= i < |sps|
      ensures LiteralOk(sps[i].l) && ParseLiteral(Texts(sps)[i]) == Some(Meaning(sps[i].l))
    {
      SpellingBlanks(sps[i]);
      ParseText(sps[i]);
    }
  }

  lemma ParseText(sp: Spelling)
    requires SpellingOk(sp)
    ensures ParseLiteral(sp.text) == Some(Meaning(sp.l))
  {
    hide Trim, Written, SpellingOk, Upper, ParseNumeral;
    ParseSpelling(sp);
    TrimWritten(sp);
  }

  lemma EmptyList()
    ensures SplitList([]) == Some([])
  {
    assert Trim([]) == [];
    assert Kept([[]]) == [];
  }

  // ----- the value list of an INSERT

  datatype InsertLists = Lists(columns: seq<Str>, values: seq<SqlValue>) | BadLists

  function ParseAll(parts: seq<Str>): Option<seq<SqlValue>> {
    if parts == [] then Some([])
    else
      match ParseLiteral(parts[0])
      case None => None
      case Some(v) =>
        match ParseAll(parts[1..])
        case None => None
        case Some(vs) => Some([v] + vs)
  }

  /** The two parenthesized lists: every value must parse and the counts must agree. */
  function InsertListsOf(columns: Str, values: Str): InsertLists {
    match SplitList(columns)
    case None => BadLists
    case Some(cs) =>
      match SplitList(values)
      case None => BadLists
      case Some(parts) =>
        match ParseAll(parts)
        case None => BadLists
        case Some(vs) => if cs == [] || |cs| != |vs| then BadLists else Lists(cs, vs)
  }

  function Meanings(sps: seq<Spelling>): (vs: seq<SqlValue>)
    requires forall i :: 0 <= i < |sps| ==> LiteralOk(sps[i].l)
    ensures |vs| == |sps| && forall i :: 0 <= i < |sps| ==> vs[i] == Meaning(sps[i].l)
  {
    seq(|sps|, i requires 0 <= i < |sps| => Meaning(sps[i].l))
  }

  lemma {:induction false} ParseAllMeanings(sps: seq<Spelling>)
    requires forall i :: 0 <= i < |sps| ==> SpellingOk(sps[i])
    ensures forall i :: 0 <= i < |sps| ==> LiteralOk(sps[i].l)
    ensures ParseAll(Texts(sps)) == Some(Meanings(sps))
  {
    hide SpellingOk, LiteralOk, ParseLiteral, Meaning;
    forall i | 0 <= i < |sps|
      ensures LiteralOk(sps[i].l)
    {
      SpellingBlanks(sps[i]);
    }
    if sps != [] {
      ParseText(sps[0]);
      ParseAllMeanings(sps[1..]);
      assert Texts(sps)[1..] == Texts(sps[1..]);
      assert [Meaning(sps[0].l)] + Meanings(sps[1..]) == Meanings(sps);
    } else {
      assert Meanings(sps) == [];
    }
  }

  /** An INSERT's values arrive in column order, or the statement is refused for its counts alone. */
  lemma InsertValuesInOrder(columns: Str, cs: seq<Str>, sps: seq<Spelling>)
    requires SplitList(columns) == Some(cs) && forall i :: 0 <= i < |sps| ==> SpellingOk(sps[i])
    ensures forall i :: 0 <= i < |sps| ==> LiteralOk(sps[i].l)
    ensures InsertListsOf(columns, Join(WriteAll(sps)))
         == if cs != [] && |cs| == |sps| then Lists(cs, Meanings(sps)) else BadLists
  {
    hide SplitList, SpellingOk, LiteralOk, Meaning;
    SplitThenParse(sps);
    ParseAllMeanings(sps);
  }

  // ----- what numerals are worth

  /** The last `k` decimal digits of a number. */
  function Padded(n: nat, k: nat): (t: Str)
    ensures |t| == k && Digits(t)
  {
    if k == 0 then [] else Padded(n / 10, k - 1) + [0x30 + n % 10]
  }

  /** A number's decimal text, without leading zeros. */
  function Decimal(n: nat): (t: Str)
    ensures t != [] && Digits(t)
  {
    (if n < 10 then [] else Decimal(n / 10)) + [0x30 + n % 10]
  }

  function Ten(k: nat): (p: nat)
    ensures p > 0
  {
    if k == 0 then 1 else 10 * Ten(k - 1)
  }

  lemma {:induction false} WholePadded(n: nat, k: nat)
    requires n < Ten(k)
    ensures Whole(Padded(n, k)) == n
  {
    if k > 0 {
      WholePadded(n / 10, k - 1);
      assert Padded(n, k)[..k - 1] == Padded(n / 10, k - 1);
    }
  }

  lemma {:induction false} WholeDecimal(n: nat)
    ensures Whole(Decimal(n)) == n
  {
    var t := Decimal(n);
    if n >= 10 {
      WholeDecimal(n / 10);
      assert t[..|t| - 1] == Decimal(n / 10);
    } else {
      assert t[..|t| - 1] == [];
    }
  }

  /** Every text of digits is the padding of the number it denotes. */
  lemma {:induction false} DigitsArePadded(s: Str)
    requires Digits(s)
    ensures Whole(s) < Ten(|s|) && Padded(Whole(s), |s|) == s
  {
    if s != [] {
      var front := s[..|s| - 1];
      DigitsArePadded(front);
      assert Whole(s) / 10 == Whole(front) && Whole(s) % 10 == s[|s| - 1] - 0x30;
      assert s == front + [s[|s| - 1]];
    }
  }

  lemma {:induction false} ScaleIsTen(k: nat)
    ensures Scale(k) == Ten(k) as real
  {
    if k > 0 { ScaleIsTen(k - 1); }
  }

  /**
   Digits are worth n, fraction digits f over ten to their count, and a minus sign
   negates: every text of the numeral's form, as its digits are a padding.
   */
  lemma NumeralWorth(neg: bool, n: nat, j: nat, f: nat, k: nat)
    requires 0 < j && n < Ten(j) && f < Ten(k)
    ensures var v := n as real + f as real / Ten(k) as real;
            ParseLiteral((if neg then [MINUS] else []) + Padded(n, j) + (if k == 0 then [] else [DOT] + Padded(f, k)))
              == Some(Numeric(if neg then -v else v))
  {
    hide ParseLiteral, Padded, Scale, Whole;
    var l := NumberLiteral(neg, Padded(n, j), Padded(f, k));
    ParseRender(l);
    WholePadded(n, j);
    WholePadded(f, k);
    ScaleIsTen(k);
  }

  lemma NoFraction(neg: bool, whole: Str)
    requires Digits(whole)
    ensures NumeralValue(neg, whole, []) == if neg then -(Whole(whole) as real) else Whole(whole) as real
  {
  }

  /** Integers parse to themselves. */
  lemma IntegerParses(n: int)
    ensures ParseLiteral(if n < 0 then [MINUS] + Decimal(-n) else Decimal(n)) == Some(Numeric(n as real))
  {
    hide ParseLiteral, Decimal, Whole, NumeralValue;
    var m := if n < 0 then -n else n;
    ParseRender(NumberLiteral(n < 0, Decimal(m), []));
    WholeDecimal(m);
    NoFraction(n < 0, Decimal(m));
    assert [MINUS] + Decimal(m) + [] == [MINUS] + Decimal(m) && [] + Decimal(m) + [] == Decimal(m);
  }

  // ----- what is a literal at all

  /** Trimming takes blanks off both ends and nothing else. */
  lemma TrimSplits(raw: Str) returns (before: Str, after: Str)
    ensures Blank(before) && Blank(after) && raw == before + Trim(raw) + after
  {
    hide Blank;
    before := TrimStartSplits(raw);
    after := TrimEndSplits(TrimStart(raw));
  }

  lemma {:induction false} TrimStartSplits(raw: Str) returns (before: Str)
    ensures Blank(before) && raw == before + TrimStart(raw)
  {
    if raw != [] && Space(raw[0]) {
      var rest := TrimStartSplits(raw[1..]);
      SpaceIsBlank(raw[0]);
      before := [raw[0]] + rest;
      assert raw == [raw[0]] + raw[1..];
    } else {
      before := [];
    }
  }

  lemma {:induction false} TrimEndSplits(raw: Str) returns (after: Str)
    ensures Blank(after) && raw == TrimEnd(raw) + after
  {
    if raw != [] && Space(raw[|raw| - 1]) {
      var rest := TrimEndSplits(raw[..|raw| - 1]);
      SpaceIsBlank(raw[|raw| - 1]);
      after := rest + [raw[|raw| - 1]];
      assert raw == raw[..|raw| - 1] + [raw[|raw| - 1]];
    } else {
      after := [];
    }
  }

  /** What parses as a numeral: digits after the sign, then nothing or a point and digits to the end. */
  lemma NumeralShape(t: Str)
    requires ParseNumeral(t).Some?
    ensures t != []
    ensures var body := if t[0] == MINUS then t[1..] else t;
            var n := DigitRun(body);
            n < |body| ==> body[n] == DOT && n + 1 < |body| && DigitRun(body[n + 1..]) == |body[n + 1..]|
    ensures DigitRun(if t[0] == MINUS then t[1..] else t) > 0
  {
    hide NumeralValue, DigitRun, Digits;
    assert t == [] ==> DigitRun(t) == 0;
  }

  /** A numeral that parses is a spelled number. */
  lemma NumeralIsSpelled(t: Str) returns (l: Literal)
    requires ParseNumeral(t).Some?
    ensures l.NumberLiteral? && LiteralOk(l) && Render(l) == t
  {
    hide ParseNumeral, DigitRun, Render;
    NumeralShape(t);
    var neg := t[0] == MINUS;
    var body := if neg then t[1..] else t;
    var n := DigitRun(body);
    var frac := if n == |body| then [] else body[n + 1..];
    DigitsToEnd(frac);
    l := NumberLiteral(neg, body[..n], frac);
    hide Digits;
    NumeralText(neg, body, n);
    SignedText(neg, t);
  }

  lemma DigitsToEnd(s: Str)
    requires s == [] || DigitRun(s) == |s|
    ensures Digits(s)
  {
    hide DigitRun;
    assert s[..|s|] == s;
  }

  lemma NumeralText(neg: bool, body: Str, n: nat)
    requires n <= |body| && (n < |body| ==> body[n] == DOT && n + 1 < |body|)
    ensures Render(NumberLiteral(neg, body[..n], if n == |body| then [] else body[n + 1..])) ==
      (if neg then [MINUS] else []) + body
  {
    hide Render;
    var whole, frac, sign: Str := body[..n], if n == |body| then [] else body[n + 1..], if neg then [MINUS] else [];
    RenderNumber(neg, whole, frac);
    if n == |body| {
      assert sign + whole + [] == sign + body;
    } else {
      assert body == whole + ([DOT] + frac);
      assert sign + whole + ([DOT] + frac) == sign + (whole + ([DOT] + frac));
    }
  }

  lemma RenderNumber(neg: bool, whole: Str, frac: Str)
    ensures Render(NumberLiteral(neg, whole, frac)) ==
      (if neg then [MINUS] else []) + whole + (if frac == [] then [] else [DOT] + frac)
  {
    hide Js, Escape;
  }

  lemma SignedText(neg: bool, t: Str)
    requires t != [] && (neg <==> t[0] == MINUS)
    ensures (if neg then [MINUS] else []) + (if neg then t[1..] else t) == t
  {
  }

  /** A quoted text: its quotes inside need not be doubled. */
  predicate QuotedForm(t: Str) {
    |t| >= 2 && t[0] == QUOTE && t[|t| - 1] == QUOTE
  }

  lemma KeywordSpelled(t: Str, l: Literal)
    requires (l.NullLiteral? || l.BoolLiteral?) && Upper(t) == Render(l)
    ensures SpellingOk(Spelling([], l, t, []))
  {
    hide Render;
    forall i | 0 <= i < |t|
      ensures LetterIs(t[i], Render(l)[i])
    {
      assert UpperUnit(t[i]) == Upper(t)[i];
      KeywordLetters(l, i);
    }
  }

  /** A text is a literal exactly when it is quoted or is a spelling, blanks aside. */
  lemma LiteralIff(raw: Str)
    ensures ParseLiteral(raw).Some? <==>
              QuotedForm(Trim(raw)) || exists sp :: SpellingOk(sp) && Written(sp) == raw
  {
    hide Trim, ParseNumeral, Upper, Render, Blank;
    if sp :| SpellingOk(sp) && Written(sp) == raw {
      ParseSpelling(sp);
    }
    var t := Trim(raw);
    if ParseLiteral(raw).Some? && !QuotedForm(t) {
      var before, after := TrimSplits(raw);
      var l := LiteralOf(t);
      assert SpellingOk(Spelling([], l, t, []));
      assert Written(Spelling(before, l, t, after)) == raw;
    }
  }

  lemma LiteralOf(t: Str) returns (l: Literal)
    requires !QuotedForm(t)
    requires Upper(t) == Js("NULL") || Upper(t) == Js("TRUE") || Upper(t) == Js("FALSE") || ParseNumeral(t).Some?
    ensures SpellingOk(Spelling([], l, t, []))
  {
    hide ParseNumeral, Upper;
    if Upper(t) == Js("NULL") {
      l := NullLiteral;
      KeywordSpelled(t, l);
    } else if Upper(t) == Js("TRUE") {
      l := BoolLiteral(true);
      KeywordSpelled(t, l);
    } else if Upper(t) == Js("FALSE") {
      l := BoolLiteral(false);
      KeywordSpelled(t, l);
    } else {
      l := NumeralIsSpelled(t);
    }
  }

  /** Unescaping leaves a text alone exactly when no two quotes in it meet. */
  lemma {:induction false} UnescapeKeepsIff(s: Str)
    ensures |Unescape(s)| <= |s|
    ensures Unescape(s) == s <==> forall i :: 0 <= i < |s| - 1 ==> !(s[i] == QUOTE && s[i + 1] == QUOTE)
    decreases |s|
  {
    if s != [] {
      if |s| >= 2 && s[0] == QUOTE && s[1] == QUOTE {
        UnescapeKeepsIff(s[2..]);
      } else {
        UnescapeKeepsIff(s[1..]);
        assert Unescape(s) == s <==> Unescape(s[1..]) == s[1..] by {
          assert Unescape(s)[1..] == Unescape(s[1..]) && s == [s[0]] + s[1..];
        }
        forall i | 0 <= i < |s| - 1
          ensures i > 0 ==> s[i] == s[1..][i - 1] && s[i + 1] == s[1..][i]
        {
        }
        assert forall i :: 0 <= i < |s[1..]| ==> s[1..][i] == s[i + 1];
      }
    }
  }

  /** The characters the parser looks for. */
  lemma Marks()
    ensures [QUOTE, COMMA, MINUS, DOT] == Js("',-.")
  {
  }
}
