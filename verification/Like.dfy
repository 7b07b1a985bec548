/**
 LIKE compiled to an anchored regular expression: the text the compiler emits,
 what that text denotes under the regular-expression syntax, and how the match
 relates to the LIKE predicate.
 */
module Like {
  import opened JsText
  import opened Options

  const PERCENT: Unit := 0x25
  const UNDERSCORE: Unit := 0x5F
  const DOT: Unit := 0x2E
  const STAR: Unit := 0x2A
  const BACKSLASH: Unit := 0x5C

  /** `. * + ? ^ $ { } ( ) | [ ] \`: what the compiler escapes. */
  predicate Meta(u: Unit) {
    u == DOT || u == STAR || u == 0x2B || u == 0x3F || u == 0x5E || u == 0x24 || u == 0x7B || u == 0x7D
    || u == 0x28 || u == 0x29 || u == 0x7C || u == 0x5B || u == 0x5D || u == BACKSLASH
  }

  // ----- the compiler

  function EmitOne(u: Unit): Str {
    if u == PERCENT then [DOT, STAR]
    else if u == UNDERSCORE then [DOT]
    else if Meta(u) then [BACKSLASH, u]
    else [u]
  }

  function Emit(like: Str): Str {
    if like == [] then [] else EmitOne(like[0]) + Emit(like[1..])
  }

  lemma {:induction false} EmitAppend(a: Str, u: Unit)
    ensures Emit(a + [u]) == Emit(a) + EmitOne(u)
  {
    if a == [] {
      assert [u][1..] == [];
    } else {
      EmitAppend(a[1..], u);
      assert (a + [u])[1..] == a[1..] + [u];
    }
  }

  /** The loop that builds the pattern between the anchors. */
  method LikeToRegExp(like: Str) returns (out: Str)
    ensures out == Emit(like)
  {
    out := [];
    for i := 0 to |like|
      invariant out == Emit(like[..i])
    {
      var ch := like[i];
      EmitAppend(like[..i], ch);
      assert like[..i + 1] == like[..i] + [ch];
      if ch == PERCENT {
        out := out + [DOT, STAR];
      } else if ch == UNDERSCORE {
        out := out + [DOT];
      } else {
        out := out + (if Meta(ch) then [BACKSLASH, ch] else [ch]);
      }
    }
    assert like[..|like|] == like;
  }

  // ----- what the text denotes (section 22.2.1 of ECMA-262)

  /** The terms the emitted patterns use: a character, `.`, and `.*`. */
  datatype Term = Lit(u: Unit) | One | Any

  /** Characters that would quantify the atom before them. */
  predicate Quantifier(u: Unit) {
    u == STAR || u == 0x2B || u == 0x3F || u == 0x7B
  }

  predicate Quantified(text: Str) {
    text != [] && Quantifier(text[0])
  }

  /** Parses a pattern of these terms; None for any other pattern. */
  function Parse(text: Str): Option<seq<Term>>
    decreases |text|
  {
    if text == [] then Some([])
    else if text[0] == BACKSLASH then
      if |text| >= 2 && Meta(text[1]) && !Quantified(text[2..]) then Then(Lit(text[1]), Parse(text[2..])) else None
    else if text[0] == DOT then
      if |text| >= 2 && text[1] == STAR then
        if Quantified(text[2..]) then None else Then(Any, Parse(text[2..]))
      else if Quantified(text[1..]) then None else Then(One, Parse(text[1..]))
    else if Meta(text[0]) || Quantified(text[1..]) then None
    else Then(Lit(text[0]), Parse(text[1..]))
  }

  function Then(t: Term, rest: Option<seq<Term>>): Option<seq<Term>> {
    match rest
    case None => None
    case Some(ts) => Some([t] + ts)
  }

  function TermOf(u: Unit): Term {
    if u == PERCENT then Any else if u == UNDERSCORE then One else Lit(u)
  }

  function Terms(like: Str): (ts: seq<Term>)
    ensures |ts| == |like| && forall i :: 0 <= i < |like| ==> ts[i] == TermOf(like[i])
  {
    seq(|like|, i requires 0 <= i < |like| => TermOf(like[i]))
  }

  lemma EmitNeverQuantifies(like: Str)
    ensures !Quantified(Emit(like))
  {
  }

  /** The emitted text denotes exactly the pattern's literals and wildcards, in order. */
  lemma {:induction false} ParseEmit(like: Str)
    ensures Parse(Emit(like)) == Some(Terms(like))
  {
    if like == [] {
    } else {
      var one, rest := EmitOne(like[0]), Emit(like[1..]);
      EmitNeverQuantifies(like[1..]);
      ParseEmit(like[1..]);
      assert (one + rest)[|one|..] == rest;
      if |one| == 2 { assert (one + rest)[1] == one[1]; }
      assert Terms(like) == [TermOf(like[0])] + Terms(like[1..]);
    }
  }

  // ----- the anchored match

  /** What `.` does not match without the dotAll flag. */
  predicate LineTerminator(u: Unit) {
    u == 0x0A || u == 0x0D || u == 0x2028 || u == 0x2029
  }

  predicate Matches(ts: seq<Term>, s: Str)
    decreases |ts|, |s|
  {
    if ts == [] then s == []
    else
      match ts[0]
      case Lit(u) => s != [] && s[0] == u && Matches(ts[1..], s[1..])
      case One => s != [] && !LineTerminator(s[0]) && Matches(ts[1..], s[1..])
      case Any => Matches(ts[1..], s) || (s != [] && !LineTerminator(s[0]) && Matches(ts, s[1..]))
  }

  /** `new RegExp('^' + text + '$').test(s)` for the patterns above. */
  predicate Test(text: Str, s: Str) {
    Parse(text).Some? && Matches(Parse(text).value, s)
  }

  // ----- the LIKE predicate (section 8.5 of ISO/IEC 9075-2)

  function Flatten(pieces: seq<Str>): Str {
    if pieces == [] then [] else pieces[0] + Flatten(pieces[1..])
  }

  predicate PieceOk(u: Unit, piece: Str) {
    if u == PERCENT then true
    else if u == UNDERSCORE then |piece| == 1
    else piece == [u]
  }

  predicate PiecesOk(like: Str, pieces: seq<Str>) {
    |pieces| == |like| && forall i :: 0 <= i < |like| ==> PieceOk(like[i], pieces[i])
  }

  /** The string splits into one substring per pattern character, each as that character demands. */
  ghost predicate IsLike(like: Str, s: Str) {
    exists pieces :: PiecesOk(like, pieces) && Flatten(pieces) == s
  }

  predicate Wild(u: Unit) {
    u == PERCENT || u == UNDERSCORE
  }

  predicate OneLine(s: Str) {
    forall i :: 0 <= i < |s| ==> !LineTerminator(s[i])
  }

  /** The same split, with wildcards confined to one line. */
  predicate SplitOk(like: Str, pieces: seq<Str>) {
    PiecesOk(like, pieces) && forall i :: 0 <= i < |like| && Wild(like[i]) ==> OneLine(pieces[i])
  }

  lemma {:induction false} MatchSplits(like: Str, s: Str) returns (pieces: seq<Str>)
    requires Matches(Terms(like), s)
    ensures SplitOk(like, pieces) && Flatten(pieces) == s
    decreases |like|, |s|
  {
    if like == [] {
      pieces := [];
    } else {
      assert Terms(like)[1..] == Terms(like[1..]);
      if like[0] == PERCENT && !Matches(Terms(like)[1..], s) {
        var rest := MatchSplits(like, s[1..]);
        pieces := [[s[0]] + rest[0]] + rest[1..];
        assert pieces[1..] == rest[1..];
        assert [s[0]] + rest[0] + Flatten(rest[1..]) == [s[0]] + (rest[0] + Flatten(rest[1..]));
      } else {
        var first: Str := if like[0] == PERCENT then [] else [s[0]];
        var rest := MatchSplits(like[1..], s[|first|..]);
        pieces := [first] + rest;
        assert pieces[1..] == rest;
      }
    }
  }

  lemma {:induction false} SplitMatches(like: Str, pieces: seq<Str>)
    requires SplitOk(like, pieces)
    ensures Matches(Terms(like), Flatten(pieces))
    decreases |like|, if pieces == [] then 0 else |pieces[0]|
  {
    if like != [] {
      var first, rest := pieces[0], Flatten(pieces[1..]);
      assert Terms(like)[1..] == Terms(like[1..]);
      assert PieceOk(like[0], first) && SplitOk(like[1..], pieces[1..]);
      if like[0] == PERCENT && first != [] {
        var shorter := [first[1..]] + pieces[1..];
        assert shorter[1..] == pieces[1..];
        SplitMatches(like, shorter);
        assert (first + rest)[1..] == first[1..] + rest;
      } else {
        SplitMatches(like[1..], pieces[1..]);
        assert (first + rest)[|first|..] == rest;
      }
    }
  }

  /** The compiled test holds exactly when the string splits with every wildcard on one line. */
  lemma TestIff(like: Str, s: Str)
    ensures Test(Emit(like), s) <==> exists pieces :: SplitOk(like, pieces) && Flatten(pieces) == s
  {
    ParseEmit(like);
    if Matches(Terms(like), s) {
      var pieces := MatchSplits(like, s);
    }
    if pieces :| SplitOk(like, pieces) && Flatten(pieces) == s {
      SplitMatches(like, pieces);
    }
  }

  lemma {:induction false} PieceInString(pieces: seq<Str>, i: nat)
    requires i < |pieces| && OneLine(Flatten(pieces))
    ensures OneLine(pieces[i])
  {
    var rest := Flatten(pieces[1..]);
    if i == 0 {
      forall k | 0 <= k < |pieces[0]|
        ensures !LineTerminator(pieces[0][k])
      {
        assert Flatten(pieces)[k] == pieces[0][k];
      }
    } else {
      forall k | 0 <= k < |rest|
        ensures !LineTerminator(rest[k])
      {
        assert Flatten(pieces)[|pieces[0]| + k] == rest[k];
      }
      PieceInString(pieces[1..], i - 1);
    }
  }

  /** On every string without line terminators the compiled test is the LIKE predicate. */
  lemma LikeOnOneLine(like: Str, s: Str)
    requires OneLine(s)
    ensures Test(Emit(like), s) <==> IsLike(like, s)
  {
    TestIff(like, s);
    if IsLike(like, s) {
      var pieces :| PiecesOk(like, pieces) && Flatten(pieces) == s;
      forall i | 0 <= i < |like| && Wild(like[i])
        ensures OneLine(pieces[i])
      {
        PieceInString(pieces, i);
      }
      assert SplitOk(like, pieces);
    }
  }

  /** On other strings it never accepts more than LIKE does. */
  lemma TestImpliesLike(like: Str, s: Str)
    requires Test(Emit(like), s)
    ensures IsLike(like, s)
  {
    TestIff(like, s);
  }

  // ----- exactly which patterns agree everywhere

  function Breaks(s: Str): nat {
    if s == [] then 0 else (if LineTerminator(s[0]) then 1 else 0) + Breaks(s[1..])
  }

  lemma {:induction false} BreaksConcat(a: Str, b: Str)
    ensures Breaks(a + b) == Breaks(a) + Breaks(b)
  {
    if a == [] {
      assert a + b == b;
    } else {
      BreaksConcat(a[1..], b);
      assert (a + b)[1..] == a[1..] + b;
    }
  }

  lemma {:induction false} OneLineHasNoBreaks(s: Str)
    requires OneLine(s)
    ensures Breaks(s) == 0
  {
    if s != [] { OneLineHasNoBreaks(s[1..]); }
  }

  /** The line terminators of a match are the pattern's literal ones. */
  lemma {:induction false} SplitBreaks(like: Str, pieces: seq<Str>)
    requires SplitOk(like, pieces)
    ensures Breaks(Flatten(pieces)) == Breaks(like)
  {
    if like != [] {
      assert PieceOk(like[0], pieces[0]) && SplitOk(like[1..], pieces[1..]);
      SplitBreaks(like[1..], pieces[1..]);
      BreaksConcat(pieces[0], Flatten(pieces[1..]));
      if Wild(like[0]) {
        OneLineHasNoBreaks(pieces[0]);
      } else {
        assert pieces[0][1..] == [];
      }
    }
  }

  /** The pattern with a line feed for every wildcard: LIKE accepts it, piece by piece. */
  function Broken(like: Str): (s: Str)
    ensures |s| == |like| && forall i :: 0 <= i < |like| ==> s[i] == if Wild(like[i]) then 0x0A else like[i]
  {
    seq(|like|, i requires 0 <= i < |like| => if Wild(like[i]) then 0x0A else like[i])
  }

  function Singles(s: Str): (pieces: seq<Str>)
    ensures |pieces| == |s| && forall i :: 0 <= i < |s| ==> pieces[i] == [s[i]]
  {
    seq(|s|, i requires 0 <= i < |s| => [s[i]])
  }

  lemma {:induction false} FlattenSingles(s: Str)
    ensures Flatten(Singles(s)) == s
  {
    if s != [] {
      FlattenSingles(s[1..]);
      assert Singles(s)[1..] == Singles(s[1..]);
    }
  }

  lemma {:induction false} BrokenHasMore(like: Str)
    ensures Breaks(Broken(like)) >= Breaks(like)
    ensures (exists i :: 0 <= i < |like| && Wild(like[i])) ==> Breaks(Broken(like)) > Breaks(like)
  {
    if like != [] {
      BrokenHasMore(like[1..]);
      assert Broken(like)[1..] == Broken(like[1..]);
      if !Wild(like[0]) && exists i :: 0 <= i < |like| && Wild(like[i]) {
        var i :| 0 <= i < |like| && Wild(like[i]);
        assert Wild(like[1..][i - 1]);
      }
    }
  }

  /** `.` stops at line terminators, so compiled LIKE is LIKE on all strings exactly for wildcard-free patterns. */
  lemma AgreesEverywhereIff(like: Str)
    ensures (forall s :: Test(Emit(like), s) <==> IsLike(like, s)) <==> !exists i :: 0 <= i < |like| && Wild(like[i])
  {
    if exists i :: 0 <= i < |like| && Wild(like[i]) {
      var s := Broken(like);
      FlattenSingles(s);
      assert PiecesOk(like, Singles(s));
      TestIff(like, s);
      if pieces :| SplitOk(like, pieces) && Flatten(pieces) == s {
        SplitBreaks(like, pieces);
        BrokenHasMore(like);
      }
      assert IsLike(like, s) && !Test(Emit(like), s);
    } else {
      forall s
        ensures Test(Emit(like), s) <==> IsLike(like, s)
      {
        TestIff(like, s);
        if pieces :| PiecesOk(like, pieces) && Flatten(pieces) == s {
          assert SplitOk(like, pieces);
        }
      }
    }
  }

  // ----- the alphabets above, spelled out

  /**
   The characters escaped are the syntax characters of section 22.2.1 of ECMA-262,
   the wildcards are `%` and `_`, and lines end where its section 12.3 says.
   */
  lemma Alphabets(u: Unit)
    ensures Meta(u) <==> u in Js("^$\\.*+?()[]{}|")
    ensures Wild(u) <==> u in Js("%_")
    ensures TermOf(u) == Any <==> u == Js("%")[0]
    ensures LineTerminator(u) <==> u in {0x0A, 0x0D, 0x2028, 0x2029}
  {
    var m := Js("^$\\.*+?()[]{}|");
    assert m[0] == 0x5E && m[1] == 0x24 && m[2] == 0x5C && m[3] == 0x2E && m[4] == 0x2A && m[5] == 0x2B && m[6] == 0x3F;
    assert m[7] == 0x28 && m[8] == 0x29 && m[9] == 0x5B && m[10] == 0x5D && m[11] == 0x7B && m[12] == 0x7D;
    assert m[13] == 0x7C;
    var w := Js("%_");
    assert w[0] == 0x25 && w[1] == 0x5F;
  }
}
