/**
 The `where` clause, compiled once to a list of checks per column and then run
 per row: the compiled form accepts exactly the rows on which every operator of
 every column holds.
 */
module Filter {
  import opened JsText
  import opened Options
  import opened Values
  import Like

  /** What a clause compares with: anything but a byte array or an array. */
  type Operand = v: Value | !v.Blob? && !v.Undefined? witness Null

  /** The operators named for one column; None where the clause leaves one out. */
  datatype Condition =
    | Bare(value: Operand)
    | Operators(eq: Option<Operand>, ne: Option<Operand>,
                gt: Option<Operand>, gte: Option<Operand>, lt: Option<Operand>, lte: Option<Operand>,
                among: Option<seq<Operand>>, like: Option<Operand>)

  const NO_OPERATORS: Condition := Operators(None, None, None, None, None, None, None, None)

  /** `Object.entries(where)` */
  type Where = seq<(Str, Condition)>

  // ----- what a clause means

  /** Each operator named must hold; ordered comparisons and `like` hold of no other type of cell. */
  predicate Satisfies(h: Host, v: Value, c: Condition) {
    match c
    case Bare(x) => Identical(v, x)
    case Operators(eq, ne, gt, gte, lt, lte, among, like) =>
      && (eq.Some? ==> Identical(v, eq.value))
      && (ne.Some? ==> !Identical(v, ne.value))
      && (gt.Some? ==> v.Number? && Below(ToNumber(h, gt.value), v.n))
      && (gte.Some? ==> v.Number? && AtMost(ToNumber(h, gte.value), v.n))
      && (lt.Some? ==> v.Number? && Below(v.n, ToNumber(h, lt.value)))
      && (lte.Some? ==> v.Number? && AtMost(v.n, ToNumber(h, lte.value)))
      && (among.Some? ==> exists i :: 0 <= i < |among.value| && SameValue(v, among.value[i]))
      && (like.Some? ==> v.Text? && Like.Test(Like.Emit(StringOf(h, like.value)), v.s))
  }

  predicate RowSatisfies(h: Host, row: Row, where: Where) {
    forall i :: 0 <= i < |where| ==> Satisfies(h, Cell(row, where[i].0), where[i].1)
  }

  /** A row against an optional clause. */
  predicate MatchesWhere(h: Host, row: Row, where: Option<Where>) {
    where.Some? ==> RowSatisfies(h, row, where.value)
  }

  /** The rows the clause keeps, in order. */
  function Passing(h: Host, rows: seq<Row>, where: Option<Where>): seq<Row> {
    if rows == [] then []
    else
      var front, last := rows[..|rows| - 1], rows[|rows| - 1];
      Passing(h, front, where) + (if MatchesWhere(h, last, where) then [last] else [])
  }

  /** A `like` on a cell of one line is the LIKE predicate. */
  lemma LikeIsLike(h: Host, v: Value, p: Operand)
    requires v.Text? && Like.OneLine(v.s)
    ensures Satisfies(h, v, NO_OPERATORS.(like := Some(p))) <==> Like.IsLike(StringOf(h, p), v.s)
  {
    Like.LikeOnOneLine(StringOf(h, p), v.s);
  }

  // ----- compilation

  /** One closure of the compiled clause. */
  datatype Check =
    | IsEqual(x: Operand) | IsNotEqual(x: Operand)
    | Above(t: Num) | AtLeast(t: Num) | Under(t: Num) | NoMoreThan(t: Num)
    | Includes(list: seq<Operand>) | Has(members: set<Operand>)
    | Tests(pattern: Str)

  predicate Run(k: Check, v: Value) {
    match k
    case IsEqual(x) => Identical(v, x)
    case IsNotEqual(x) => !Identical(v, x)
    case Above(t) => v.Number? && Below(t, v.n)
    case AtLeast(t) => v.Number? && AtMost(t, v.n)
    case Under(t) => v.Number? && Below(v.n, t)
    case NoMoreThan(t) => v.Number? && AtMost(v.n, t)
    case Includes(list) => exists i :: 0 <= i < |list| && SameValue(v, list[i])
    case Has(members) => exists x :: x in members && SameValue(v, x)
    case Tests(pattern) => v.Text? && Like.Test(pattern, v.s)
  }

  predicate RunAll(ks: seq<Check>, v: Value) {
    forall i :: 0 <= i < |ks| ==> Run(ks[i], v)
  }

  /** Past this many members the list becomes a set. */
  const SET_THRESHOLD: nat := 8

  lemma RunAllAppend(ks: seq<Check>, k: Check, v: Value)
    ensures RunAll(ks + [k], v) <==> RunAll(ks, v) && Run(k, v)
  {
    hide Run;
    assert (ks + [k])[|ks|] == k;
    forall i | 0 <= i < |ks|
      ensures (ks + [k])[i] == ks[i]
    {
    }
  }

  /** A membership set answers as the list it was built from. */
  lemma SetIsList(list: seq<Operand>, v: Value)
    ensures Run(Has(set x | x in list), v) <==> Run(Includes(list), v)
  {
    if i :| 0 <= i < |list| && SameValue(v, list[i]) {
      assert list[i] in (set x | x in list);
    }
  }

  /** The checks all hold of a value exactly when the condition does. */
  ghost predicate Covers(h: Host, ks: seq<Check>, c: Condition) {
    forall v :: RunAll(ks, v) <==> Satisfies(h, v, c)
  }

  /** The clause cut to its first `n` operators, in the order the compiler reads them. */
  ghost function Upto(c: Condition, n: nat): Condition
    requires c.Operators?
  {
    Operators(if n > 0 then c.eq else None, if n > 1 then c.ne else None, if n > 2 then c.gt else None,
              if n > 3 then c.gte else None, if n > 4 then c.lt else None, if n > 5 then c.lte else None,
              if n > 6 then c.among else None, if n > 7 then c.like else None)
  }

  function ListCheck(list: seq<Operand>): Check {
    if |list| >= SET_THRESHOLD then Has(set x | x in list) else Includes(list)
  }

  /** The check the compiler pushes for the operator at position `n`, if the clause names it. */
  ghost function CheckAt(h: Host, c: Condition, n: nat): Option<Check>
    requires c.Operators? && n < 8
  {
    if n == 0 then (if c.eq.Some? then Some(IsEqual(c.eq.value)) else None)
    else if n == 1 then (if c.ne.Some? then Some(IsNotEqual(c.ne.value)) else None)
    else if n == 2 then (if c.gt.Some? then Some(Above(ToNumber(h, c.gt.value))) else None)
    else if n == 3 then (if c.gte.Some? then Some(AtLeast(ToNumber(h, c.gte.value))) else None)
    else if n == 4 then (if c.lt.Some? then Some(Under(ToNumber(h, c.lt.value))) else None)
    else if n == 5 then (if c.lte.Some? then Some(NoMoreThan(ToNumber(h, c.lte.value))) else None)
    else if n == 6 then (if c.among.Some? then Some(ListCheck(c.among.value)) else None)
    else (if c.like.Some? then Some(Tests(Like.Emit(StringOf(h, c.like.value)))) else None)
  }

  /** The list of checks after the operator at position `n`. */
  ghost function Pushed(h: Host, ks: seq<Check>, c: Condition, n: nat): seq<Check>
    requires c.Operators? && n < 8
  {
    if CheckAt(h, c, n).Some? then ks + [CheckAt(h, c, n).value] else ks
  }

  /** Pushing the next operator's check covers one more operator. */
  lemma CoversNext(h: Host, ks: seq<Check>, c: Condition, n: nat)
    requires c.Operators? && n < 8 && Covers(h, ks, Upto(c, n))
    ensures Covers(h, Pushed(h, ks, c, n), Upto(c, n + 1))
  {
    if CheckAt(h, c, n).Some? {
      var k := CheckAt(h, c, n).value;
      forall v
        ensures Satisfies(h, v, Upto(c, n + 1)) <==> Satisfies(h, v, Upto(c, n)) && Run(k, v)
      {
        NextOperator(h, v, c, n);
      }
      Push(h, ks, Upto(c, n), k, Upto(c, n + 1));
    } else {
      assert Upto(c, n + 1) == Upto(c, n);
    }
  }

  lemma NextOperator(h: Host, v: Value, c: Condition, n: nat)
    requires c.Operators? && n < 8 && CheckAt(h, c, n).Some?
    ensures Satisfies(h, v, Upto(c, n + 1)) <==> Satisfies(h, v, Upto(c, n)) && Run(CheckAt(h, c, n).value, v)
  {
    if n == 6 { SetIsList(c.among.value, v); }
  }

  lemma UptoAll(c: Condition)
    requires c.Operators?
    ensures Upto(c, 8) == c
  {
  }

  /** The checks pushed for one column. */
  method CompileColumn(h: Host, c: Condition) returns (checks: seq<Check>)
    ensures Covers(h, checks, c)
  {
    hide Covers, Satisfies, Run, RunAll, Upto;
    match c
    case Bare(x) =>
      checks := [IsEqual(x)];
      BareCovers(h, x);
    case Operators(eq, ne, gt, gte, lt, lte, among, like) =>
      checks := [];
      NothingCovers(h, c);
      CoversNext(h, checks, c, 0);
      if eq.Some? {
        checks := checks + [IsEqual(eq.value)];
      }
      assert Covers(h, checks, Upto(c, 1));
      CoversNext(h, checks, c, 1);
      if ne.Some? {
        checks := checks + [IsNotEqual(ne.value)];
      }
      assert Covers(h, checks, Upto(c, 2));
      CoversNext(h, checks, c, 2);
      if gt.Some? {
        checks := checks + [Above(ToNumber(h, gt.value))];
      }
      assert Covers(h, checks, Upto(c, 3));
      CoversNext(h, checks, c, 3);
      if gte.Some? {
        checks := checks + [AtLeast(ToNumber(h, gte.value))];
      }
      assert Covers(h, checks, Upto(c, 4));
      CoversNext(h, checks, c, 4);
      if lt.Some? {
        checks := checks + [Under(ToNumber(h, lt.value))];
      }
      assert Covers(h, checks, Upto(c, 5));
      CoversNext(h, checks, c, 5);
      if lte.Some? {
        checks := checks + [NoMoreThan(ToNumber(h, lte.value))];
      }
      assert Covers(h, checks, Upto(c, 6));
      CoversNext(h, checks, c, 6);
      if among.Some? {
        var list := among.value;
        if |list| >= SET_THRESHOLD {
          checks := checks + [Has(set x | x in list)];
        } else {
          checks := checks + [Includes(list)];
        }
      }
      assert Covers(h, checks, Upto(c, 7));
      CoversNext(h, checks, c, 7);
      if like.Some? {
        var out := Like.LikeToRegExp(StringOf(h, like.value));
        checks := checks + [Tests(out)];
      }
      UptoAll(c);
  }

  lemma BareCovers(h: Host, x: Operand)
    ensures Covers(h, [IsEqual(x)], Bare(x))
  {
    forall v
      ensures RunAll([IsEqual(x)], v) <==> Satisfies(h, v, Bare(x))
    {
      assert RunAll([IsEqual(x)], v) ==> Run([IsEqual(x)][0], v);
    }
  }

  lemma NothingCovers(h: Host, c: Condition)
    requires c.Operators?
    ensures Covers(h, [], Upto(c, 0))
  {
  }

  /** One more check and one more operator. */
  lemma Push(h: Host, ks: seq<Check>, c: Condition, k: Check, c': Condition)
    requires Covers(h, ks, c)
    requires forall v :: Satisfies(h, v, c') <==> Satisfies(h, v, c) && Run(k, v)
    ensures Covers(h, ks + [k], c')
  {
    hide Satisfies, Run, RunAll;
    forall v
      ensures RunAll(ks + [k], v) <==> Satisfies(h, v, c')
    {
      RunAllAppend(ks, k, v);
    }
  }

  type Compiled = seq<(Str, seq<Check>)>

  method CompilePerColumn(h: Host, where: Where) returns (columns: Compiled)
    ensures |columns| == |where|
    ensures forall i :: 0 <= i < |where| ==> columns[i].0 == where[i].0 && Covers(h, columns[i].1, where[i].1)
  {
    hide Covers;
    columns := [];
    for i := 0 to |where|
      invariant |columns| == i
      invariant forall j :: 0 <= j < i ==> columns[j].0 == where[j].0 && Covers(h, columns[j].1, where[j].1)
    {
      var checks := CompileColumn(h, where[i].1);
      columns := columns + [(where[i].0, checks)];
    }
  }

  /** The predicate run per row, stopping at the first check that fails. */
  method Test(h: Host, columns: Compiled, row: Row, ghost where: Where) returns (accepted: bool)
    requires |columns| == |where|
    requires forall i :: 0 <= i < |where| ==> columns[i].0 == where[i].0 && Covers(h, columns[i].1, where[i].1)
    ensures accepted <==> RowSatisfies(h, row, where)
  {
    hide Satisfies, Run;
    for c := 0 to |columns|
      invariant forall j :: 0 <= j < c ==> Satisfies(h, Cell(row, where[j].0), where[j].1)
    {
      var v, checks := Cell(row, columns[c].0), columns[c].1;
      for i := 0 to |checks|
        invariant forall j :: 0 <= j < i ==> Run(checks[j], v)
      {
        if !Run(checks[i], v) {
          assert !RunAll(checks, v) && !Satisfies(h, v, where[c].1);
          return false;
        }
      }
      assert RunAll(checks, v);
    }
    return true;
  }

  /** Compiling and running a clause decides exactly what the clause means. */
  method Matches(h: Host, row: Row, where: Option<Where>) returns (accepted: bool)
    ensures accepted <==> MatchesWhere(h, row, where)
  {
    if where.None? {
      return true;
    }
    var columns := CompilePerColumn(h, where.value);
    accepted := Test(h, columns, row, where.value);
  }

  // ----- the single condition of a statement

  /** `singleWhere`: the six operator glyphs; no column, no operator or any other operator drops the condition. */
  function SingleWhere(column: Option<Str>, op: Option<Str>, v: Operand): Option<Where> {
    if column.None? || column.value == [] || op.None? then None
    else if op.value == Js("=") then Some([(column.value, NO_OPERATORS.(eq := Some(v)))])
    else if op.value == Js("!=") then Some([(column.value, NO_OPERATORS.(ne := Some(v)))])
    else if op.value == Js(">") then Some([(column.value, NO_OPERATORS.(gt := Some(v)))])
    else if op.value == Js(">=") then Some([(column.value, NO_OPERATORS.(gte := Some(v)))])
    else if op.value == Js("<") then Some([(column.value, NO_OPERATORS.(lt := Some(v)))])
    else if op.value == Js("<=") then Some([(column.value, NO_OPERATORS.(lte := Some(v)))])
    else None
  }

  /** Every glyph, for every cell and operand; any other glyph, or no column, leaves every row in. */
  lemma SingleWhereMeans(h: Host, column: Option<Str>, op: Option<Str>, x: Operand, row: Row)
    ensures var w := SingleWhere(column, op, x);
            var named := column.Some? && column.value != [] && op.Some?;
            && (!named ==> MatchesWhere(h, row, w))
            && (named ==>
                  var v := Cell(row, column.value);
                  var t := ToNumber(h, x);
                  && (op.value == Js("=") ==> (MatchesWhere(h, row, w) <==> Identical(v, x)))
                  && (op.value == Js("!=") ==> (MatchesWhere(h, row, w) <==> !Identical(v, x)))
                  && (op.value == Js(">") ==> (MatchesWhere(h, row, w) <==> v.Number? && Below(t, v.n)))
                  && (op.value == Js(">=") ==> (MatchesWhere(h, row, w) <==> v.Number? && AtMost(t, v.n)))
                  && (op.value == Js("<") ==> (MatchesWhere(h, row, w) <==> v.Number? && Below(v.n, t)))
                  && (op.value == Js("<=") ==> (MatchesWhere(h, row, w) <==> v.Number? && AtMost(v.n, t)))
                  && (op.value !in {Js("="), Js("!="), Js(">"), Js(">="), Js("<"), Js("<=")} ==>
                      MatchesWhere(h, row, w)))
  {
    hide Js, Identical, Below, AtMost, ToNumber;
    GlyphsDiffer();
    var w := SingleWhere(column, op, x);
    if w.Some? {
      assert |w.value| == 1 && w.value[0].0 == column.value;
      assert RowSatisfies(h, row, w.value) <==> Satisfies(h, Cell(row, column.value), w.value[0].1);
    }
  }

  /** On finite numbers the glyphs are the six comparisons. */
  lemma SingleWhereOnNumbers(h: Host, column: Str, op: Str, r: real, row: Row)
    requires column != [] && Cell(row, column).Number? && Cell(row, column).n.Finite?
    ensures var x, w := Cell(row, column).n.r, SingleWhere(Some(column), Some(op), Number(Finite(r)));
            MatchesWhere(h, row, w) <==>
              (op == Js("=") ==> x == r) && (op == Js("!=") ==> x != r) && (op == Js(">") ==> x > r)
              && (op == Js(">=") ==> x >= r) && (op == Js("<") ==> x < r) && (op == Js("<=") ==> x <= r)
  {
    hide Js, SingleWhere, MatchesWhere;
    GlyphsDiffer();
    SingleWhereMeans(h, Some(column), Some(op), Number(Finite(r)), row);
  }

  /** Equality with a text, boolean, null or number: the column must be there and hold just that; NaN equals nothing. */
  lemma EqualityMeans(h: Host, column: Str, x: Operand, row: Row)
    requires column != []
    ensures var equal := column in row && row[column] == x && x != Number(NaN);
            && (MatchesWhere(h, row, SingleWhere(Some(column), Some(Js("=")), x)) <==> equal)
            && (MatchesWhere(h, row, SingleWhere(Some(column), Some(Js("!=")), x)) <==> !equal)
            && (MatchesWhere(h, row, Some([(column, Bare(x))])) <==> equal)
            && (MatchesWhere(h, row, Some([(column, NO_OPERATORS.(eq := Some(x)))])) <==> equal)
            && (MatchesWhere(h, row, Some([(column, NO_OPERATORS.(ne := Some(x)))])) <==> !equal)
  {
    hide Js;
    GlyphsDiffer();
    SingleWhereMeans(h, Some(column), Some(Js("=")), x, row);
    SingleWhereMeans(h, Some(column), Some(Js("!=")), x, row);
    OneColumn(h, row, column, Bare(x));
    OneColumn(h, row, column, NO_OPERATORS.(eq := Some(x)));
    OneColumn(h, row, column, NO_OPERATORS.(ne := Some(x)));
  }

  lemma OneColumn(h: Host, row: Row, column: Str, c: Condition)
    ensures MatchesWhere(h, row, Some([(column, c)])) <==> Satisfies(h, Cell(row, column), c)
  {
    hide Satisfies;
    var w: Where := [(column, c)];
    assert w[0] == (column, c);
  }

  /** Membership holds exactly of a column that is there and holds one of the members, NaN included. */
  lemma AmongMeans(h: Host, column: Str, list: seq<Operand>, row: Row)
    ensures MatchesWhere(h, row, Some([(column, NO_OPERATORS.(among := Some(list)))])) <==>
              column in row && exists i :: 0 <= i < |list| && row[column] == list[i]
  {
    var c := NO_OPERATORS.(among := Some(list));
    OneColumn(h, row, column, c);
    if column in row && exists i :: 0 <= i < |list| && row[column] == list[i] {
      var i :| 0 <= i < |list| && row[column] == list[i];
      assert SameValue(row[column], list[i]);
    }
  }

  /** The number an operand of an ordered comparison stands for: truth values are 1 and 0, null is 0. */
  function OperandNumber(h: Host, x: Operand): Num {
    if x.Number? then x.n
    else if x == Bool(true) then Finite(1.0)
    else if x.Text? then h.textNumber(x.s)
    else Finite(0.0)
  }

  /** Ordered comparisons hold of numbers only, infinities included. */
  lemma OrderMeans(h: Host, column: Str, x: Operand, row: Row)
    requires column != []
    ensures var t, numeric := OperandNumber(h, x), column in row && row[column].Number?;
            && (MatchesWhere(h, row, SingleWhere(Some(column), Some(Js(">")), x)) <==>
                  numeric && Precedes(t, row[column].n))
            && (MatchesWhere(h, row, SingleWhere(Some(column), Some(Js("<")), x)) <==>
                  numeric && Precedes(row[column].n, t))
            && (MatchesWhere(h, row, SingleWhere(Some(column), Some(Js(">=")), x)) <==>
                  numeric && (Precedes(t, row[column].n) || (t == row[column].n && t != NaN)))
            && (MatchesWhere(h, row, SingleWhere(Some(column), Some(Js("<=")), x)) <==>
                  numeric && (Precedes(row[column].n, t) || (t == row[column].n && t != NaN)))
  {
    hide Js, MatchesWhere, SingleWhere, Below, AtMost, Precedes;
    GlyphsDiffer();
    SingleWhereMeans(h, Some(column), Some(Js(">")), x, row);
    SingleWhereMeans(h, Some(column), Some(Js("<")), x, row);
    SingleWhereMeans(h, Some(column), Some(Js(">=")), x, row);
    SingleWhereMeans(h, Some(column), Some(Js("<=")), x, row);
    if column in row && row[column].Number? {
      ComparisonsOrder(OperandNumber(h, x), row[column].n);
      ComparisonsOrder(row[column].n, OperandNumber(h, x));
    }
  }

  lemma GlyphsDiffer()
    ensures Js("=")[0] == 0x3D && Js("!=")[0] == 0x21 && Js(">")[0] == 0x3E && Js(">=")[0] == 0x3E && Js("<")[0] == 0x3C
    ensures Js("<=")[0] == 0x3C
    ensures |Js("=")| == 1 && |Js("!=")| == 2 && |Js(">")| == 1 && |Js(">=")| == 2 && |Js("<")| == 1 && |Js("<=")| == 2
  {
  }
}
