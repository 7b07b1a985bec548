/**
 The columnar plan: a column extracted to a dense array, filtered to a selection
 vector, and aggregated over the selection. The selection is exactly the rows the
 `where` clause accepts; where the aggregates agree with the row plan, exactly.
 */
module Pushdown {
  import opened JsText
  import opened Options
  import opened Values
  import opened Filter
  import opened Aggregation

  datatype Op = Eq | Ne | Gt | Gte | Lt | Lte

  /** `PUSH_OP`, the wire codes. */
  function Code(op: Op): nat {
    match op
    case Eq => 0 case Ne => 1 case Gt => 2 case Gte => 3 case Lt => 4 case Lte => 5
  }

  /** `===` on numbers. */
  predicate SameNumber(a: Num, b: Num) {
    a == b && a != NaN
  }

  /** Any other code compares as `lte`. */
  predicate CmpF64(v: Num, op: int, t: Num) {
    if op == 0 then SameNumber(v, t)
    else if op == 1 then !SameNumber(v, t)
    else if op == 2 then Below(t, v)
    else if op == 3 then AtMost(t, v)
    else if op == 4 then Below(v, t)
    else AtMost(v, t)
  }

  // ----- columns and selections

  /** A cell of a column array: NaN where the row holds no number. */
  function Slot(v: Value): Num {
    if v.Number? then v.n else NaN
  }

  function ColumnOf(rows: seq<Row>, column: Str): (values: seq<Num>)
    ensures |values| == |rows| && forall i :: 0 <= i < |rows| ==> values[i] == Slot(Cell(rows[i], column))
  {
    seq(|rows|, i requires 0 <= i < |rows| => Slot(Cell(rows[i], column)))
  }

  /** The first `n` positions that pass the comparison, ascending. */
  function Selected(values: seq<Num>, op: int, t: Num): seq<nat> {
    if values == [] then []
    else Selected(values[..|values| - 1], op, t) + (if CmpF64(values[|values| - 1], op, t) then [|values| - 1] else [])
  }

  /** The first positions that hold a number, ascending. */
  function NumericAt(rows: seq<Row>, column: Str): seq<nat> {
    if rows == [] then []
    else NumericAt(rows[..|rows| - 1], column) + (if Cell(rows[|rows| - 1], column).Number? then [|rows| - 1] else [])
  }

  method Columnize(rows: seq<Row>, column: Str) returns (values: array<Num>, valid: seq<nat>)
    ensures fresh(values) && values[..] == ColumnOf(rows, column)
    ensures valid == NumericAt(rows, column)
  {
    values := new Num[|rows|](_ => ZERO);
    valid := [];
    for i := 0 to |rows|
      invariant forall j :: 0 <= j < i ==> values[j] == Slot(Cell(rows[j], column))
      invariant valid == NumericAt(rows[..i], column)
    {
      assert rows[..i + 1][..i] == rows[..i];
      var v := Cell(rows[i], column);
      if v.Number? {
        values[i] := v.n;
        valid := valid + [i];
      } else {
        values[i] := NaN;
      }
    }
    assert rows[..|rows|] == rows;
  }

  method FilterF64(values: array<Num>, op: int, target: Num) returns (out: seq<nat>)
    ensures out == Selected(values[..], op, target)
  {
    out := [];
    for i := 0 to values.Length
      invariant out == Selected(values[..i], op, target)
    {
      assert values[..i + 1][..i] == values[..i];
      if CmpF64(values[i], op, target) {
        out := out + [i];
      }
    }
    assert values[..values.Length] == values[..];
  }

  /** The clause a pushed comparison stands for. */
  function Clause(column: Str, op: Op, t: Num): Option<Where> {
    var x: Option<Operand> := Some(Number(t));
    Some([(column,
           match op
           case Eq => NO_OPERATORS.(eq := x)
           case Ne => NO_OPERATORS.(ne := x)
           case Gt => NO_OPERATORS.(gt := x)
           case Gte => NO_OPERATORS.(gte := x)
           case Lt => NO_OPERATORS.(lt := x)
           case Lte => NO_OPERATORS.(lte := x))])
  }

  /** Row numbers the clause accepts, ascending. */
  function Accepted(h: Host, rows: seq<Row>, where: Option<Where>): seq<nat> {
    if rows == [] then []
    else
      Accepted(h, rows[..|rows| - 1], where)
      + (if MatchesWhere(h, rows[|rows| - 1], where) then [|rows| - 1] else [])
  }

  /** Ascending, and exactly the rows the clause accepts. */
  lemma {:induction false} AcceptedIs(h: Host, rows: seq<Row>, where: Option<Where>)
    ensures forall i, j :: 0 <= i < j < |Accepted(h, rows, where)| ==>
        Accepted(h, rows, where)[i] < Accepted(h, rows, where)[j]
    ensures forall i: nat :: i in Accepted(h, rows, where) <==> i < |rows| && MatchesWhere(h, rows[i], where)
  {
    hide MatchesWhere;
    if rows != [] {
      var front := rows[..|rows| - 1];
      AcceptedIs(h, front, where);
      var before := Accepted(h, front, where);
      forall i | 0 <= i < |before|
        ensures before[i] < |front|
      {
        assert before[i] in before;
      }
      forall i: nat | i < |front|
        ensures front[i] == rows[i]
      {
      }
    }
  }

  /** Ascending, and exactly the rows that hold a number. */
  lemma {:induction false} NumericAtIs(rows: seq<Row>, column: Str)
    ensures forall i, j :: 0 <= i < j < |NumericAt(rows, column)| ==>
        NumericAt(rows, column)[i] < NumericAt(rows, column)[j]
    ensures forall i: nat :: i in NumericAt(rows, column) <==> i < |rows| && Cell(rows[i], column).Number?
  {
    hide Cell;
    if rows != [] {
      var front := rows[..|rows| - 1];
      NumericAtIs(front, column);
      var before := NumericAt(front, column);
      forall i | 0 <= i < |before|
        ensures before[i] < |front|
      {
        assert before[i] in before;
      }
      forall i: nat | i < |front|
        ensures front[i] == rows[i]
      {
      }
    }
  }

  lemma OneCellAgrees(h: Host, row: Row, column: Str, op: Op, t: Num)
    ensures CmpF64(Slot(Cell(row, column)), Code(op), t) <==> MatchesWhere(h, row, Clause(column, op, t))
  {
    var w := Clause(column, op, t).value;
    assert RowSatisfies(h, row, w) <==> Satisfies(h, Cell(row, w[0].0), w[0].1);
  }

  /** For every operator and every number the selection vector is exactly the rows the clause accepts. */
  lemma {:induction false} SelectionAgrees(h: Host, rows: seq<Row>, column: Str, op: Op, t: Num)
    ensures Selected(ColumnOf(rows, column), Code(op), t) == Accepted(h, rows, Clause(column, op, t))
    decreases |rows|
  {
    hide CmpF64, MatchesWhere, Clause, Slot;
    if rows != [] {
      var last := |rows| - 1;
      SelectionAgrees(h, rows[..last], column, op, t);
      assert ColumnOf(rows, column)[..last] == ColumnOf(rows[..last], column);
      OneCellAgrees(h, rows[last], column, op, t);
    }
  }

  // ----- u32 columns

  const U32: int := 0x1_0000_0000

  /** `t >>> 0`: the fraction dropped toward zero, then the low 32 bits. */
  function ToUint32(t: Num): (u: nat)
    ensures u < U32
  {
    match t
    case Finite(r) => (if r >= 0.0 then r.Floor else -((-r).Floor)) % U32
    case _ => 0
  }

  predicate CmpU32(v: nat, op: int, t: nat) {
    if op == 0 then v == t
    else if op == 1 then v != t
    else if op == 2 then v > t
    else if op == 3 then v >= t
    else if op == 4 then v < t
    else v <= t
  }

  /** The target modulo 2^32: fractions are dropped toward zero first, and what is no number is 0. */
  lemma Uint32Of(n: nat, f: real)
    requires 0.0 <= f < 1.0
    ensures ToUint32(Finite(n as real + f)) == n % 0x1_0000_0000
    ensures ToUint32(Finite(-(n as real + f))) ==
      (0x1_0000_0000 - n % 0x1_0000_0000) % 0x1_0000_0000
    ensures ToUint32(NaN) == ToUint32(PosInf) == ToUint32(NegInf) == 0
  {
    assert (n as real + f).Floor == n;
  }

  /** The u32 comparison is the numeric one on all cells exactly when the target is itself a u32. */
  lemma U32AgreesIff(t: Num)
    ensures (forall v: nat, op: int :: v < U32 ==>
        (CmpU32(v, op, ToUint32(t)) <==> CmpF64(Finite(v as real), op, t)))
      <==> t.Finite? && 0.0 <= t.r <= 4294967295.0 && t.r == t.r.Floor as real
  {
    if t.Finite? && 0.0 <= t.r && t.r == t.r.Floor as real {
      Uint32Of(t.r.Floor, 0.0);
    }
    var u := ToUint32(t);
    if t == Finite(u as real) {
      forall v: nat, op: int | v < U32
        ensures CmpU32(v, op, u) <==> CmpF64(Finite(v as real), op, t)
      {
      }
    } else {
      assert CmpU32(u, 0, u) && !CmpF64(Finite(u as real), 0, t);
    }
  }

  method FilterU32(values: array<nat>, op: int, target: Num) returns (out: seq<nat>)
    ensures forall i :: 0 <= i < |out| ==> out[i] < values.Length && CmpU32(values[out[i]], op, ToUint32(target))
    ensures forall i, j :: 0 <= i < j < |out| ==> out[i] < out[j]
    ensures forall k: nat :: k < values.Length && CmpU32(values[k], op, ToUint32(target)) ==> k in out
  {
    hide CmpU32, ToUint32;
    out := [];
    var t := ToUint32(target);
    for i := 0 to values.Length
      invariant forall j :: 0 <= j < |out| ==> out[j] < i && CmpU32(values[out[j]], op, t)
      invariant forall j, k :: 0 <= j < k < |out| ==> out[j] < out[k]
      invariant forall k: nat :: k < i && CmpU32(values[k], op, t) ==> k in out
    {
      if CmpU32(values[i], op, t) {
        out := out + [i];
        assert out[|out| - 1] == i;
      }
    }
  }

  // ----- selected aggregates

  /** The cells a selection reads: an index past the end stops the scan. */
  function Taken(values: seq<Num>, sel: seq<nat>): seq<Num> {
    if sel == [] || sel[0] >= |values| then [] else [values[sel[0]]] + Taken(values, sel[1..])
  }

  /** Compensated summation. */
  function KahanFrom(sum: Num, c: Num, vs: seq<Num>): Num
    decreases |vs|
  {
    if vs == [] then sum
    else
      var y := Sub(vs[0], c);
      var t := Add(sum, y);
      KahanFrom(t, Sub(Sub(t, sum), y), vs[1..])
  }

  function PushedSum(vs: seq<Num>): Num {
    KahanFrom(ZERO, ZERO, vs)
  }

  function PushedMin(vs: seq<Num>): Num {
    if vs == [] then ZERO else MinFrom(PosInf, vs)
  }

  function PushedMax(vs: seq<Num>): Num {
    if vs == [] then ZERO else MaxFrom(NegInf, vs)
  }

  lemma TakenStep(values: seq<Num>, sel: seq<nat>, i: nat)
    requires i < |sel|
    ensures Taken(values, sel[i..]) == if sel[i] >= |values| then [] else [values[sel[i]]] + Taken(values, sel[i + 1..])
    ensures sel[i] < |values| ==> Taken(values, sel[i..])[1..] == Taken(values, sel[i + 1..])
  {
    assert sel[i..][0] == sel[i] && sel[i..][1..] == sel[i + 1..];
  }

  lemma TakenEnds(values: seq<Num>, sel: seq<nat>)
    ensures Taken(values, sel[|sel|..]) == [] && sel[0..] == sel
  {
  }

  /** A selection is read up to its first index past the end. */
  lemma {:induction false} TakenIsPrefix(values: seq<Num>, sel: seq<nat>, k: nat)
    requires k <= |sel| && (forall i :: 0 <= i < k ==> sel[i] < |values|)
    requires k == |sel| || sel[k] >= |values|
    ensures |Taken(values, sel)| == k && forall i :: 0 <= i < k ==> Taken(values, sel)[i] == values[sel[i]]
    decreases k
  {
    if k > 0 { TakenIsPrefix(values, sel[1..], k - 1); }
  }

  method SumSelected(values: array<Num>, sel: seq<nat>) returns (r: Num)
    ensures r == PushedSum(Taken(values[..], sel))
  {
    hide Taken, Add, Sub;
    TakenEnds(values[..], sel);
    var sum, c := ZERO, ZERO;
    for i := 0 to |sel|
      invariant KahanFrom(ZERO, ZERO, Taken(values[..], sel)) == KahanFrom(sum, c, Taken(values[..], sel[i..]))
    {
      TakenStep(values[..], sel, i);
      if sel[i] >= values.Length {
        return sum;
      }
      var y := Sub(values[sel[i]], c);
      var t := Add(sum, y);
      c := Sub(Sub(t, sum), y);
      sum := t;
    }
    return sum;
  }

  method MinSelected(values: array<Num>, sel: seq<nat>) returns (r: Num)
    ensures r == PushedMin(Taken(values[..], sel))
  {
    hide Taken, Below;
    TakenEnds(values[..], sel);
    if |sel| == 0 {
      return ZERO;
    }
    var m, seen := PosInf, false;
    for i := 0 to |sel|
      invariant MinFrom(PosInf, Taken(values[..], sel)) == MinFrom(m, Taken(values[..], sel[i..]))
      invariant seen == (i > 0) && (i > 0 ==> Taken(values[..], sel) != [])
    {
      TakenStep(values[..], sel, i);
      if sel[i] >= values.Length {
        return if seen then m else ZERO;
      }
      seen := true;
      if Below(values[sel[i]], m) { m := values[sel[i]]; }
    }
    return if seen then m else ZERO;
  }

  method MaxSelected(values: array<Num>, sel: seq<nat>) returns (r: Num)
    ensures r == PushedMax(Taken(values[..], sel))
  {
    hide Taken, Below;
    TakenEnds(values[..], sel);
    if |sel| == 0 {
      return ZERO;
    }
    var m, seen := NegInf, false;
    for i := 0 to |sel|
      invariant MaxFrom(NegInf, Taken(values[..], sel)) == MaxFrom(m, Taken(values[..], sel[i..]))
      invariant seen == (i > 0) && (i > 0 ==> Taken(values[..], sel) != [])
    {
      TakenStep(values[..], sel, i);
      if sel[i] >= values.Length {
        return if seen then m else ZERO;
      }
      seen := true;
      if Below(m, values[sel[i]]) { m := values[sel[i]]; }
    }
    return if seen then m else ZERO;
  }

  // ----- the row plan

  function SlotsOf(cells: seq<Value>): (vs: seq<Num>)
    ensures |vs| == |cells| && forall i :: 0 <= i < |cells| ==> vs[i] == Slot(cells[i])
  {
    seq(|cells|, i requires 0 <= i < |cells| => Slot(cells[i]))
  }

  lemma {:induction false} TakenConcat(values: seq<Num>, a: seq<nat>, b: seq<nat>)
    requires forall i :: 0 <= i < |a| ==> a[i] < |values|
    ensures Taken(values, a + b) == Taken(values, a) + Taken(values, b)
  {
    if a == [] {
      assert a + b == b;
    } else {
      TakenConcat(values, a[1..], b);
      assert (a + b)[1..] == a[1..] + b;
    }
  }

  lemma {:induction false} TakenOfPrefix(values: seq<Num>, n: nat, sel: seq<nat>)
    requires n <= |values| && forall i :: 0 <= i < |sel| ==> sel[i] < n
    ensures Taken(values, sel) == Taken(values[..n], sel)
  {
    if sel != [] { TakenOfPrefix(values, n, sel[1..]); }
  }

  lemma {:induction false} AcceptedInRange(h: Host, rows: seq<Row>, where: Option<Where>)
    ensures forall i :: 0 <= i < |Accepted(h, rows, where)| ==> Accepted(h, rows, where)[i] < |rows|
  {
    hide MatchesWhere;
    if rows != [] { AcceptedInRange(h, rows[..|rows| - 1], where); }
  }

  /** The selected cells of the column are the cells of the rows the row plan keeps. */
  lemma {:induction false} TakenAreFiltered(h: Host, rows: seq<Row>, column: Str, where: Option<Where>)
    ensures Taken(ColumnOf(rows, column), Accepted(h, rows, where))
        == SlotsOf(CellsOf(Passing(h, rows, where), column))
    decreases |rows|
  {
    hide MatchesWhere, Slot;
    if rows != [] {
      var last := |rows| - 1;
      var front, values := rows[..last], ColumnOf(rows, column);
      TakenAreFiltered(h, front, column, where);
      AcceptedInRange(h, front, where);
      TakenOfPrefix(values, last, Accepted(h, front, where));
      assert values[..last] == ColumnOf(front, column);
      if MatchesWhere(h, rows[last], where) {
        TakenConcat(values, Accepted(h, front, where), [last]);
        assert [last][1..] == [];
        assert Taken(values, [last]) == [values[last]];
        var kept := Passing(h, front, where);
        assert SlotsOf(CellsOf(kept + [rows[last]], column)) == SlotsOf(CellsOf(kept, column)) + [values[last]];
      } else {
        assert Accepted(h, rows, where) == Accepted(h, front, where);
        assert Passing(h, rows, where) == Passing(h, front, where);
      }
    }
  }

  // ----- where the plans agree

  lemma {:induction false} MinSkipsNaN(m: Num, cells: seq<Value>)
    ensures MinFrom(m, SlotsOf(cells)) == MinFrom(m, NumbersOf(cells))
    ensures MaxFrom(m, SlotsOf(cells)) == MaxFrom(m, NumbersOf(cells))
    decreases |cells|
  {
    if cells != [] {
      var v := Slot(cells[0]);
      assert SlotsOf(cells)[1..] == SlotsOf(cells[1..]);
      MinSkipsNaN(if Below(v, m) then v else m, cells[1..]);
      MinSkipsNaN(if Below(m, v) then v else m, cells[1..]);
      if cells[0].Number? {
        assert NumbersOf(cells)[1..] == NumbersOf(cells[1..]);
      } else {
        assert NumbersOf(cells) == NumbersOf(cells[1..]);
        assert v == NaN;
      }
    }
  }

  lemma {:induction false} ExtremeFromNaN(m: Num, ns: seq<Num>)
    ensures m == NaN <==> MinFrom(m, ns) == NaN
    ensures m == NaN <==> MaxFrom(m, ns) == NaN
    decreases |ns|
  {
    if ns != [] {
      ExtremeFromNaN(if Below(ns[0], m) then ns[0] else m, ns[1..]);
      ExtremeFromNaN(if Below(m, ns[0]) then ns[0] else m, ns[1..]);
    }
  }

  /** Nothing selected, or a first number among the selected cells that is not NaN. */
  predicate SeedOk(cells: seq<Value>) {
    cells == [] || (NumbersOf(cells) != [] && NumbersOf(cells)[0] != NaN)
  }

  /**
   Minimum and maximum over any cells: the columnar and the row results are equal
   exactly when the row plan's seed is a proper number.
   */
  lemma ExtremesAgreeIff(cells: seq<Value>)
    ensures PushedMin(SlotsOf(cells)) == Aggregated(NumbersOf(cells), Min) <==> SeedOk(cells)
    ensures PushedMax(SlotsOf(cells)) == Aggregated(NumbersOf(cells), Max) <==> SeedOk(cells)
  {
    hide Slot;
    var ns := NumbersOf(cells);
    MinSkipsNaN(PosInf, cells);
    MinSkipsNaN(NegInf, cells);
    ExtremeFromNaN(PosInf, ns);
    ExtremeFromNaN(NegInf, ns);
    if ns != [] {
      ExtremeFromNaN(ns[0], ns[1..]);
    }
  }

  lemma {:induction false} KahanExact(s: Num, vs: seq<Num>)
    requires s.Finite? && FiniteAll(vs)
    ensures KahanFrom(s, ZERO, vs) == SumFrom(s, vs)
    decreases |vs|
  {
    if vs != [] {
      assert Sub(vs[0], ZERO) == vs[0];
      KahanExact(Add(s, vs[0]), vs[1..]);
    }
  }

  lemma {:induction false} KahanStaysNaN(s: Num, c: Num, vs: seq<Num>)
    requires s == NaN || (c == NaN && vs != [])
    ensures KahanFrom(s, c, vs) == NaN
    decreases |vs|
  {
    if vs != [] {
      var y := Sub(vs[0], c);
      var t := Add(s, y);
      KahanStaysNaN(t, Sub(Sub(t, s), y), vs[1..]);
    }
  }

  /** No cell but the last is infinite, and none is NaN. */
  predicate KahanSafe(vs: seq<Num>) {
    forall i :: 0 <= i < |vs| ==> vs[i] != NaN && (i < |vs| - 1 ==> vs[i].Finite?)
  }

  /** Compensation is exact unless a cell is NaN or something follows an infinite cell; then the sum is NaN. */
  lemma {:induction false} KahanIs(s: Num, vs: seq<Num>)
    requires s.Finite?
    ensures KahanFrom(s, ZERO, vs) == if KahanSafe(vs) then SumFrom(s, vs) else NaN
    decreases |vs|
  {
    if vs != [] {
      var v, rest := vs[0], vs[1..];
      assert Sub(v, ZERO) == v;
      assert vs == [v] + rest;
      if v.Finite? {
        KahanIs(Add(s, v), rest);
        assert KahanSafe(vs) <==> KahanSafe(rest) by {
          assert forall i :: 0 <= i < |rest| ==> rest[i] == vs[i + 1];
          assert forall i :: 0 < i < |vs| ==> vs[i] == rest[i - 1];
        }
      } else if rest != [] || v == NaN {
        var t := Add(s, v);
        KahanStaysNaN(t, Sub(Sub(t, s), v), rest);
      } else {
        assert KahanSafe(vs);
      }
    }
  }

  lemma {:induction false} AllNumbers(cells: seq<Value>)
    requires NoNaN(SlotsOf(cells))
    ensures NumbersOf(cells) == SlotsOf(cells)
  {
    if cells != [] {
      assert SlotsOf(cells)[0] != NaN;
      assert SlotsOf(cells)[1..] == SlotsOf(cells[1..]);
      assert forall i :: 0 <= i < |cells[1..]| ==> SlotsOf(cells[1..])[i] == SlotsOf(cells)[i + 1];
      AllNumbers(cells[1..]);
    }
  }

  /**
   Sums over any cells, rounding apart: equal exactly when every cell is a proper
   number and none before the last is infinite, or when the numbers sum to NaN anyway.
   */
  lemma SumsAgreeIff(cells: seq<Value>)
    ensures var ns := NumbersOf(cells);
      PushedSum(SlotsOf(cells)) == Aggregated(ns, Sum) <==>
          KahanSafe(SlotsOf(cells)) || NaN in ns || (PosInf in ns && NegInf in ns)
  {
    hide Slot;
    var vs, ns := SlotsOf(cells), NumbersOf(cells);
    KahanIs(ZERO, vs);
    SumNaNIff(ZERO, ns);
    forall x
      ensures x in [ZERO] + ns <==> x == ZERO || x in ns
    {
    }
    if KahanSafe(vs) {
      AllNumbers(cells);
    }
  }

  /** Every cell a comparison other than `ne` selects is a number and not NaN. */
  lemma SelectedAreNumbers(h: Host, row: Row, column: Str, op: Op, t: Num)
    requires op != Ne && MatchesWhere(h, row, Clause(column, op, t))
    ensures Slot(Cell(row, column)) != NaN
  {
    OneCellAgrees(h, row, column, op, t);
  }

  lemma {:induction false} FilteredAreNumbers(h: Host, rows: seq<Row>, column: Str, op: Op, t: Num)
    requires op != Ne
    ensures NoNaN(SlotsOf(CellsOf(Passing(h, rows, Clause(column, op, t)), column)))
    decreases |rows|
  {
    hide MatchesWhere, Clause, Slot;
    if rows != [] {
      var last := |rows| - 1;
      FilteredAreNumbers(h, rows[..last], column, op, t);
      if MatchesWhere(h, rows[last], Clause(column, op, t)) {
        SelectedAreNumbers(h, rows[last], column, op, t);
      }
      var front := Passing(h, rows[..last], Clause(column, op, t));
      forall i | 0 <= i < |Passing(h, rows, Clause(column, op, t))|
        ensures Slot(Cell(Passing(h, rows, Clause(column, op, t))[i], column)) != NaN
      {
        if i < |front| { assert SlotsOf(CellsOf(front, column))[i] != NaN; }
      }
    }
  }

  /** What the columnar plan computes from. */
  function Pushed(rows: seq<Row>, column: Str, op: Op, t: Num): seq<Num> {
    Taken(ColumnOf(rows, column), Selected(ColumnOf(rows, column), Code(op), t))
  }

  /** What the row plan computes from. */
  function Kept(h: Host, rows: seq<Row>, column: Str, op: Op, t: Num): seq<Value> {
    CellsOf(Passing(h, rows, Clause(column, op, t)), column)
  }

  lemma PushedIsKept(h: Host, rows: seq<Row>, column: Str, op: Op, t: Num)
    ensures Pushed(rows, column, op, t) == SlotsOf(Kept(h, rows, column, op, t))
  {
    SelectionAgrees(h, rows, column, op, t);
    TakenAreFiltered(h, rows, column, Clause(column, op, t));
  }

  /**
   For every operator but `ne` the plans give the same minimum, maximum and, on
   finite cells, exact sum, 0 on an empty selection included.
   */
  lemma PlansAgree(h: Host, rows: seq<Row>, column: Str, op: Op, t: Num)
    requires op != Ne
    ensures var vs, ns := Pushed(rows, column, op, t), NumbersOf(Kept(h, rows, column, op, t));
      PushedMin(vs) == Aggregated(ns, Min) && PushedMax(vs) == Aggregated(ns, Max)
      && (FiniteAll(vs) ==> PushedSum(vs) == Aggregated(ns, Sum))
      && (vs == [] ==> PushedMin(vs) == PushedMax(vs) == PushedSum(vs) == ZERO)
  {
    hide Slot, Clause, Passing, Taken, Selected, MinFrom, MaxFrom;
    var cells := Kept(h, rows, column, op, t);
    PushedIsKept(h, rows, column, op, t);
    FilteredAreNumbers(h, rows, column, op, t);
    AllNumbers(cells);
    ExtremesAgreeIff(cells);
    SumsAgreeIff(cells);
  }

  /** For all six operators, exactly when they agree. */
  lemma PlansAgreeIff(h: Host, rows: seq<Row>, column: Str, op: Op, t: Num)
    ensures var vs, cells := Pushed(rows, column, op, t), Kept(h, rows, column, op, t);
      var ns := NumbersOf(cells);
      (PushedMin(vs) == Aggregated(ns, Min) <==> SeedOk(cells))
      && (PushedMax(vs) == Aggregated(ns, Max) <==> SeedOk(cells))
      && (PushedSum(vs) == Aggregated(ns, Sum) <==> KahanSafe(vs) || NaN in ns || (PosInf in ns && NegInf in ns))
  {
    hide *;
    PushedIsKept(h, rows, column, op, t);
    ExtremesAgreeIff(Kept(h, rows, column, op, t));
    SumsAgreeIff(Kept(h, rows, column, op, t));
  }

  /** Under `ne` they can differ: a text cell is selected, so the columnar sum is NaN and its minimum infinite. */
  lemma NotEqualDiffers(h: Host)
    ensures var rows: seq<Row> := [map[Js("n") := Text(Js("x"))]];
      PushedSum(Pushed(rows, Js("n"), Ne, ZERO)) == NaN && PushedMin(Pushed(rows, Js("n"), Ne, ZERO)) == PosInf
      && Aggregated(NumbersOf(Kept(h, rows, Js("n"), Ne, ZERO)), Sum) == ZERO
  {
    var n := Js("n");
    var rows: seq<Row> := [map[n := Text(Js("x"))]];
    var cells := Kept(h, rows, n, Ne, ZERO);
    OneCellAgrees(h, rows[0], n, Ne, ZERO);
    assert Passing(h, rows[..0], Clause(n, Ne, ZERO)) == [];
    assert Passing(h, rows, Clause(n, Ne, ZERO)) == rows;
    assert cells == [Text(Js("x"))];
    PushedIsKept(h, rows, n, Ne, ZERO);
    assert NumbersOf(cells) == [] && SlotsOf(cells) == [NaN];
    KahanIs(ZERO, SlotsOf(cells));
  }
}
