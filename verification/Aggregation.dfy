/** The single-pass aggregation over decoded rows, and what its results are. */
module Aggregation {
  import opened JsText
  import opened Options
  import opened Values

  // ----- arithmetic on numbers

  const ZERO: Num := Finite(0.0)

  function Add(a: Num, b: Num): Num {
    match (a, b)
    case (NaN, _) => NaN
    case (_, NaN) => NaN
    case (PosInf, NegInf) => NaN
    case (NegInf, PosInf) => NaN
    case (PosInf, _) => PosInf
    case (NegInf, _) => NegInf
    case (_, PosInf) => PosInf
    case (_, NegInf) => NegInf
    case (Finite(x), Finite(y)) => Finite(x + y)
  }

  function Neg(a: Num): Num {
    match a
    case Finite(r) => Finite(-r)
    case NaN => NaN
    case PosInf => NegInf
    case NegInf => PosInf
  }

  function Sub(a: Num, b: Num): Num {
    Add(a, Neg(b))
  }

  function OverCount(a: Num, n: nat): Num
    requires n > 0
  {
    match a
    case Finite(r) => Finite(r / n as real)
    case NaN => NaN
    case PosInf => PosInf
    case NegInf => NegInf
  }

  function SumFrom(sum: Num, ns: seq<Num>): Num
    decreases |ns|
  {
    if ns == [] then sum else SumFrom(Add(sum, ns[0]), ns[1..])
  }

  function MinFrom(m: Num, ns: seq<Num>): Num
    decreases |ns|
  {
    if ns == [] then m else MinFrom(if Below(ns[0], m) then ns[0] else m, ns[1..])
  }

  function MaxFrom(m: Num, ns: seq<Num>): Num
    decreases |ns|
  {
    if ns == [] then m else MaxFrom(if Below(m, ns[0]) then ns[0] else m, ns[1..])
  }

  // ----- the aggregations

  datatype AggFn = Count | Sum | Avg | Min | Max

  /** The numeric cells of a column, in row order. */
  function NumbersOf(cells: seq<Value>): seq<Num> {
    if cells == [] then []
    else (if cells[0].Number? then [cells[0].n] else []) + NumbersOf(cells[1..])
  }

  function CellsOf(rows: seq<Row>, column: Str): (cells: seq<Value>)
    ensures |cells| == |rows| && forall i :: 0 <= i < |rows| ==> cells[i] == Cell(rows[i], column)
  {
    seq(|rows|, i requires 0 <= i < |rows| => Cell(rows[i], column))
  }

  /** Over the numeric cells alone; 0 when there are none. */
  function Aggregated(ns: seq<Num>, fn: AggFn): Num
    requires fn != Count
  {
    if ns == [] then ZERO
    else
      match fn
      case Sum => SumFrom(ZERO, ns)
      case Avg => OverCount(SumFrom(ZERO, ns), |ns|)
      case Min => MinFrom(ns[0], ns[1..])
      case Max => MaxFrom(ns[0], ns[1..])
  }

  /** None is the throw for a missing column. */
  method Aggregate(rows: seq<Row>, fn: AggFn, column: Option<Str>) returns (r: Option<Num>)
    ensures fn == Count ==> r == Some(Finite(|rows| as real))
    ensures fn != Count && (column.None? || column.value == []) ==> r == None
    ensures fn != Count && column.Some? && column.value != [] ==>
              r == Some(Aggregated(NumbersOf(CellsOf(rows, column.value)), fn))
  {
    if fn == Count {
      return Some(Finite(|rows| as real));
    }
    if column.None? || column.value == [] {
      return None;
    }
    ghost var ns := NumbersOf(CellsOf(rows, column.value));
    var sum, count, min, max, seen := ZERO, 0, ZERO, ZERO, false;
    for i := 0 to |rows|
      invariant seen == (count > 0) && (count == 0 ==> sum == ZERO)
      invariant |ns| == count + |NumbersOf(CellsOf(rows[i..], column.value))|
      invariant SumFrom(ZERO, ns) == SumFrom(sum, NumbersOf(CellsOf(rows[i..], column.value)))
      invariant !seen ==> ns == NumbersOf(CellsOf(rows[i..], column.value))
      invariant seen ==> MinFrom(ns[0], ns[1..]) == MinFrom(min, NumbersOf(CellsOf(rows[i..], column.value)))
      invariant seen ==> MaxFrom(ns[0], ns[1..]) == MaxFrom(max, NumbersOf(CellsOf(rows[i..], column.value)))
    {
      var v := Cell(rows[i], column.value);
      NumbersStep(rows, i, column.value);
      if v.Number? {
        if !seen {
          min, max, seen := v.n, v.n, true;
        } else {
          if Below(v.n, min) { min := v.n; }
          if Below(max, v.n) { max := v.n; }
        }
        sum, count := Add(sum, v.n), count + 1;
      }
    }
    if count == 0 {
      return Some(ZERO);
    }
    match fn
    case Sum => return Some(sum);
    case Avg => return Some(OverCount(sum, count));
    case Min => return Some(min);
    case Max => return Some(max);
  }

  lemma NumbersStep(rows: seq<Row>, i: nat, column: Str)
    requires i < |rows|
    ensures var v, ns, rest := Cell(rows[i], column), NumbersOf(CellsOf(rows[i..], column)),
        NumbersOf(CellsOf(rows[i + 1..], column));
      if v.Number? then |ns| == |rest| + 1 && ns[0] == v.n && ns[1..] == rest else ns == rest
  {
    assert CellsOf(rows[i..], column)[1..] == CellsOf(rows[i + 1..], column);
  }

  // ----- what the results are

  predicate NoNaN(ns: seq<Num>) {
    forall i :: 0 <= i < |ns| ==> ns[i] != NaN
  }

  /**
   Seeding with the first number makes the minimum a member no other is below, and
   the maximum a member below no other; later NaNs are passed over.
   */
  lemma {:induction false} ExtremesAreExtreme(m: Num, ns: seq<Num>)
    requires m != NaN
    ensures MinFrom(m, ns) in [m] + ns && MaxFrom(m, ns) in [m] + ns && MinFrom(m, ns) != NaN && MaxFrom(m, ns) != NaN
    ensures forall x :: x in [m] + ns ==> !Precedes(x, MinFrom(m, ns)) && !Precedes(MaxFrom(m, ns), x)
    decreases |ns|
  {
    if ns != [] {
      ComparisonsOrder(ns[0], m);
      ComparisonsOrder(m, ns[0]);
      var low, high := if Below(ns[0], m) then ns[0] else m, if Below(m, ns[0]) then ns[0] else m;
      ExtremesAreExtreme(low, ns[1..]);
      ExtremesAreExtreme(high, ns[1..]);
      forall x | x in [m] + ns
        ensures !Precedes(x, MinFrom(m, ns)) && !Precedes(MaxFrom(m, ns), x)
      {
        assert x == m || x == ns[0] || x in ns[1..];
        assert low in [low] + ns[1..] && high in [high] + ns[1..];
        assert x in ns[1..] ==> x in [low] + ns[1..] && x in [high] + ns[1..];
      }
    }
  }

  lemma {:induction false} NaNStays(ns: seq<Num>)
    ensures MinFrom(NaN, ns) == NaN && MaxFrom(NaN, ns) == NaN
    decreases |ns|
  {
    if ns != [] { NaNStays(ns[1..]); }
  }

  /** Order does not matter to the exact sum of finite numbers. */
  function RealSum(ns: seq<Num>): real
    requires forall i :: 0 <= i < |ns| ==> ns[i].Finite?
  {
    if ns == [] then 0.0 else ns[0].r + RealSum(ns[1..])
  }

  lemma {:induction false} SumIsSum(s: real, ns: seq<Num>)
    requires forall i :: 0 <= i < |ns| ==> ns[i].Finite?
    ensures SumFrom(Finite(s), ns) == Finite(s + RealSum(ns))
    decreases |ns|
  {
    if ns != [] { SumIsSum(s + ns[0].r, ns[1..]); }
  }

  predicate FiniteAll(ns: seq<Num>) {
    forall i :: 0 <= i < |ns| ==> ns[i].Finite?
  }

  /** A plain sum is NaN exactly when it meets NaN or both infinities. */
  lemma {:induction false} SumNaNIff(sum: Num, ns: seq<Num>)
    ensures SumFrom(sum, ns) == NaN <==> NaN in [sum] + ns || (PosInf in [sum] + ns && NegInf in [sum] + ns)
    decreases |ns|
  {
    if ns == [] {
    } else {
      var s := Add(sum, ns[0]);
      SumNaNIff(s, ns[1..]);
      forall x
        ensures x in [sum] + ns <==> x == sum || x == ns[0] || x in ns[1..]
        ensures x in [s] + ns[1..] <==> x == s || x in ns[1..]
      {
        assert ns == [ns[0]] + ns[1..];
      }
    }
  }

  /** On finite cells the sum is the sum and the mean the mean, in exact arithmetic. */
  lemma SumAndMean(ns: seq<Num>)
    requires ns != [] && FiniteAll(ns)
    ensures Aggregated(ns, Sum) == Finite(RealSum(ns))
    ensures Aggregated(ns, Avg).Finite? && Aggregated(ns, Avg).r * (|ns| as real) == RealSum(ns)
  {
    SumIsSum(0.0, ns);
  }

  /**
   The minimum and maximum of a column: NaN when its first number is, else members
   that are numbers and that no member is beyond.
   */
  lemma ExtremesOfColumn(ns: seq<Num>)
    requires ns != []
    ensures var low, high := Aggregated(ns, Min), Aggregated(ns, Max);
            if ns[0] == NaN then low == high == NaN
            else
              && low in ns && high in ns && low != NaN && high != NaN
              && forall x :: x in ns ==> !Precedes(x, low) && !Precedes(high, x)
  {
    assert ns == [ns[0]] + ns[1..];
    if ns[0] == NaN { NaNStays(ns[1..]); } else { ExtremesAreExtreme(ns[0], ns[1..]); }
  }

  /** A plain sum is an infinity exactly when the column holds that one and neither NaN nor the other. */
  lemma {:induction false} SumInfiniteIff(sum: Num, ns: seq<Num>)
    ensures SumFrom(sum, ns) == PosInf <==> PosInf in [sum] + ns && NaN !in [sum] + ns && NegInf !in [sum] + ns
    ensures SumFrom(sum, ns) == NegInf <==> NegInf in [sum] + ns && NaN !in [sum] + ns && PosInf !in [sum] + ns
    decreases |ns|
  {
    if ns != [] {
      SumInfiniteIff(Add(sum, ns[0]), ns[1..]);
      assert ns == [ns[0]] + ns[1..];
    }
  }

  /** The mean of a column with an infinite sum is that infinity, and NaN stays NaN. */
  lemma MeanFollowsSum(ns: seq<Num>)
    requires ns != [] && !Aggregated(ns, Sum).Finite?
    ensures Aggregated(ns, Avg) == Aggregated(ns, Sum)
  {
  }
}
