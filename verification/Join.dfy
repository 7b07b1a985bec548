/**
 The inner hash join: it builds a map from rendered keys to left rows and probes it
 with the right rows. The result is the nested-loop join, every matching pair once,
 right rows in scan order and left rows in scan order within each.
 */
module Join {
  import opened JsText
  import opened Options
  import opened Values
  import opened Filter
  import opened TableModel
  import opened RelationalTable
  import opened Executor

  datatype JoinRow = JoinRow(left: Row, right: Row)

  /** Row numbers of a joined pair. */
  datatype Pair = Pair(left: nat, right: nat)

  /** The rows whose cell renders to `k`, in order. */
  function Group(h: Host, rows: seq<Row>, column: Str, k: Str): seq<Row> {
    if rows == [] then []
    else
      Group(h, rows[..|rows| - 1], column, k)
      + (if TextOf(h, rows[|rows| - 1], column) == k then [rows[|rows| - 1]] else [])
  }

  function PairWith(ls: seq<Row>, r: Row): (out: seq<JoinRow>)
    ensures |out| == |ls| && forall i :: 0 <= i < |ls| ==> out[i] == JoinRow(ls[i], r)
  {
    seq(|ls|, i requires 0 <= i < |ls| => JoinRow(ls[i], r))
  }

  /** For each right row, each left row with the same rendered key. */
  function NestedLoop(h: Host, ls: seq<Row>, rs: seq<Row>, leftKey: Str, rightKey: Str): seq<JoinRow> {
    if rs == [] then []
    else
      var front, last := rs[..|rs| - 1], rs[|rs| - 1];
      NestedLoop(h, ls, front, leftKey, rightKey) + PairWith(Group(h, ls, leftKey, TextOf(h, last, rightKey)), last)
  }

  /** The map holds every key's group and no empty group. */
  ghost predicate Built(h: Host, ls: seq<Row>, column: Str, build: map<Str, seq<Row>>) {
    forall k :: if k in build then build[k] == Group(h, ls, column, k) else Group(h, ls, column, k) == []
  }

  lemma BuildStep(h: Host, ls: seq<Row>, column: Str, build: map<Str, seq<Row>>, i: nat)
    requires i < |ls| && Built(h, ls[..i], column, build)
    ensures var k := TextOf(h, ls[i], column);
      Built(h, ls[..i + 1], column, build[k := (if k in build then build[k] else []) + [ls[i]]])
  {
    hide TextOf;
    assert ls[..i + 1][..i] == ls[..i] && ls[..i + 1][i] == ls[i];
  }

  method HashJoin(left: RelationalTable, right: RelationalTable, leftKey: Str, rightKey: Str)
    returns (out: seq<JoinRow>)
    requires left.Valid() && right.Valid() && left.host == right.host
    ensures Scannable(left.State()) && Scannable(right.State())
    ensures out == NestedLoop(left.host, Scanned(left.host, left.State(), None),
        Scanned(left.host, right.State(), None), leftKey, rightKey)
  {
    hide TableOk, SecondaryOk, IndexedColumns, Matching, TextOf, Group;
    var h := left.host;
    KeysInRows(h, left.State());
    KeysInRows(h, right.State());
    var ls := left.Scan(None);
    var build: map<Str, seq<Row>> := map[];
    EmptyGroups(h, ls, leftKey);
    for i := 0 to |ls|
      invariant Built(h, ls[..i], leftKey, build)
    {
      BuildStep(h, ls, leftKey, build, i);
      var k := TextOf(h, ls[i], leftKey);
      build := build[k := (if k in build then build[k] else []) + [ls[i]]];
    }
    assert ls[..|ls|] == ls;
    var rs := right.Scan(None);
    out := [];
    for j := 0 to |rs|
      invariant out == NestedLoop(h, ls, rs[..j], leftKey, rightKey)
    {
      assert rs[..j + 1][..j] == rs[..j];
      var k := TextOf(h, rs[j], rightKey);
      ghost var before := out;
      if k in build {
        var matches := build[k];
        for i := 0 to |matches|
          invariant out == before + PairWith(matches[..i], rs[j])
        {
          out := out + [JoinRow(matches[i], rs[j])];
          assert PairWith(matches[..i + 1], rs[j]) == PairWith(matches[..i], rs[j]) + [JoinRow(matches[i], rs[j])];
        }
        assert matches[..|matches|] == matches;
      }
    }
    assert rs[..|rs|] == rs;
  }

  lemma EmptyGroups(h: Host, ls: seq<Row>, column: Str)
    ensures Built(h, ls[..0], column, map[])
  {
  }

  // ----- what the nested loop lists

  predicate Joins(h: Host, ls: seq<Row>, rs: seq<Row>, leftKey: Str, rightKey: Str, p: Pair) {
    p.left < |ls| && p.right < |rs| && TextOf(h, ls[p.left], leftKey) == TextOf(h, rs[p.right], rightKey)
  }

  predicate Hit(h: Host, rows: seq<Row>, column: Str, k: Str, i: nat) {
    i < |rows| && TextOf(h, rows[i], column) == k
  }

  /** `at` lists the hits in ascending order, and `group` their rows. */
  ghost predicate Hits(h: Host, rows: seq<Row>, column: Str, k: Str, at: seq<nat>, group: seq<Row>) {
    && |at| == |group|
    && (forall n :: 0 <= n < |at| ==> Hit(h, rows, column, k, at[n]) && rows[at[n]] == group[n])
    && (forall m, n :: 0 <= m < n < |at| ==> at[m] < at[n])
    && (forall i: nat :: Hit(h, rows, column, k, i) ==> i in at)
  }

  lemma HitsStep(h: Host, rows: seq<Row>, column: Str, k: Str, at: seq<nat>, group: seq<Row>, last: nat)
    requires |rows| == last + 1 && Hits(h, rows[..last], column, k, at, group)
    ensures Hit(h, rows, column, k, last) ==> Hits(h, rows, column, k, at + [last], group + [rows[last]])
    ensures !Hit(h, rows, column, k, last) ==> Hits(h, rows, column, k, at, group)
  {
    hide TextOf;
    forall i: nat | i < last
      ensures Hit(h, rows, column, k, i) <==> Hit(h, rows[..last], column, k, i)
    {
    }
    forall i: nat | Hit(h, rows, column, k, i) && i != last
      ensures i in at
    {
      assert Hit(h, rows[..last], column, k, i);
    }
    if Hit(h, rows, column, k, last) {
      var at' := at + [last];
      assert at'[|at|] == last;
      forall i: nat | Hit(h, rows, column, k, i)
        ensures i in at'
      {
        if i != last { assert i in at; }
      }
    }
  }

  lemma {:induction false} GroupHits(h: Host, ls: seq<Row>, column: Str, k: Str) returns (at: seq<nat>)
    ensures Hits(h, ls, column, k, at, Group(h, ls, column, k))
  {
    hide TextOf, Hits;
    if ls == [] {
      at := [];
      NoHits(h, column, k);
    } else {
      var last: nat := |ls| - 1;
      at := GroupHits(h, ls[..last], column, k);
      HitsStep(h, ls, column, k, at, Group(h, ls[..last], column, k), last);
      if TextOf(h, ls[last], column) == k { at := at + [last]; }
      assert Group(h, ls[..last], column, k) + [] == Group(h, ls[..last], column, k);
    }
  }

  lemma NoHits(h: Host, column: Str, k: Str)
    ensures Hits(h, [], column, k, [], [])
  {
  }

  function Column(at: seq<nat>, j: nat): (ps: seq<Pair>)
    ensures |ps| == |at| && forall n :: 0 <= n < |at| ==> ps[n] == Pair(at[n], j)
  {
    seq(|at|, n requires 0 <= n < |at| => Pair(at[n], j))
  }

  /** `ps` lists the joining pairs, ascending by right row and then by left row, and `out` their rows. */
  ghost predicate Lists(h: Host, ls: seq<Row>, rs: seq<Row>, leftKey: Str, rightKey: Str, ps: seq<Pair>,
                        out: seq<JoinRow>) {
    && |ps| == |out|
    && (forall n :: 0 <= n < |ps| ==>
        Joins(h, ls, rs, leftKey, rightKey, ps[n]) && out[n] == JoinRow(ls[ps[n].left], rs[ps[n].right]))
    && (forall m, n :: 0 <= m < n < |ps| ==>
        ps[m].right < ps[n].right || (ps[m].right == ps[n].right && ps[m].left < ps[n].left))
    && (forall p :: Joins(h, ls, rs, leftKey, rightKey, p) ==> p in ps)
  }

  lemma ListsStep(h: Host, ls: seq<Row>, rs: seq<Row>, leftKey: Str, rightKey: Str, ps: seq<Pair>, out: seq<JoinRow>,
                  last: nat, at: seq<nat>, group: seq<Row>)
    requires |rs| == last + 1 && Lists(h, ls, rs[..last], leftKey, rightKey, ps, out)
    requires Hits(h, ls, leftKey, TextOf(h, rs[last], rightKey), at, group)
    ensures Lists(h, ls, rs, leftKey, rightKey, ps + Column(at, last), out + PairWith(group, rs[last]))
  {
    hide TextOf;
    var k := TextOf(h, rs[last], rightKey);
    var ps', out', more := ps + Column(at, last), out + PairWith(group, rs[last]), Column(at, last);
    forall n | 0 <= n < |ps'|
      ensures Joins(h, ls, rs, leftKey, rightKey, ps'[n]) && out'[n] == JoinRow(ls[ps'[n].left], rs[ps'[n].right])
    {
      if n < |ps| {
        assert Joins(h, ls, rs[..last], leftKey, rightKey, ps[n]);
      } else {
        assert Hit(h, ls, leftKey, k, at[n - |ps|]);
      }
    }
    forall p | Joins(h, ls, rs, leftKey, rightKey, p)
      ensures p in ps'
    {
      if p.right < last {
        assert Joins(h, ls, rs[..last], leftKey, rightKey, p);
        assert p in ps;
      } else {
        assert Hit(h, ls, leftKey, k, p.left);
        var n :| 0 <= n < |at| && at[n] == p.left;
        assert more[n] == p && ps'[|ps| + n] == p;
      }
    }
  }

  /**
   The join as index pairs: strictly ascending by right row and then by left row,
   each naming rows with equal rendered keys, and every such pair among them.
   */
  lemma {:induction false} JoinLists(h: Host, ls: seq<Row>, rs: seq<Row>, leftKey: Str, rightKey: Str)
    returns (ps: seq<Pair>)
    ensures Lists(h, ls, rs, leftKey, rightKey, ps, NestedLoop(h, ls, rs, leftKey, rightKey))
    decreases |rs|
  {
    hide TextOf, Group, Lists, Hits;
    if rs == [] {
      ps := [];
      NothingLists(h, ls, leftKey, rightKey);
    } else {
      var last: nat := |rs| - 1;
      var k := TextOf(h, rs[last], rightKey);
      var before := JoinLists(h, ls, rs[..last], leftKey, rightKey);
      var at := GroupHits(h, ls, leftKey, k);
      ListsStep(h, ls, rs, leftKey, rightKey, before, NestedLoop(h, ls, rs[..last], leftKey, rightKey), last, at,
        Group(h, ls, leftKey, k));
      ps := before + Column(at, last);
    }
  }

  lemma NothingLists(h: Host, ls: seq<Row>, leftKey: Str, rightKey: Str)
    ensures Lists(h, ls, [], leftKey, rightKey, [], [])
  {
  }

  // ----- the join statement

  /** `{ ...l, ...r }` */
  function Merge(p: JoinRow): Row {
    p.left + p.right
  }

  /** The right table's cell wins where both rows have the column. */
  lemma RightWins(p: JoinRow, column: Str)
    ensures Cell(Merge(p), column) == if column in p.right then p.right[column] else Cell(p.left, column)
  {
  }

  /** The named columns, absent ones as undefined; None is `*`. */
  function Project(row: Row, columns: Option<seq<Str>>): Row {
    if columns.None? then row else map c | c in columns.value :: Cell(row, c)
  }

  /** Merged rows that pass the clause, projected, in join order. */
  function Output(h: Host, ps: seq<JoinRow>, where: Option<Where>, columns: Option<seq<Str>>): seq<Row> {
    if ps == [] then []
    else
      var front, last := ps[..|ps| - 1], Merge(ps[|ps| - 1]);
      Output(h, front, where, columns) + (if MatchesWhere(h, last, where) then [Project(last, columns)] else [])
  }

  function Limited(rows: seq<Row>, limit: Option<nat>): seq<Row> {
    if limit.Some? && limit.value < |rows| then rows[..limit.value] else rows
  }

  // The stages of the statement, each over the whole list.

  function MergeAll(ps: seq<JoinRow>): (rows: seq<Row>)
    ensures |rows| == |ps| && forall i :: 0 <= i < |ps| ==> rows[i] == Merge(ps[i])
  {
    seq(|ps|, i requires 0 <= i < |ps| => Merge(ps[i]))
  }

  function ProjectAll(rows: seq<Row>, columns: Option<seq<Str>>): (out: seq<Row>)
    ensures |out| == |rows| && forall i :: 0 <= i < |rows| ==> out[i] == Project(rows[i], columns)
  {
    seq(|rows|, i requires 0 <= i < |rows| => Project(rows[i], columns))
  }

  /** Stage by stage or pair by pair, the same output. */
  lemma {:induction false} StagesAreOutput(h: Host, ps: seq<JoinRow>, where: Option<Where>, columns: Option<seq<Str>>)
    ensures ProjectAll(Passing(h, MergeAll(ps), where), columns) == Output(h, ps, where, columns)
    decreases |ps|
  {
    hide MatchesWhere, Merge, Project;
    if ps != [] {
      var front := ps[..|ps| - 1];
      StagesAreOutput(h, front, where, columns);
      assert MergeAll(ps)[..|ps| - 1] == MergeAll(front);
      var kept, last := Passing(h, MergeAll(front), where), Merge(ps[|ps| - 1]);
      assert ProjectAll(kept + [last], columns) == ProjectAll(kept, columns) + [Project(last, columns)];
    }
  }

  method MergeRows(pairs: seq<JoinRow>) returns (rows: seq<Row>)
    ensures rows == MergeAll(pairs)
  {
    rows := [];
    for i := 0 to |pairs|
      invariant rows == MergeAll(pairs[..i])
    {
      rows := rows + [pairs[i].left + pairs[i].right];
      assert rows == MergeAll(pairs[..i + 1]);
    }
    assert pairs[..|pairs|] == pairs;
  }

  method FilterRows(h: Host, rows: seq<Row>, where: Where) returns (kept: seq<Row>)
    ensures kept == Passing(h, rows, Some(where))
  {
    hide Covers, RowSatisfies;
    var compiled := CompilePerColumn(h, where);
    kept := [];
    for i := 0 to |rows|
      invariant kept == Passing(h, rows[..i], Some(where))
    {
      assert rows[..i + 1][..i] == rows[..i];
      var accepted := Test(h, compiled, rows[i], where);
      if accepted {
        kept := kept + [rows[i]];
      }
    }
    assert rows[..|rows|] == rows;
  }

  method ProjectRow(row: Row, columns: seq<Str>) returns (o: Row)
    ensures o == Project(row, Some(columns))
  {
    o := map[];
    for j := 0 to |columns|
      invariant o == map c | c in columns[..j] :: Cell(row, c)
    {
      o := o[columns[j] := Cell(row, columns[j])];
      assert columns[..j + 1] == columns[..j] + [columns[j]];
    }
    assert columns[..|columns|] == columns;
  }

  method ProjectRows(rows: seq<Row>, columns: seq<Str>) returns (out: seq<Row>)
    ensures out == ProjectAll(rows, Some(columns))
  {
    hide Project;
    out := [];
    for i := 0 to |rows|
      invariant out == ProjectAll(rows[..i], Some(columns))
    {
      var o := ProjectRow(rows[i], columns);
      out := out + [o];
      assert out == ProjectAll(rows[..i + 1], Some(columns));
    }
    assert rows[..|rows|] == rows;
  }

  /** The clause and the projection run only when the statement has them. */
  method ExecuteJoin(left: RelationalTable, right: RelationalTable, leftKey: Str, rightKey: Str,
                     where: Option<Where>, columns: Option<seq<Str>>, limit: Option<nat>) returns (rows: seq<Row>)
    requires left.Valid() && right.Valid() && left.host == right.host
    ensures Scannable(left.State()) && Scannable(right.State())
    ensures var ls, rs := Scanned(left.host, left.State(), None), Scanned(left.host, right.State(), None);
            rows == Limited(Output(left.host, NestedLoop(left.host, ls, rs, leftKey, rightKey), where, columns), limit)
  {
    hide Output, NestedLoop, TableOk, SecondaryOk, IndexedColumns, Project, Merge;
    var pairs := HashJoin(left, right, leftKey, rightKey);
    StagesAreOutput(left.host, pairs, where, columns);
    rows := MergeRows(pairs);
    if where.Some? {
      rows := FilterRows(left.host, rows, where.value);
    } else {
      AllPass(left.host, rows);
    }
    if columns.Some? {
      rows := ProjectRows(rows, columns.value);
    } else {
      AllColumns(rows);
    }
    if limit.Some? && limit.value < |rows| {
      rows := rows[..limit.value];
    }
  }

  lemma {:induction false} AllPass(h: Host, rows: seq<Row>)
    ensures Passing(h, rows, None) == rows
  {
    if rows != [] { AllPass(h, rows[..|rows| - 1]); }
  }

  lemma AllColumns(rows: seq<Row>)
    ensures ProjectAll(rows, None) == rows
  {
  }

  predicate Passes(h: Host, ps: seq<JoinRow>, where: Option<Where>, k: nat) {
    k < |ps| && MatchesWhere(h, Merge(ps[k]), where)
  }

  /** The whole row, or exactly the named columns with the cells the row has under them. */
  ghost predicate Projects(row: Row, columns: Option<seq<Str>>, out: Row) {
    match columns
    case None => out == row
    case Some(cs) =>
      (forall c :: c in out <==> c in cs)
      && (forall c :: c in out ==> out[c] == if c in row then row[c] else Undefined)
  }

  lemma ProjectProjects(row: Row, columns: Option<seq<Str>>)
    ensures Projects(row, columns, Project(row, columns))
  {
  }

  /** The limit keeps the first rows, all of them when there are no more. */
  lemma LimitKeepsFirst(rows: seq<Row>, limit: nat)
    ensures Limited(rows, None) == rows
    ensures |Limited(rows, Some(limit))| == if |rows| < limit then |rows| else limit
    ensures Limited(rows, Some(limit)) <= rows
  {
  }

  /** `at` lists the passing pairs in ascending order, and `out` their projected rows. */
  ghost predicate Picks(h: Host, ps: seq<JoinRow>, where: Option<Where>, columns: Option<seq<Str>>, at: seq<nat>,
                        out: seq<Row>) {
    && |at| == |out|
    && (forall i :: 0 <= i < |at| ==> Passes(h, ps, where, at[i]) && Projects(Merge(ps[at[i]]), columns, out[i]))
    && (forall i, j :: 0 <= i < j < |at| ==> at[i] < at[j])
    && (forall k: nat :: Passes(h, ps, where, k) ==> k in at)
  }

  lemma PicksStep(h: Host, ps: seq<JoinRow>, where: Option<Where>, columns: Option<seq<Str>>, at: seq<nat>,
                  out: seq<Row>, last: nat)
    requires |ps| == last + 1 && Picks(h, ps[..last], where, columns, at, out)
    ensures Passes(h, ps, where, last) ==>
              Picks(h, ps, where, columns, at + [last], out + [Project(Merge(ps[last]), columns)])
    ensures !Passes(h, ps, where, last) ==> Picks(h, ps, where, columns, at, out)
  {
    hide MatchesWhere, Merge, Project, Projects;
    ProjectProjects(Merge(ps[last]), columns);
    forall k: nat | k < last
      ensures Passes(h, ps, where, k) <==> Passes(h, ps[..last], where, k)
    {
    }
    forall k: nat | Passes(h, ps, where, k) && k != last
      ensures k in at
    {
      assert Passes(h, ps[..last], where, k);
    }
    var at' := at + [last];
    assert at'[|at|] == last;
    forall k: nat | Passes(h, ps, where, k)
      ensures k in at'
    {
      assert k != last ==> k in at;
    }
  }

  /** The output is, in order, exactly the joined pairs whose merged row passes the clause. */
  lemma {:induction false} OutputPicks(h: Host, ps: seq<JoinRow>, where: Option<Where>, columns: Option<seq<Str>>)
    returns (at: seq<nat>)
    ensures Picks(h, ps, where, columns, at, Output(h, ps, where, columns))
    decreases |ps|
  {
    hide MatchesWhere, Merge, Project, Picks;
    if ps == [] {
      at := [];
      NothingPicks(h, where, columns);
    } else {
      var last: nat := |ps| - 1;
      at := OutputPicks(h, ps[..last], where, columns);
      PicksStep(h, ps, where, columns, at, Output(h, ps[..last], where, columns), last);
      if Passes(h, ps, where, last) { at := at + [last]; }
      assert Output(h, ps[..last], where, columns) + [] == Output(h, ps[..last], where, columns);
    }
  }

  lemma NothingPicks(h: Host, where: Option<Where>, columns: Option<seq<Str>>)
    ensures Picks(h, [], where, columns, [], [])
  {
  }
}
