/**
 UPDATE and DELETE over one table: the loops scan for the matching rows first and
 then write row by row. An UPDATE that leaves the primary key alone is
 all-or-nothing; one that assigns it can stop half way, exactly when stated here.
 */
module Executor {
  import opened JsText
  import opened Options
  import opened Values
  import opened Filter
  import opened TableModel
  import opened RelationalTable

  /** The assignments of one statement: a later assignment to a column overrides an earlier one. */
  function PatchOf(sets: seq<(Str, Value)>): (patch: Row)
    ensures forall c :: c in patch <==> exists i :: 0 <= i < |sets| && sets[i].0 == c
  {
    if sets == [] then map[]
    else
      var front, last := sets[..|sets| - 1], sets[|sets| - 1];
      assert sets == front + [last];
      PatchOf(front)[last.0 := last.1]
  }

  /** The last assignment to a column wins. */
  lemma {:induction false} LastAssignmentWins(sets: seq<(Str, Value)>, i: nat)
    requires i < |sets| && forall j :: i < j < |sets| ==> sets[j].0 != sets[i].0
    ensures sets[i].0 in PatchOf(sets) && PatchOf(sets)[sets[i].0] == sets[i].1
  {
    if i < |sets| - 1 {
      LastAssignmentWins(sets[..|sets| - 1], i);
    }
  }

  function Plus(n: nat, s: Step<nat>): Step<nat> {
    match s.result
    case Fail(e) => s
    case Ok(m) => Step(s.table, Ok(n + m))
  }

  function UpdateEach(h: Host, t: Table, rs: seq<Row>, patch: Row): Step<nat>
    decreases |rs|
  {
    if rs == [] then Step(t, Ok(0))
    else
      var s := Update(h, t, Cell(rs[0], t.schema.primaryKey), patch);
      match s.result
      case Fail(e) => Step(s.table, Fail(e))
      case Ok(found) => Plus(if found.Some? then 1 else 0, UpdateEach(h, s.table, rs[1..], patch))
  }

  function DeleteEach(h: Host, t: Table, rs: seq<Row>): Step<nat>
    decreases |rs|
  {
    if rs == [] then Step(t, Ok(0))
    else
      var s := Delete(h, t, Cell(rs[0], t.schema.primaryKey));
      match s.result
      case Fail(e) => Step(s.table, Fail(e))
      case Ok(found) => Plus(if found then 1 else 0, DeleteEach(h, s.table, rs[1..]))
  }

  ghost predicate Scannable(t: Table) {
    forall i :: 0 <= i < |t.keys| ==> t.keys[i] in t.rows
  }

  /** What a scan of the table returns. */
  ghost function Scanned(h: Host, t: Table, where: Option<Where>): seq<Row>
    requires Scannable(t)
  {
    SelectWithin(h, t.rows, t.keys, where, true);
    RowsAt(t.rows, Matching(h, t, where))
  }

  // ----- the loops

  method BuildPatch(sets: seq<(Str, Value)>) returns (patch: Row)
    ensures patch == PatchOf(sets)
  {
    patch := map[];
    for j := 0 to |sets|
      invariant patch == PatchOf(sets[..j])
    {
      patch := patch[sets[j].0 := sets[j].1];
      assert sets[..j + 1][..j] == sets[..j];
    }
    assert sets[..|sets|] == sets;
  }

  method ExecuteUpdate(t: RelationalTable, where: Option<Where>, sets: seq<(Str, Value)>) returns (r: Outcome<nat>)
    requires t.Valid()
    modifies t
    ensures t.Valid() && Scannable(old(t.State()))
    ensures Step(t.State(), r)
        == UpdateEach(t.host, old(t.State()), Scanned(t.host, old(t.State()), where), PatchOf(sets))
  {
    hide Update, Matching, MatchesWhere, PatchOf, TableOk, SecondaryOk, IndexedColumns;
    KeysInRows(t.host, t.State());
    var updated := 0;
    var rs := t.Scan(where);
    ghost var start := t.State();
    for i := 0 to |rs|
      invariant t.Valid()
      invariant UpdateEach(t.host, start, rs, PatchOf(sets))
          == Plus(updated, UpdateEach(t.host, t.State(), rs[i..], PatchOf(sets)))
    {
      var patch := BuildPatch(sets);
      assert rs[i..][0] == rs[i] && rs[i..][1..] == rs[i + 1..];
      var one := t.UpdateRow(Cell(rs[i], t.schema.primaryKey), patch);
      match one {
        case Fail(e) => return Fail(e);
        case Ok(found) =>
          if found.Some? {
            updated := updated + 1;
          }
      }
    }
    return Ok(updated);
  }

  method ExecuteDelete(t: RelationalTable, where: Option<Where>) returns (r: Outcome<nat>)
    requires t.Valid()
    modifies t
    ensures t.Valid() && Scannable(old(t.State()))
    ensures Step(t.State(), r) == DeleteEach(t.host, old(t.State()), Scanned(t.host, old(t.State()), where))
  {
    hide Delete, Matching, MatchesWhere, TableOk, SecondaryOk, IndexedColumns;
    KeysInRows(t.host, t.State());
    var deleted := 0;
    var rs := t.Scan(where);
    ghost var start := t.State();
    for i := 0 to |rs|
      invariant t.Valid()
      invariant DeleteEach(t.host, start, rs) == Plus(deleted, DeleteEach(t.host, t.State(), rs[i..]))
    {
      assert rs[i..][0] == rs[i] && rs[i..][1..] == rs[i + 1..];
      var one := t.DeleteRow(Cell(rs[i], t.schema.primaryKey));
      match one {
        case Fail(e) => return Fail(e);
        case Ok(found) =>
          if found {
            deleted := deleted + 1;
          }
      }
    }
    return Ok(deleted);
  }

  // ----- UPDATE

  /** The patch merged into the named rows, every other row and the order as before. */
  function Merged(rows: map<Str, Row>, ks: seq<Str>, patch: Row): map<Str, Row> {
    map k | k in rows :: if k in ks then rows[k] + patch else rows[k]
  }

  lemma UpdateOne(h: Host, t: Table, k: Str, patch: Row)
    requires TableOk(h, t) && k in t.rows && t.schema.primaryKey !in patch
    ensures var s := Update(h, t, Cell(t.rows[k], t.schema.primaryKey), patch);
      if PatchOk(t.schema, patch) then
        s == Step(t.(rows := t.rows[k := t.rows[k] + patch]), Ok(Some(t.rows[k] + patch)))
      else
        s.table == t && s.result.Fail?
  {
    hide RowOk, RowFault, PatchOk, EncodePk;
    MergeIff(t.schema, t.rows[k], patch);
    RowFaultIff(t.schema, t.rows[k] + patch);
  }

  lemma {:induction false} UpdateEachMerges(h: Host, t: Table, ks: seq<Str>, patch: Row)
    requires TableOk(h, t) && Distinct(ks) && t.schema.primaryKey !in patch && PatchOk(t.schema, patch)
    requires forall i :: 0 <= i < |ks| ==> ks[i] in t.rows
    ensures UpdateEach(h, t, RowsAt(t.rows, ks), patch) == Step(t.(rows := Merged(t.rows, ks, patch)), Ok(|ks|))
    decreases |ks|
  {
    hide TableOk, Update, PatchOk;
    if ks == [] {
      assert Merged(t.rows, ks, patch) == t.rows;
    } else {
      var k, rest := ks[0], ks[1..];
      var next := t.rows[k := t.rows[k] + patch];
      UpdateOne(h, t, k, patch);
      UpdateKeeps(h, t, Cell(t.rows[k], t.schema.primaryKey), patch);
      HeadNotInTail(ks);
      assert RowsAt(t.rows, ks)[1..] == RowsAt(next, rest);
      UpdateEachMerges(h, t.(rows := next), rest, patch);
      assert ks == [k] + rest;
      assert Merged(next, rest, patch) == Merged(t.rows, ks, patch);
    }
  }

  lemma ScanKeys(h: Host, t: Table, where: Option<Where>)
    requires TableOk(h, t)
    ensures Scannable(t)
    ensures Distinct(Matching(h, t, where))
    ensures forall i :: 0 <= i < |Matching(h, t, where)| ==> Matching(h, t, where)[i] in t.rows
    ensures forall k :: k in Matching(h, t, where) <==> k in t.rows && MatchesWhere(h, t.rows[k], where)
  {
    hide MatchesWhere, RowOk, SchemaOk;
    SelectIs(h, t.rows, t.keys, where, true);
    SelectWithin(h, t.rows, t.keys, where, true);
  }

  /**
   An UPDATE that does not assign the primary key either changes nothing and
   fails, exactly when some row matches and the patch is invalid for its columns,
   or merges the patch into exactly the matching rows, in place and in order, and
   counts them.
   */
  lemma UpdateAllOrNothing(h: Host, t: Table, where: Option<Where>, patch: Row)
    requires TableOk(h, t) && t.schema.primaryKey !in patch
    ensures Scannable(t)
    ensures var ms, s := Matching(h, t, where), UpdateEach(h, t, Scanned(h, t, where), patch);
      if ms == [] || PatchOk(t.schema, patch) then
        s == Step(t.(rows := Merged(t.rows, ms, patch)), Ok(|ms|))
      else
        s.table == t && s.result.Fail?
  {
    hide TableOk, PatchOk, Matching, MatchesWhere, Update;
    ScanKeys(h, t, where);
    var ms := Matching(h, t, where);
    if ms == [] {
      assert Merged(t.rows, ms, patch) == t.rows;
    } else if PatchOk(t.schema, patch) {
      UpdateEachMerges(h, t, ms, patch);
    } else {
      UpdateOne(h, t, ms[0], patch);
    }
  }

  /** One row under a patch that assigns the primary key. */
  lemma RekeyOne(h: Host, t: Table, k: Str, patch: Row)
    requires TableOk(h, t) && k in t.rows && t.schema.primaryKey in patch
    ensures var s := Update(h, t, Cell(t.rows[k], t.schema.primaryKey), patch);
      if EncodePk(h, patch[t.schema.primaryKey]) == Some(k) && PatchOk(t.schema, patch)
      then s == Step(t.(rows := t.rows[k := t.rows[k] + patch]), Ok(Some(t.rows[k] + patch)))
      else s.table == t && s.result.Fail?
  {
    hide RowOk, RowFault;
    MergeIff(t.schema, t.rows[k], patch);
    RowFaultIff(t.schema, t.rows[k] + patch);
  }

  /**
   An UPDATE that assigns the primary key: it succeeds only when at most one row
   matches, that row already has the assigned key and the patch is valid; with
   more matches the first one, if it has that key, stays changed behind the error.
   */
  lemma UpdateAssigningKey(h: Host, t: Table, where: Option<Where>, patch: Row)
    requires TableOk(h, t) && t.schema.primaryKey in patch
    ensures Scannable(t)
    ensures var ms, s := Matching(h, t, where), UpdateEach(h, t, Scanned(h, t, where), patch);
      if ms == [] then s == Step(t, Ok(0))
      else if EncodePk(h, patch[t.schema.primaryKey]) != Some(ms[0]) || !PatchOk(t.schema, patch) then
        s.table == t && s.result.Fail?
      else
        ms[0] in t.rows && s.table == t.(rows := t.rows[ms[0] := t.rows[ms[0]] + patch])
        && (s.result.Ok? <==> |ms| == 1) && (|ms| == 1 ==> s.result == Ok(1))
  {
    hide TableOk, PatchOk, Matching, MatchesWhere, Update, EncodePk;
    ScanKeys(h, t, where);
    var ms := Matching(h, t, where);
    if ms != [] {
      var rs := RowsAt(t.rows, ms);
      RekeyOne(h, t, ms[0], patch);
      if EncodePk(h, patch[t.schema.primaryKey]) == Some(ms[0]) && PatchOk(t.schema, patch) {
        var t' := t.(rows := t.rows[ms[0] := t.rows[ms[0]] + patch]);
        UpdateKeeps(h, t, Cell(rs[0], t.schema.primaryKey), patch);
        if |ms| > 1 {
          assert rs[1..][0] == t'.rows[ms[1]];
          RekeyOne(h, t', ms[1], patch);
        } else {
          assert rs[1..] == [];
        }
      }
    }
  }

  /** Exactly when a failing UPDATE leaves the table changed. */
  lemma PartialUpdateIff(h: Host, t: Table, where: Option<Where>, patch: Row)
    requires TableOk(h, t)
    ensures Scannable(t)
    ensures var ms, s, pk := Matching(h, t, where), UpdateEach(h, t, Scanned(h, t, where), patch), t.schema.primaryKey;
      s.result.Fail? && s.table != t <==>
        (pk in patch && |ms| > 1 && EncodePk(h, patch[pk]) == Some(ms[0]) && PatchOk(t.schema, patch)
         && ms[0] in t.rows && t.rows[ms[0]] + patch != t.rows[ms[0]])
  {
    hide PatchOk, Matching, MatchesWhere, Update, EncodePk, RowOk, UpdateEach;
    ScanKeys(h, t, where);
    var ms := Matching(h, t, where);
    if t.schema.primaryKey in patch {
      UpdateAssigningKey(h, t, where, patch);
      if ms != [] && t.rows[ms[0]] + patch == t.rows[ms[0]] {
        assert t.rows[ms[0] := t.rows[ms[0]] + patch] == t.rows;
      }
      if ms != [] && t.rows[ms[0]] + patch != t.rows[ms[0]] {
        assert t.rows[ms[0] := t.rows[ms[0]] + patch][ms[0]] != t.rows[ms[0]];
      }
    } else {
      UpdateAllOrNothing(h, t, where, patch);
    }
  }

  // ----- DELETE

  /** The keys outside a set, in order. */
  function Minus(keys: seq<Str>, gone: set<Str>): seq<Str> {
    if keys == [] then []
    else (if keys[0] in gone then [] else [keys[0]]) + Minus(keys[1..], gone)
  }

  lemma {:induction false} MinusWithout(keys: seq<Str>, k: Str, gone: set<Str>)
    ensures Minus(Without(keys, k), gone) == Minus(keys, gone + {k})
  {
    if keys != [] {
      MinusWithout(keys[1..], k, gone);
      assert Without(keys, k) == if keys[0] == k then Without(keys[1..], k) else [keys[0]] + Without(keys[1..], k);
      assert ([keys[0]] + Without(keys[1..], k))[1..] == Without(keys[1..], k);
    }
  }

  lemma {:induction false} MinusNothing(keys: seq<Str>)
    ensures Minus(keys, {}) == keys
  {
    if keys != [] {
      MinusNothing(keys[1..]);
      assert keys == [keys[0]] + keys[1..];
    }
  }

  function Members(ks: seq<Str>): set<Str> {
    set k | k in ks
  }

  lemma {:induction false} DeleteEachRemoves(h: Host, t: Table, ks: seq<Str>)
    requires TableOk(h, t) && Distinct(ks)
    requires forall i :: 0 <= i < |ks| ==> ks[i] in t.rows
    ensures DeleteEach(h, t, RowsAt(t.rows, ks))
        == Step(t.(keys := Minus(t.keys, Members(ks)), rows := t.rows - Members(ks)), Ok(|ks|))
    decreases |ks|
  {
    hide TableOk, Delete;
    if ks == [] {
      MinusNothing(t.keys);
      assert Members(ks) == {};
      assert t.rows - Members(ks) == t.rows;
    } else {
      var k, rest := ks[0], ks[1..];
      var t' := t.(keys := Without(t.keys, k), rows := t.rows - {k});
      DeleteOne(h, t, k);
      DeleteKeeps(h, t, Cell(t.rows[k], t.schema.primaryKey));
      HeadNotInTail(ks);
      assert RowsAt(t.rows, ks)[1..] == RowsAt(t'.rows, rest);
      DeleteEachRemoves(h, t', rest);
      assert ks == [k] + rest;
      assert Members(ks) == Members(rest) + {k};
      MinusWithout(t.keys, k, Members(rest));
      assert t'.rows - Members(rest) == t.rows - Members(ks);
    }
  }

  lemma DeleteOne(h: Host, t: Table, k: Str)
    requires TableOk(h, t) && k in t.rows
    ensures Delete(h, t, Cell(t.rows[k], t.schema.primaryKey))
        == Step(t.(keys := Without(t.keys, k), rows := t.rows - {k}), Ok(true))
  {
    hide RowOk, EncodePk;
  }

  lemma {:induction false} MinusIsSelect(h: Host, rows: map<Str, Row>, keys: seq<Str>, where: Option<Where>,
                                         gone: set<Str>)
    requires forall i :: 0 <= i < |keys| ==> keys[i] in rows
    requires forall i :: 0 <= i < |keys| ==> (keys[i] in gone <==> MatchesWhere(h, rows[keys[i]], where))
    ensures Minus(keys, gone) == Select(h, rows, keys, where, false)
  {
    hide MatchesWhere;
    if keys != [] {
      MinusIsSelect(h, rows, keys[1..], where, gone);
    }
  }

  /** DELETE leaves exactly the rows that do not match, in order, and counts the others; it never fails. */
  lemma DeleteLeavesTheRest(h: Host, t: Table, where: Option<Where>)
    requires TableOk(h, t)
    ensures Scannable(t)
    ensures var s := DeleteEach(h, t, Scanned(h, t, where));
      s.result == Ok(|Matching(h, t, where)|)
      && s.table.schema == t.schema
      && s.table.keys == Select(h, t.rows, t.keys, where, false)
      && s.table.rows == map k | k in t.rows && !MatchesWhere(h, t.rows[k], where) :: t.rows[k]
  {
    hide MatchesWhere, Matching, DeleteEach, RowOk, SchemaOk;
    ScanKeys(h, t, where);
    var ms := Matching(h, t, where);
    DeleteEachRemoves(h, t, ms);
    MinusIsSelect(h, t.rows, t.keys, where, Members(ms));
  }
}
