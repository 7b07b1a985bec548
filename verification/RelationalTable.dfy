/**
 The in-memory table: rows under their encoded primary key, and for every
 `unique` or primary-key column a secondary map from rendered values to key sets,
 kept in step with the rows by every operation, refused or not.
 */
module RelationalTable {
  import opened JsText
  import opened Options
  import opened Values
  import opened Filter
  import opened TableModel

  // ----- secondary maps

  type Secondary = map<Str, set<Str>>

  function TextOf(h: Host, row: Row, column: Str): Str {
    StringOf(h, Cell(row, column))
  }

  /** The map sends each value to the keys of the rows that render to it, and holds no empty set. */
  ghost predicate Groups(h: Host, column: Str, m: Secondary, rows: map<Str, Row>) {
    && (forall v, k :: v in m && k in m[v] ==> k in rows && TextOf(h, rows[k], column) == v)
    && (forall k :: k in rows ==> TextOf(h, rows[k], column) in m && k in m[TextOf(h, rows[k], column)])
    && (forall v :: v in m ==> m[v] != {})
  }

  /** What a grouped map holds, exactly. */
  lemma GroupsExactly(h: Host, column: Str, m: Secondary, rows: map<Str, Row>, v: Str)
    requires Groups(h, column, m, rows)
    ensures v in m <==> exists k :: k in rows && TextOf(h, rows[k], column) == v
    ensures v in m ==> m[v] == set k | k in rows && TextOf(h, rows[k], column) == v
  {
    hide TextOf;
    if v in m {
      var k :| k in m[v];
      assert k in rows && TextOf(h, rows[k], column) == v;
    }
  }

  function AddTo(m: Secondary, v: Str, pk: Str): Secondary {
    m[v := (if v in m then m[v] else {}) + {pk}]
  }

  function RemoveFrom(m: Secondary, v: Str, pk: Str): Secondary {
    if v !in m then m
    else if m[v] - {pk} == {} then m - {v}
    else m[v := m[v] - {pk}]
  }

  lemma AddGroups(h: Host, column: Str, m: Secondary, rows: map<Str, Row>, pk: Str, row: Row)
    requires Groups(h, column, m, rows) && pk !in rows
    ensures Groups(h, column, AddTo(m, TextOf(h, row, column), pk), rows[pk := row])
  {
    hide TextOf;
  }

  lemma RemoveGroups(h: Host, column: Str, m: Secondary, rows: map<Str, Row>, pk: Str)
    requires Groups(h, column, m, rows) && pk in rows
    ensures Groups(h, column, RemoveFrom(m, TextOf(h, rows[pk], column), pk), rows - {pk})
  {
    hide TextOf;
    var v := TextOf(h, rows[pk], column);
    var m' := RemoveFrom(m, v, pk);
    forall k | k in rows - {pk}
      ensures TextOf(h, rows[k], column) in m' && k in m'[TextOf(h, rows[k], column)]
    {
      assert TextOf(h, rows[k], column) == v ==> k in m[v] - {pk};
    }
  }

  /** The columns a table keeps a secondary map for. */
  function IndexedColumns(cs: seq<Column>): seq<Str> {
    if cs == [] then []
    else (if cs[0].unique || cs[0].primaryKey then [cs[0].name] else []) + IndexedColumns(cs[1..])
  }

  lemma {:induction false} IndexedDistinct(cs: seq<Column>)
    requires forall i, j :: 0 <= i < j < |cs| ==> cs[i].name != cs[j].name
    ensures Distinct(IndexedColumns(cs))
    ensures forall c :: c in IndexedColumns(cs) <==>
        exists i :: 0 <= i < |cs| && cs[i].name == c && (cs[i].unique || cs[i].primaryKey)
  {
    if cs != [] {
      IndexedDistinct(cs[1..]);
      assert forall i :: 0 <= i < |cs[1..]| ==> cs[1..][i] == cs[i + 1];
      assert cs[0].name !in IndexedColumns(cs[1..]);
      forall c | c in IndexedColumns(cs[1..])
        ensures exists i :: 0 <= i < |cs| && cs[i].name == c && (cs[i].unique || cs[i].primaryKey)
      {
        var i :| 0 <= i < |cs[1..]| && cs[1..][i].name == c && (cs[1..][i].unique || cs[1..][i].primaryKey);
        assert cs[i + 1].name == c;
      }
    }
  }

  /** Every indexed column has a map, and every map groups the rows. */
  ghost predicate SecondaryOk(h: Host, indexed: seq<Str>, secondary: map<Str, Secondary>, rows: map<Str, Row>) {
    && (forall c :: c in secondary <==> c in indexed)
    && (forall c :: c in secondary ==> Groups(h, c, secondary[c], rows))
  }

  lemma EmptyTable(h: Host, s: Schema)
    requires SchemaOk(s)
    ensures TableOk(h, Table(s, [], map[])) && Distinct(IndexedColumns(s.columns))
    ensures forall c :: Groups(h, c, map[], map[])
  {
    IndexedDistinct(s.columns);
  }

  // ----- the table

  class RelationalTable {
    const host: Host
    const schema: Schema
    const indexed: seq<Str>
    var keys: seq<Str>
    var rows: map<Str, Row>
    var secondary: map<Str, Secondary>

    ghost function State(): Table
      reads this
    {
      Table(schema, keys, rows)
    }

    ghost predicate Valid()
      reads this
    {
      && TableOk(host, State())
      && indexed == IndexedColumns(schema.columns)
      && Distinct(indexed)
      && SecondaryOk(host, indexed, secondary, rows)
    }

    constructor (h: Host, s: Schema)
      requires SchemaOk(s)
      ensures Valid() && host == h && State() == Table(s, [], map[])
    {
      host, schema, keys, rows := h, s, [], map[];
      indexed := IndexedColumns(s.columns);
      secondary := map[];
      new;
      hide Groups, SchemaOk, IndexedColumns, TableOk;
      EmptyTable(h, s);
      for i := 0 to |indexed|
        invariant host == h && schema == s && keys == [] && rows == map[] && indexed == IndexedColumns(s.columns)
        invariant forall c :: c in secondary <==> c in indexed[..i]
        invariant forall c :: c in secondary ==> secondary[c] == map[]
      {
        assert indexed[..i + 1] == indexed[..i] + [indexed[i]];
        secondary := secondary[indexed[i] := map[]];
      }
      assert indexed[..|indexed|] == indexed;
    }

    method IndexRow(pk: Str, row: Row)
      requires Distinct(indexed) && forall c :: c in secondary <==> c in indexed
      modifies this`secondary
      ensures forall c :: c in secondary <==> c in indexed
      ensures forall c :: c in indexed ==> secondary[c] == AddTo(old(secondary)[c], TextOf(host, row, c), pk)
    {
      hide AddTo, TextOf;
      for i := 0 to |indexed|
        invariant forall c :: c in secondary <==> c in indexed
        invariant forall j :: 0 <= j < i ==>
            secondary[indexed[j]] == AddTo(old(secondary)[indexed[j]], TextOf(host, row, indexed[j]), pk)
        invariant forall j :: i <= j < |indexed| ==> secondary[indexed[j]] == old(secondary)[indexed[j]]
      {
        var column := indexed[i];
        secondary := secondary[column := AddTo(secondary[column], TextOf(host, row, column), pk)];
      }
    }

    method DeindexRow(pk: Str, row: Row)
      requires Distinct(indexed) && forall c :: c in secondary <==> c in indexed
      modifies this`secondary
      ensures forall c :: c in secondary <==> c in indexed
      ensures forall c :: c in indexed ==> secondary[c] == RemoveFrom(old(secondary)[c], TextOf(host, row, c), pk)
    {
      hide RemoveFrom, TextOf;
      for i := 0 to |indexed|
        invariant forall c :: c in secondary <==> c in indexed
        invariant forall j :: 0 <= j < i ==>
            secondary[indexed[j]] == RemoveFrom(old(secondary)[indexed[j]], TextOf(host, row, indexed[j]), pk)
        invariant forall j :: i <= j < |indexed| ==> secondary[indexed[j]] == old(secondary)[indexed[j]]
      {
        var column := indexed[i];
        secondary := secondary[column := RemoveFrom(secondary[column], TextOf(host, row, column), pk)];
      }
    }

    method InsertRow(row: Row) returns (r: Outcome<Row>)
      requires Valid()
      modifies this
      ensures Valid()
      ensures Step(State(), r) == Insert(host, old(State()), row)
      ensures r.Fail? ==> secondary == old(secondary)
    {
      hide TableOk, RowFault, EncodePk, Groups, AddTo, TextOf;
      InsertKeeps(host, State(), row);
      var fault := ValidateRow(schema, row);
      if fault.Some? {
        return Fail(fault.value);
      }
      var pk := EncodePk(host, Cell(row, schema.primaryKey));
      if pk.None? {
        return Fail(KeyType);
      }
      if pk.value in rows {
        return Fail(DuplicateKey(pk.value));
      }
      forall c | c in secondary
        ensures Groups(host, c, AddTo(secondary[c], TextOf(host, row, c), pk.value), rows[pk.value := row])
      {
        AddGroups(host, c, secondary[c], rows, pk.value, row);
      }
      keys, rows := keys + [pk.value], rows[pk.value := row];
      IndexRow(pk.value, row);
      return Ok(row);
    }

    method FindRow(pkValue: Value) returns (r: Outcome<Option<Row>>)
      ensures r == FindByPk(host, State(), pkValue)
    {
      var pk := EncodePk(host, pkValue);
      if pk.None? {
        return Fail(KeyType);
      }
      return Ok(if pk.value in rows then Some(rows[pk.value]) else None);
    }

    /** Rows that match, in insertion order; the clause is compiled once. */
    method Scan(where: Option<Where>) returns (out: seq<Row>)
      requires Valid()
      ensures forall i :: 0 <= i < |Matching(host, State(), where)| ==> Matching(host, State(), where)[i] in rows
      ensures out == RowsAt(rows, Matching(host, State(), where))
    {
      hide TableOk, Covers, RowSatisfies, Select, MatchesWhere;
      KeysInRows(host, State());
      SelectEnd(host, rows, keys, where);
      SelectWithin(host, rows, keys, where, true);
      var columns: Compiled := [];
      if where.Some? {
        columns := CompilePerColumn(host, where.value);
      }
      out := [];
      ghost var taken: seq<Str> := [];
      for i := 0 to |keys|
        invariant forall j :: 0 <= j < |taken| ==> taken[j] in rows
        invariant Matching(host, State(), where) == taken + Select(host, rows, keys[i..], where, true)
        invariant out == RowsAt(rows, taken)
      {
        SelectStep(host, rows, keys, i, where);
        var accepted := true;
        if where.Some? {
          accepted := Test(host, columns, rows[keys[i]], where.value);
        }
        if accepted {
          out := out + [rows[keys[i]]];
          taken := taken + [keys[i]];
        }
      }
      assert taken + [] == taken;
    }

    method UpdateRow(pkValue: Value, patch: Row) returns (r: Outcome<Option<Row>>)
      requires Valid()
      modifies this
      ensures Valid()
      ensures Step(State(), r) == Update(host, old(State()), pkValue, patch)
      ensures r.Fail? ==> secondary == old(secondary)
    {
      hide TableOk, RowFault, EncodePk, Groups, AddTo, RemoveFrom, TextOf;
      UpdateKeeps(host, State(), pkValue, patch);
      var key := EncodePk(host, pkValue);
      if key.None? {
        return Fail(KeyType);
      }
      var pk := key.value;
      if pk !in rows {
        return Ok(None);
      }
      var cur := rows[pk];
      if !Cell(patch, schema.primaryKey).Undefined? {
        var named := EncodePk(host, Cell(patch, schema.primaryKey));
        if named.None? {
          return Fail(KeyType);
        }
        if named.value != pk {
          return Fail(KeyImmutable);
        }
      }
      var next := cur + patch;
      var fault := ValidateRow(schema, next);
      if fault.Some? {
        return Fail(fault.value);
      }
      forall c | c in secondary
        ensures Groups(host, c, AddTo(RemoveFrom(secondary[c], TextOf(host, cur, c), pk), TextOf(host, next, c), pk),
            rows[pk := next])
      {
        RemoveGroups(host, c, secondary[c], rows, pk);
        AddGroups(host, c, RemoveFrom(secondary[c], TextOf(host, cur, c), pk), rows - {pk}, pk, next);
        assert (rows - {pk})[pk := next] == rows[pk := next];
      }
      DeindexRow(pk, cur);
      rows := rows[pk := next];
      IndexRow(pk, next);
      return Ok(Some(next));
    }

    method DeleteRow(pkValue: Value) returns (r: Outcome<bool>)
      requires Valid()
      modifies this
      ensures Valid()
      ensures Step(State(), r) == Delete(host, old(State()), pkValue)
      ensures r.Fail? ==> secondary == old(secondary)
    {
      hide TableOk, EncodePk, Groups, RemoveFrom, TextOf;
      DeleteKeeps(host, State(), pkValue);
      var pk := EncodePk(host, pkValue);
      if pk.None? {
        return Fail(KeyType);
      }
      if pk.value !in rows {
        return Ok(false);
      }
      forall c | c in secondary
        ensures Groups(host, c, RemoveFrom(secondary[c], TextOf(host, rows[pk.value], c), pk.value), rows - {pk.value})
      {
        RemoveGroups(host, c, secondary[c], rows, pk.value);
      }
      DeindexRow(pk.value, rows[pk.value]);
      keys, rows := Without(keys, pk.value), rows - {pk.value};
      return Ok(true);
    }
  }

  lemma SelectStep(h: Host, rows: map<Str, Row>, keys: seq<Str>, i: nat, where: Option<Where>)
    requires i < |keys| && forall j :: 0 <= j < |keys| ==> keys[j] in rows
    ensures where.None? ==> MatchesWhere(h, rows[keys[i]], where)
    ensures where.Some? ==> (MatchesWhere(h, rows[keys[i]], where) <==> RowSatisfies(h, rows[keys[i]], where.value))
    ensures var one := if MatchesWhere(h, rows[keys[i]], where) then [keys[i]] else [];
      Select(h, rows, keys[i..], where, true) == one + Select(h, rows, keys[i + 1..], where, true)
  {
    hide RowSatisfies;
    assert keys[i..][0] == keys[i] && keys[i..][1..] == keys[i + 1..];
  }

  lemma SelectEnd(h: Host, rows: map<Str, Row>, keys: seq<Str>, where: Option<Where>)
    requires forall j :: 0 <= j < |keys| ==> keys[j] in rows
    ensures Select(h, rows, keys[|keys|..], where, true) == []
    ensures keys[0..] == keys
  {
  }

  lemma KeysInRows(h: Host, t: Table)
    requires TableOk(h, t)
    ensures forall i :: 0 <= i < |t.keys| ==> t.keys[i] in t.rows
  {
  }
}
