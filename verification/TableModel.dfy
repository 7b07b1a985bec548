/**
 What a relational table's operations do, on values: row validation column by
 column, and insert, update and delete over rows kept in insertion order under
 the text of their primary key.
 */
module TableModel {
  import opened JsText
  import opened Options
  import opened Values
  import opened Filter
  import Catalog = CatalogCodec

  datatype Column = Column(
    name: Str, typ: Catalog.ColumnType, nullable: bool, primaryKey: bool, unique: bool, default: Value)

  datatype Schema = Schema(columns: seq<Column>, primaryKey: Str)

  /** What a compiled schema guarantees: distinct names and one primary key, which is not nullable. */
  ghost predicate SchemaOk(s: Schema) {
    && 1 <= |s.columns| <= 32
    && (forall i, j :: 0 <= i < j < |s.columns| ==> s.columns[i].name != s.columns[j].name)
    && (forall i :: 0 <= i < |s.columns| ==> (s.columns[i].primaryKey <==> s.columns[i].name == s.primaryKey))
    && (exists i :: 0 <= i < |s.columns| && s.columns[i].name == s.primaryKey)
    && (forall i :: 0 <= i < |s.columns| && s.columns[i].primaryKey ==> !s.columns[i].nullable)
  }

  datatype Error =
    | CannotBeNull(column: Str) | NotNull(column: Str) | WrongType(column: Str) | KeyRequired
    | DuplicateKey(pk: Str) | KeyImmutable | KeyType
    | NoSuchTable(name: Str)

  datatype Outcome<+T> = Ok(value: T) | Fail(error: Error)

  // ----- validation

  /** Whether a declared default counts as one in a boolean context. */
  predicate Truthy(v: Value) {
    match v
    case Bool(b) => b
    case Number(n) => n != NaN && n != Finite(0.0)
    case Text(s) => s != []
    case Blob(_) => true
    case Null => false
    case Undefined => false
  }

  /** The body of the validation loop. */
  function CellFault(c: Column, v: Value): Option<Error> {
    if v.Null? || v.Undefined? then
      if !c.nullable && !Truthy(c.default) && c.primaryKey then Some(CannotBeNull(c.name))
      else if !c.nullable && !v.Undefined? then Some(NotNull(c.name))
      else None
    else
      match c.typ
      case Bool => if !v.Bool? then Some(WrongType(c.name)) else None
      case String => if !v.Text? then Some(WrongType(c.name)) else None
      case Blob => if !v.Blob? then Some(WrongType(c.name)) else None
      case _ => if !v.Number? || !v.n.Finite? then Some(WrongType(c.name)) else None
  }

  /** What each kind of value needs of its column. */
  predicate CellOk(c: Column, v: Value) {
    match v
    case Undefined => !c.primaryKey || c.nullable || Truthy(c.default)
    case Null => c.nullable
    case Bool(_) => c.typ == Catalog.Bool
    case Text(_) => c.typ == Catalog.String
    case Blob(_) => c.typ == Catalog.Blob
    case Number(n) => n.Finite? && c.typ !in {Catalog.Bool, Catalog.String, Catalog.Blob}
  }

  lemma CellFaultIff(c: Column, v: Value)
    ensures CellFault(c, v).None? <==> CellOk(c, v)
  {
  }

  predicate KeyPresent(v: Value) {
    !v.Null? && !v.Undefined? && v != Text([])
  }

  /** Every column's cell is acceptable, and a primary key is there. */
  predicate RowOk(s: Schema, row: Row) {
    && (forall i :: 0 <= i < |s.columns| ==> CellOk(s.columns[i], Cell(row, s.columns[i].name)))
    && KeyPresent(Cell(row, s.primaryKey))
  }

  /** The first column that faults, in declaration order. */
  function FirstFault(cs: seq<Column>, row: Row): Option<Error> {
    if cs == [] then None
    else if CellFault(cs[0], Cell(row, cs[0].name)).Some? then CellFault(cs[0], Cell(row, cs[0].name))
    else FirstFault(cs[1..], row)
  }

  function RowFault(s: Schema, row: Row): Option<Error> {
    if FirstFault(s.columns, row).Some? then FirstFault(s.columns, row)
    else if !KeyPresent(Cell(row, s.primaryKey)) then Some(KeyRequired)
    else None
  }

  lemma {:induction false} FirstFaultIff(cs: seq<Column>, row: Row)
    ensures FirstFault(cs, row).None? <==> forall i :: 0 <= i < |cs| ==> CellOk(cs[i], Cell(row, cs[i].name))
  {
    hide CellFault, CellOk;
    if cs != [] {
      CellFaultIff(cs[0], Cell(row, cs[0].name));
      FirstFaultIff(cs[1..], row);
      assert cs == [cs[0]] + cs[1..];
    }
  }

  lemma RowFaultIff(s: Schema, row: Row)
    ensures RowFault(s, row).None? <==> RowOk(s, row)
  {
    FirstFaultIff(s.columns, row);
  }

  lemma {:induction false} FirstFaultAt(cs: seq<Column>, row: Row, i: nat)
    requires i < |cs| && forall j :: 0 <= j < i ==> CellOk(cs[j], Cell(row, cs[j].name))
    ensures !CellOk(cs[i], Cell(row, cs[i].name)) ==> FirstFault(cs, row) == CellFault(cs[i], Cell(row, cs[i].name))
  {
    hide CellFault, CellOk;
    CellFaultIff(cs[0], Cell(row, cs[0].name));
    if i > 0 {
      FirstFaultAt(cs[1..], row, i - 1);
    }
  }

  /** What an unusable cell is reported as: the wrong type, a null, or a key left out. */
  function FaultFor(c: Column, v: Value): Error {
    if !v.Null? && !v.Undefined? then WrongType(c.name)
    else if c.primaryKey && c.default in {Undefined, Null, Bool(false), Number(NaN), Number(Finite(0.0)), Text([])} then
      CannotBeNull(c.name)
    else NotNull(c.name)
  }

  /** A row is refused for its first unusable cell, or, when all are usable, for its missing key. */
  lemma RowFaultIs(s: Schema, row: Row, i: nat)
    requires i < |s.columns| && forall j :: 0 <= j < i ==> CellOk(s.columns[j], Cell(row, s.columns[j].name))
    ensures var c, v := s.columns[i], Cell(row, s.columns[i].name);
            !CellOk(c, v) ==> RowFault(s, row) == Some(FaultFor(c, v))
    ensures (forall j :: 0 <= j < |s.columns| ==> CellOk(s.columns[j], Cell(row, s.columns[j].name))) ==>
              RowFault(s, row) ==
                if Cell(row, s.primaryKey) in {Null, Undefined, Text([])} then Some(KeyRequired) else None
  {
    hide CellOk, CellFault, FaultFor;
    FirstFaultAt(s.columns, row, i);
    FirstFaultIff(s.columns, row);
    FaultIsFor(s.columns[i], Cell(row, s.columns[i].name));
  }

  lemma FaultIsFor(c: Column, v: Value)
    ensures !CellOk(c, v) ==> CellFault(c, v) == Some(FaultFor(c, v))
  {
  }

  /** The loop: it throws on the first faulting column, then on a missing key, and accepts exactly valid rows. */
  method ValidateRow(s: Schema, row: Row) returns (fault: Option<Error>)
    ensures fault == RowFault(s, row)
    ensures fault.None? <==> RowOk(s, row)
  {
    hide CellFault, CellOk, RowOk;
    RowFaultIff(s, row);
    for i := 0 to |s.columns|
      invariant FirstFault(s.columns, row) == FirstFault(s.columns[i..], row)
    {
      var c := s.columns[i];
      assert s.columns[i..][0] == c && s.columns[i..][1..] == s.columns[i + 1..];
      var f := CellFault(c, Cell(row, c.name));
      if f.Some? {
        return f;
      }
    }
    if !KeyPresent(Cell(row, s.primaryKey)) {
      return Some(KeyRequired);
    }
    return None;
  }

  /** The cells of a patch, each acceptable to its column. */
  predicate PatchOk(s: Schema, patch: Row) {
    (forall i :: 0 <= i < |s.columns| && s.columns[i].name in patch ==> CellOk(s.columns[i], patch[s.columns[i].name]))
    && (s.primaryKey in patch ==> KeyPresent(patch[s.primaryKey]))
  }

  /** Validity is per column: merging into a valid row is valid exactly when the patch is. */
  lemma MergeIff(s: Schema, row: Row, patch: Row)
    requires RowOk(s, row)
    ensures RowOk(s, row + patch) <==> PatchOk(s, patch)
  {
    hide CellOk, KeyPresent;
    if RowOk(s, row + patch) {
      forall i | 0 <= i < |s.columns| && s.columns[i].name in patch
        ensures CellOk(s.columns[i], patch[s.columns[i].name])
      {
        assert Cell(row + patch, s.columns[i].name) == patch[s.columns[i].name];
      }
    }
    if PatchOk(s, patch) {
      forall i | 0 <= i < |s.columns|
        ensures CellOk(s.columns[i], Cell(row + patch, s.columns[i].name))
      {
        var name := s.columns[i].name;
        assert Cell(row + patch, name) == if name in patch then patch[name] else Cell(row, name);
      }
    }
  }

  // ----- tables

  /** Rows in insertion order, as a Map iterates them. */
  datatype Table = Table(schema: Schema, keys: seq<Str>, rows: map<Str, Row>)

  ghost predicate Distinct<T>(s: seq<T>) {
    forall i, j :: 0 <= i < j < |s| ==> s[i] != s[j]
  }

  lemma HeadNotInTail(s: seq<Str>)
    requires s != [] && Distinct(s)
    ensures s[0] !in s[1..] && Distinct(s[1..])
  {
    forall j | 0 <= j < |s[1..]|
      ensures s[1..][j] != s[0]
    {
      assert s[1..][j] == s[j + 1];
    }
  }

  /** Valid rows only, each stored under the text of its own primary key. */
  ghost predicate TableOk(h: Host, t: Table) {
    && SchemaOk(t.schema)
    && Distinct(t.keys)
    && (forall k :: k in t.keys <==> k in t.rows)
    && (forall k :: k in t.rows ==> RowOk(t.schema, t.rows[k]) && KeyOf(h, t, t.rows[k]) == Some(k))
  }

  function KeyOf(h: Host, t: Table, row: Row): Option<Str> {
    EncodePk(h, Cell(row, t.schema.primaryKey))
  }

  datatype Step<+T> = Step(table: Table, result: Outcome<T>)

  function Insert(h: Host, t: Table, row: Row): Step<Row> {
    var fault := RowFault(t.schema, row);
    if fault.Some? then Step(t, Fail(fault.value))
    else
      match KeyOf(h, t, row)
      case None => Step(t, Fail(KeyType))
      case Some(pk) =>
        if pk in t.rows then Step(t, Fail(DuplicateKey(pk)))
        else Step(t.(keys := t.keys + [pk], rows := t.rows[pk := row]), Ok(row))
  }

  function FindByPk(h: Host, t: Table, pkValue: Value): Outcome<Option<Row>> {
    match EncodePk(h, pkValue)
    case None => Fail(KeyType)
    case Some(pk) => Ok(if pk in t.rows then Some(t.rows[pk]) else None)
  }

  /** A patch that names a primary key other than the row's own. */
  function RekeyFault(h: Host, s: Schema, pk: Str, patch: Row): Option<Error> {
    var v := Cell(patch, s.primaryKey);
    if v.Undefined? then None
    else if EncodePk(h, v).None? then Some(KeyType)
    else if EncodePk(h, v) != Some(pk) then Some(KeyImmutable)
    else None
  }

  /** An absent row is `Ok(None)`: nothing is written. */
  function Update(h: Host, t: Table, pkValue: Value, patch: Row): Step<Option<Row>> {
    match EncodePk(h, pkValue)
    case None => Step(t, Fail(KeyType))
    case Some(pk) =>
      if pk !in t.rows then Step(t, Ok(None))
      else if RekeyFault(h, t.schema, pk, patch).Some? then Step(t, Fail(RekeyFault(h, t.schema, pk, patch).value))
      else
        var next := t.rows[pk] + patch;
        var fault := RowFault(t.schema, next);
        if fault.Some? then Step(t, Fail(fault.value))
        else Step(t.(rows := t.rows[pk := next]), Ok(Some(next)))
  }

  function Without(keys: seq<Str>, k: Str): seq<Str> {
    if keys == [] then []
    else (if keys[0] == k then [] else [keys[0]]) + Without(keys[1..], k)
  }

  function Delete(h: Host, t: Table, pkValue: Value): Step<bool> {
    match EncodePk(h, pkValue)
    case None => Step(t, Fail(KeyType))
    case Some(pk) =>
      if pk !in t.rows then Step(t, Ok(false))
      else Step(t.(keys := Without(t.keys, pk), rows := t.rows - {pk}), Ok(true))
  }

  /** The keys whose rows match (or do not), in order. */
  function Select(h: Host, rows: map<Str, Row>, keys: seq<Str>, where: Option<Where>, want: bool): seq<Str>
    requires forall i :: 0 <= i < |keys| ==> keys[i] in rows
  {
    if keys == [] then []
    else
      var head := if MatchesWhere(h, rows[keys[0]], where) == want then [keys[0]] else [];
      head + Select(h, rows, keys[1..], where, want)
  }

  function RowsAt(rows: map<Str, Row>, keys: seq<Str>): (rs: seq<Row>)
    requires forall i :: 0 <= i < |keys| ==> keys[i] in rows
    ensures |rs| == |keys| && forall i :: 0 <= i < |keys| ==> rs[i] == rows[keys[i]]
  {
    seq(|keys|, i requires 0 <= i < |keys| => rows[keys[i]])
  }

  lemma {:induction false} SelectIs(h: Host, rows: map<Str, Row>, keys: seq<Str>, where: Option<Where>, want: bool)
    requires forall i :: 0 <= i < |keys| ==> keys[i] in rows
    requires Distinct(keys)
    ensures Distinct(Select(h, rows, keys, where, want))
    ensures forall k :: k in Select(h, rows, keys, where, want) <==>
        k in keys && MatchesWhere(h, rows[k], where) == want
  {
    hide MatchesWhere;
    if keys != [] {
      SelectIs(h, rows, keys[1..], where, want);
      assert keys == [keys[0]] + keys[1..];
      var rest := Select(h, rows, keys[1..], where, want);
      HeadNotInTail(keys);
    }
  }

  /** Keys and rows of a table scan. */
  function Matching(h: Host, t: Table, where: Option<Where>): seq<Str>
    requires forall i :: 0 <= i < |t.keys| ==> t.keys[i] in t.rows
  {
    Select(h, t.rows, t.keys, where, true)
  }

  lemma {:induction false} SelectWithin(h: Host, rows: map<Str, Row>, keys: seq<Str>, where: Option<Where>, want: bool)
    requires forall i :: 0 <= i < |keys| ==> keys[i] in rows
    ensures forall i :: 0 <= i < |Select(h, rows, keys, where, want)| ==> Select(h, rows, keys, where, want)[i] in rows
  {
    hide MatchesWhere;
    if keys != [] { SelectWithin(h, rows, keys[1..], where, want); }
  }

  /** The selection keeps the order of the keys. */
  lemma {:induction false} SelectIsSubsequence(h: Host, rows: map<Str, Row>, keys: seq<Str>, where: Option<Where>,
                                               want: bool) returns (at: seq<nat>)
    requires forall i :: 0 <= i < |keys| ==> keys[i] in rows
    ensures |at| == |Select(h, rows, keys, where, want)|
    ensures forall i :: 0 <= i < |at| ==> at[i] < |keys| && keys[at[i]] == Select(h, rows, keys, where, want)[i]
    ensures forall i, j :: 0 <= i < j < |at| ==> at[i] < at[j]
  {
    hide MatchesWhere;
    at := [];
    if keys != [] {
      var rest := SelectIsSubsequence(h, rows, keys[1..], where, want);
      var shifted := seq(|rest|, i requires 0 <= i < |rest| => rest[i] + 1);
      at := if MatchesWhere(h, rows[keys[0]], where) == want then [0] + shifted else shifted;
    }
  }

  /** Removal keeps the order of the other keys. */
  lemma {:induction false} WithoutAppend(a: seq<Str>, b: seq<Str>, k: Str)
    ensures Without(a + b, k) == Without(a, k) + Without(b, k)
    ensures k !in a ==> Without(a, k) == a
  {
    if a == [] {
      assert a + b == b;
    } else {
      WithoutAppend(a[1..], b, k);
      assert (a + b)[1..] == a[1..] + b && a == [a[0]] + a[1..];
    }
  }

  lemma {:induction false} WithoutIs(keys: seq<Str>, k: Str)
    requires Distinct(keys)
    ensures Distinct(Without(keys, k))
    ensures forall x :: x in Without(keys, k) <==> x in keys && x != k
  {
    if keys != [] {
      WithoutIs(keys[1..], k);
      assert keys == [keys[0]] + keys[1..];
      HeadNotInTail(keys);
    }
  }

  // ----- every operation keeps the table valid

  lemma InsertKeeps(h: Host, t: Table, row: Row)
    requires TableOk(h, t)
    ensures TableOk(h, Insert(h, t, row).table)
    ensures Insert(h, t, row).result.Fail? ==> Insert(h, t, row).table == t
  {
    hide RowOk, RowFault, EncodePk, SchemaOk;
    RowFaultIff(t.schema, row);
  }

  lemma UpdateKeeps(h: Host, t: Table, pkValue: Value, patch: Row)
    requires TableOk(h, t)
    ensures TableOk(h, Update(h, t, pkValue, patch).table)
    ensures Update(h, t, pkValue, patch).table.keys == t.keys
    ensures Update(h, t, pkValue, patch).result.Fail? ==> Update(h, t, pkValue, patch).table == t
  {
    hide RowOk, RowFault, SchemaOk, RekeyFault, EncodePk;
    var pk := EncodePk(h, pkValue);
    if pk.Some? && pk.value in t.rows && RekeyFault(h, t.schema, pk.value, patch).None? {
      var next := t.rows[pk.value] + patch;
      if RowFault(t.schema, next).None? {
        PatchedRow(h, t, pk.value, patch);
        ReplaceKeeps(h, t, pk.value, next);
      }
    }
  }

  /** An accepted patch leaves the row under its own key. */
  lemma PatchedRow(h: Host, t: Table, pk: Str, patch: Row)
    requires pk in t.rows && KeyOf(h, t, t.rows[pk]) == Some(pk)
    requires RekeyFault(h, t.schema, pk, patch).None? && RowFault(t.schema, t.rows[pk] + patch).None?
    ensures RowOk(t.schema, t.rows[pk] + patch) && KeyOf(h, t, t.rows[pk] + patch) == Some(pk)
  {
    hide RowFault;
    var next := t.rows[pk] + patch;
    RowFaultIff(t.schema, next);
    assert KeyPresent(Cell(next, t.schema.primaryKey));
    var name := t.schema.primaryKey;
    assert Cell(next, name) == if name in patch then patch[name] else Cell(t.rows[pk], name);
  }

  lemma ReplaceKeeps(h: Host, t: Table, pk: Str, next: Row)
    requires TableOk(h, t) && pk in t.rows && RowOk(t.schema, next) && KeyOf(h, t, next) == Some(pk)
    ensures TableOk(h, t.(rows := t.rows[pk := next]))
  {
    hide RowOk, SchemaOk, EncodePk;
  }

  lemma DeleteKeeps(h: Host, t: Table, pkValue: Value)
    requires TableOk(h, t)
    ensures TableOk(h, Delete(h, t, pkValue).table)
    ensures Delete(h, t, pkValue).result.Fail? ==> Delete(h, t, pkValue).table == t
  {
    hide RowOk, EncodePk, SchemaOk;
    var pk := EncodePk(h, pkValue);
    if pk.Some? { WithoutIs(t.keys, pk.value); }
  }

  // ----- what each operation does, as its readers see it

  /** Every row in scan order. */
  function AllRows(t: Table): seq<Row>
    requires forall i :: 0 <= i < |t.keys| ==> t.keys[i] in t.rows
  {
    RowsAt(t.rows, t.keys)
  }

  /**
   Insert succeeds exactly for a valid row whose key is not taken; the row then
   comes last in a scan, is found under every value that renders to its key, and
   no other lookup changes.
   */
  lemma InsertSeen(h: Host, t: Table, row: Row)
    requires TableOk(h, t)
    ensures Insert(h, t, row).result.Ok? <==>
              RowOk(t.schema, row) && KeyOf(h, t, row).Some? && KeyOf(h, t, row).value !in t.rows
    ensures RowOk(t.schema, row) && KeyOf(h, t, row).Some? && KeyOf(h, t, row).value in t.rows ==>
              Insert(h, t, row) == Step(t, Fail(DuplicateKey(KeyOf(h, t, row).value)))
    ensures Insert(h, t, row).result.Ok? ==> AllRows(Insert(h, t, row).table) == AllRows(t) + [row]
    ensures Insert(h, t, row).result.Ok? ==>
              forall v :: FindByPk(h, Insert(h, t, row).table, v)
                == if EncodePk(h, v) == KeyOf(h, t, row) then Ok(Some(row)) else FindByPk(h, t, v)
  {
    hide RowOk, RowFault, EncodePk, SchemaOk;
    RowFaultIff(t.schema, row);
    InsertKeeps(h, t, row);
  }

  /** A patch keeps the key when it leaves it out, or names a value stored under the same text. */
  lemma RekeyFaultIs(h: Host, s: Schema, k: Str, patch: Row)
    ensures RekeyFault(h, s, k, patch) ==
      if s.primaryKey !in patch || patch[s.primaryKey].Undefined? then None
      else if patch[s.primaryKey].Null? then Some(KeyType)
      else if EncodePk(h, patch[s.primaryKey]) == Some(k) then None
      else Some(KeyImmutable)
  {
  }

  /**
   Update of a present key succeeds exactly when the patch keeps the key and is
   valid; the merged row takes the old one's place in a scan, and no other lookup
   changes. An absent key is not an error and changes nothing.
   */
  lemma UpdateSeen(h: Host, t: Table, pkValue: Value, patch: Row, k: Str)
    requires TableOk(h, t) && EncodePk(h, pkValue) == Some(k)
    ensures k !in t.rows ==> Update(h, t, pkValue, patch) == Step(t, Ok(None))
    ensures k in t.rows ==> (Update(h, t, pkValue, patch).result.Ok? <==>
        RekeyFault(h, t.schema, k, patch).None? && PatchOk(t.schema, patch))
    ensures k in t.rows && Update(h, t, pkValue, patch).result.Ok? ==>
              exists i :: 0 <= i < |t.keys| && t.keys[i] == k
                && AllRows(Update(h, t, pkValue, patch).table) == AllRows(t)[i := t.rows[k] + patch]
    ensures k in t.rows && Update(h, t, pkValue, patch).result.Ok? ==>
              forall v :: FindByPk(h, Update(h, t, pkValue, patch).table, v)
                == if EncodePk(h, v) == Some(k) then Ok(Some(t.rows[k] + patch)) else FindByPk(h, t, v)
  {
    hide RowOk, RowFault, EncodePk, SchemaOk, PatchOk, RekeyFault;
    if k in t.rows {
      MergeIff(t.schema, t.rows[k], patch);
      RowFaultIff(t.schema, t.rows[k] + patch);
      var i :| 0 <= i < |t.keys| && t.keys[i] == k;
      if Update(h, t, pkValue, patch).result.Ok? {
        assert AllRows(Update(h, t, pkValue, patch).table) == AllRows(t)[i := t.rows[k] + patch];
      }
    }
  }

  lemma DeleteFinds(h: Host, t: Table, pkValue: Value, k: Str, v: Value)
    requires EncodePk(h, pkValue) == Some(k) && k in t.rows
    ensures FindByPk(h, Delete(h, t, pkValue).table, v)
      == if EncodePk(h, v) == Some(k) then Ok(None) else FindByPk(h, t, v)
  {
    hide EncodePk, Without;
  }

  /** Delete of a present key closes the gap it leaves in a scan, makes the key absent, and no other lookup changes. */
  lemma DeleteSeen(h: Host, t: Table, pkValue: Value, k: Str)
    requires TableOk(h, t) && EncodePk(h, pkValue) == Some(k)
    ensures k !in t.rows ==> Delete(h, t, pkValue) == Step(t, Ok(false))
    ensures k in t.rows ==> Delete(h, t, pkValue).result == Ok(true) && TableOk(h, Delete(h, t, pkValue).table)
    ensures k in t.rows ==>
              exists i :: 0 <= i < |t.keys| && t.keys[i] == k
                && AllRows(Delete(h, t, pkValue).table) == AllRows(t)[..i] + AllRows(t)[i + 1..]
    ensures k in t.rows ==>
              forall v :: FindByPk(h, Delete(h, t, pkValue).table, v)
                == if EncodePk(h, v) == Some(k) then Ok(None) else FindByPk(h, t, v)
  {
    hide RowOk, EncodePk, SchemaOk, Without, FindByPk;
    DeleteKeeps(h, t, pkValue);
    if k in t.rows {
      var i :| 0 <= i < |t.keys| && t.keys[i] == k;
      KeysAfterDelete(t.keys, i);
      var t' := Delete(h, t, pkValue).table;
      RowsAfterDelete(t, t', i);
      forall v
        ensures FindByPk(h, t', v) == if EncodePk(h, v) == Some(k) then Ok(None) else FindByPk(h, t, v)
      {
        DeleteFinds(h, t, pkValue, k, v);
      }
    }
  }

  lemma RowsAfterDelete(t: Table, t': Table, i: nat)
    requires i < |t.keys| && forall j :: 0 <= j < |t.keys| ==> t.keys[j] in t.rows
    requires t'.keys == t.keys[..i] + t.keys[i + 1..] && t'.rows == t.rows - {t.keys[i]}
    requires forall j :: 0 <= j < |t'.keys| ==> t'.keys[j] in t'.rows
    ensures AllRows(t') == AllRows(t)[..i] + AllRows(t)[i + 1..]
  {
  }

  lemma KeysAfterDelete(keys: seq<Str>, i: nat)
    requires i < |keys| && Distinct(keys)
    ensures Without(keys, keys[i]) == keys[..i] + keys[i + 1..]
  {
    hide Without;
    var k, a, b := keys[i], keys[..i], keys[i + 1..];
    var one: seq<Str> := [k];
    NowhereElse(keys, i);
    WithoutAppend(a, one + b, k);
    WithoutAppend(one, b, k);
    WithoutAppend(b, [], k);
    WithoutItself(k);
    assert keys == a + (one + b);
    assert a + ([] + b) == a + b;
  }

  lemma WithoutItself(k: Str)
    ensures Without([k], k) == []
  {
    var one: seq<Str> := [k];
    assert one[1..] == [];
  }

  lemma NowhereElse(keys: seq<Str>, i: nat)
    requires i < |keys| && Distinct(keys)
    ensures keys[i] !in keys[..i] && keys[i] !in keys[i + 1..]
  {
    var b := keys[i + 1..];
    forall j | 0 <= j < |b|
      ensures b[j] != keys[i]
    {
      assert b[j] == keys[i + 1 + j];
    }
  }
}
