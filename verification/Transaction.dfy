/**
 Batches of writes. The pre-pass checks tables and insert keys only; the apply loop
 runs the operations in order and undoes nothing. What a commit guarantees, and
 what it leaves behind when it fails, exactly.
 */
module Transaction {
  import opened JsText
  import opened Options
  import opened Values
  import opened TableModel
  import Schemas = RelationalSchema
  import Tables = RelationalTable

  datatype TxOp =
    | InsertOp(table: Str, row: Row)
    | UpdateOp(table: Str, pk: Value, patch: Row)
    | DeleteOp(table: Str, pk: Value)

  type Db = map<Str, Table>

  datatype DbStep = DbStep(db: Db, fault: Option<Error>)

  function FaultOf<T>(r: Outcome<T>): Option<Error> {
    match r
    case Ok(_) => None
    case Fail(e) => Some(e)
  }

  // ----- one operation, a batch, a commit

  function ApplyOp(h: Host, db: Db, op: TxOp): DbStep {
    if op.table !in db then DbStep(db, Some(NoSuchTable(op.table)))
    else
      var t := db[op.table];
      match op
      case InsertOp(_, row) =>
        var s := Insert(h, t, row);
        DbStep(db[op.table := s.table], FaultOf(s.result))
      case UpdateOp(_, pk, patch) =>
        var s := Update(h, t, pk, patch);
        DbStep(db[op.table := s.table], FaultOf(s.result))
      case DeleteOp(_, pk) =>
        var s := Delete(h, t, pk);
        DbStep(db[op.table := s.table], FaultOf(s.result))
  }

  /** In order, up to the first operation that throws. */
  function ApplyAll(h: Host, db: Db, ops: seq<TxOp>): DbStep
    decreases |ops|
  {
    if ops == [] then DbStep(db, None)
    else
      var s := ApplyOp(h, db, ops[0]);
      if s.fault.Some? then s else ApplyAll(h, s.db, ops[1..])
  }

  /** The key the pre-pass compares: `String` of the primary-key cell. */
  function InsertKey(h: Host, t: Table, row: Row): Str {
    StringOf(h, Cell(row, t.schema.primaryKey))
  }

  function SeenIn(seen: map<Str, set<Str>>, table: Str): set<Str> {
    if table in seen then seen[table] else {}
  }

  function PrePass(h: Host, db: Db, ops: seq<TxOp>, seen: map<Str, set<Str>>): Option<Error>
    decreases |ops|
  {
    if ops == [] then None
    else if ops[0].table !in db then Some(NoSuchTable(ops[0].table))
    else if ops[0].InsertOp? then
      var name := ops[0].table;
      var pk := InsertKey(h, db[name], ops[0].row);
      if pk in SeenIn(seen, name) || pk in db[name].rows then Some(DuplicateKey(pk))
      else PrePass(h, db, ops[1..], seen[name := SeenIn(seen, name) + {pk}])
    else PrePass(h, db, ops[1..], seen)
  }

  lemma PrePassStep(h: Host, db: Db, ops: seq<TxOp>, i: nat, seen: map<Str, set<Str>>)
    requires i < |ops|
    ensures ops[i].table !in db ==> PrePass(h, db, ops[i..], seen) == Some(NoSuchTable(ops[i].table))
    ensures ops[i].table in db && !ops[i].InsertOp? ==>
              PrePass(h, db, ops[i..], seen) == PrePass(h, db, ops[i + 1..], seen)
    ensures ops[i].table in db && ops[i].InsertOp? ==>
              var pk := InsertKey(h, db[ops[i].table], ops[i].row);
              var s := SeenIn(seen, ops[i].table);
              PrePass(h, db, ops[i..], seen) ==
                if pk in s || pk in db[ops[i].table].rows then Some(DuplicateKey(pk))
                else PrePass(h, db, ops[i + 1..], seen[ops[i].table := s + {pk}])
  {
    assert ops[i..][0] == ops[i] && ops[i..][1..] == ops[i + 1..];
  }

  lemma PrePassDone(h: Host, db: Db, ops: seq<TxOp>, seen: map<Str, set<Str>>)
    ensures PrePass(h, db, ops[|ops|..], seen) == None && ops[0..] == ops
  {
  }

  datatype Committed = Committed(db: Db, ops: seq<TxOp>, fault: Option<Error>)

  function Commit(h: Host, db: Db, ops: seq<TxOp>): Committed {
    var refused := PrePass(h, db, ops, map[]);
    if refused.Some? then Committed(db, ops, refused)
    else
      var s := ApplyAll(h, db, ops);
      Committed(s.db, if s.fault.Some? then ops else [], s.fault)
  }

  // ----- the database and the transaction object

  class RelationalDatabase {
    const host: Host
    var tables: map<Str, Tables.RelationalTable>

    ghost function Repr(): set<object>
      reads this
    {
      set n | n in tables :: tables[n]
    }

    ghost predicate Valid()
      reads this, Repr()
    {
      && (forall n :: n in tables ==> tables[n].Valid() && tables[n].host == host)
      && (forall n, m :: n in tables && m in tables && n != m ==> tables[n] != tables[m])
    }

    ghost function State(): Db
      reads this, Repr()
    {
      map n | n in tables :: tables[n].State()
    }

    constructor (h: Host)
      ensures Valid() && host == h && State() == map[]
    {
      host, tables := h, map[];
    }

    method AddTable(name: Str, schema: Schema)
      requires Valid() && SchemaOk(schema) && name !in tables
      modifies this
      ensures Valid()
      ensures State() == old(State())[name := Table(schema, [], map[])]
    {
      hide Tables.RelationalTable.Valid, Tables.RelationalTable.State, SchemaOk;
      var t := new Tables.RelationalTable(host, schema);
      tables := tables[name := t];
    }

    /** False where the source throws: the name is in use, or the definition is not accepted. */
    method CreateTable(name: Str, defs: seq<Column>) returns (created: bool)
      requires Valid()
      modifies this
      ensures Valid()
      ensures created <==> name !in old(State()) && Schemas.Accepts(name, defs)
      ensures !created ==> State() == old(State())
      ensures created ==>
          exists s: Schema :: s.columns == defs && SchemaOk(s) && State() == old(State())[name := Table(s, [], map[])]
    {
      hide Tables.RelationalTable.Valid, Tables.RelationalTable.State, SchemaOk, Schemas.Accepts, Schemas.OffsetOf;
      if name in tables {
        return false;
      }
      var compiled := Schemas.Compile(name, defs);
      if compiled.None? {
        return false;
      }
      AddTable(name, compiled.value.schema);
      return true;
    }

    method ApplyOne(op: TxOp) returns (fault: Option<Error>)
      requires Valid()
      modifies Repr()
      ensures tables == old(tables) && Valid()
      ensures DbStep(State(), fault) == ApplyOp(host, old(State()), op)
    {
      hide Insert, Update, Delete, TableOk, Tables.SecondaryOk, Tables.IndexedColumns;
      if op.table !in tables {
        return Some(NoSuchTable(op.table));
      }
      var t := tables[op.table];
      match op {
        case InsertOp(_, row) =>
          var r := t.InsertRow(row);
          fault := FaultOf(r);
        case UpdateOp(_, pk, patch) =>
          var r := t.UpdateRow(pk, patch);
          fault := FaultOf(r);
        case DeleteOp(_, pk) =>
          var r := t.DeleteRow(pk);
          fault := FaultOf(r);
      }
      assert State() == old(State())[op.table := t.State()];
    }
  }

  class Transaction {
    const db: RelationalDatabase
    var ops: seq<TxOp>

    constructor (database: RelationalDatabase)
      ensures db == database && ops == []
    {
      db, ops := database, [];
    }

    method Buffer(op: TxOp)
      modifies this
      ensures ops == old(ops) + [op]
    {
      ops := ops + [op];
    }

    method Rollback()
      modifies this
      ensures ops == []
    {
      ops := [];
    }

    /** The first loop: insert keys against the tables as they stand and against each other. */
    method CheckBatch() returns (fault: Option<Error>)
      requires db.Valid()
      ensures fault == PrePass(db.host, db.State(), ops, map[])
    {
      hide PrePass, StringOf, SeenIn, TableOk, Tables.SecondaryOk, Tables.IndexedColumns;
      ghost var state := db.State();
      PrePassDone(db.host, state, ops, map[]);
      var seen: map<Str, set<Str>> := map[];
      for i := 0 to |ops|
        invariant db.State() == state
        invariant PrePass(db.host, state, ops, map[]) == PrePass(db.host, state, ops[i..], seen)
      {
        var op := ops[i];
        PrePassStep(db.host, state, ops, i, seen);
        if op.table !in db.tables {
          return Some(NoSuchTable(op.table));
        }
        var t := db.tables[op.table];
        assert state[op.table] == t.State();
        if op.InsertOp? {
          var pk := StringOf(db.host, Cell(op.row, t.schema.primaryKey));
          var s := SeenIn(seen, op.table);
          var found := t.FindRow(Text(pk));
          assert db.State() == state;
          if pk in s || (found.Ok? && found.value.Some?) {
            return Some(DuplicateKey(pk));
          }
          seen := seen[op.table := s + {pk}];
        }
      }
      PrePassDone(db.host, state, ops, seen);
      return None;
    }

    /** The second loop: in order, stopping where an operation throws. */
    method ApplyBatch() returns (fault: Option<Error>)
      requires db.Valid()
      modifies db.Repr()
      ensures db.tables == old(db.tables) && db.Valid() && ops == old(ops)
      ensures DbStep(db.State(), fault) == ApplyAll(db.host, old(db.State()), ops)
    {
      hide ApplyOp, TableOk, Tables.SecondaryOk, Tables.IndexedColumns;
      ghost var start := db.State();
      for i := 0 to |ops|
        invariant db.tables == old(db.tables) && db.Valid() && ops == old(ops)
        invariant ApplyAll(db.host, start, ops) == ApplyAll(db.host, db.State(), ops[i..])
      {
        assert ops[i..][0] == ops[i] && ops[i..][1..] == ops[i + 1..];
        fault := db.ApplyOne(ops[i]);
        if fault.Some? {
          return fault;
        }
      }
      return None;
    }

    method CommitBatch() returns (fault: Option<Error>)
      requires db.Valid()
      modifies this, db.Repr()
      ensures db.tables == old(db.tables) && db.Valid()
      ensures Committed(db.State(), ops, fault) == Commit(db.host, old(db.State()), old(ops))
    {
      hide ApplyAll, PrePass, TableOk, Tables.SecondaryOk, Tables.IndexedColumns;
      fault := CheckBatch();
      if fault.Some? {
        return fault;
      }
      fault := ApplyBatch();
      if fault.Some? {
        return fault;
      }
      ops := [];
    }
  }

  // ----- what the pre-pass decides

  /** Every table exists, and insert keys are absent and distinct per table. */
  ghost predicate Fresh(h: Host, db: Db, ops: seq<TxOp>) {
    && (forall i :: 0 <= i < |ops| ==> ops[i].table in db)
    && (forall i :: 0 <= i < |ops| && ops[i].InsertOp? ==>
        InsertKey(h, db[ops[i].table], ops[i].row) !in db[ops[i].table].rows)
    && KeysDistinct(h, db, ops)
  }

  /** No two inserts into one table share a key. */
  ghost predicate KeysDistinct(h: Host, db: Db, ops: seq<TxOp>) {
    forall i, j :: 0 <= i < j < |ops| && ops[i].InsertOp? && ops[j].InsertOp? && ops[i].table == ops[j].table ==>
      ops[i].table in db && InsertKey(h, db[ops[i].table], ops[i].row) != InsertKey(h, db[ops[j].table], ops[j].row)
  }

  ghost predicate Unseen(h: Host, db: Db, ops: seq<TxOp>, seen: map<Str, set<Str>>) {
    forall i :: 0 <= i < |ops| && ops[i].InsertOp? && ops[i].table in db ==>
        InsertKey(h, db[ops[i].table], ops[i].row) !in SeenIn(seen, ops[i].table)
  }

  lemma {:induction false} PrePassSeenIff(h: Host, db: Db, ops: seq<TxOp>, seen: map<Str, set<Str>>)
    ensures PrePass(h, db, ops, seen).None? <==> Fresh(h, db, ops) && Unseen(h, db, ops, seen)
    decreases |ops|
  {
    hide InsertKey;
    if ops != [] && ops[0].table in db {
      var op, rest := ops[0], ops[1..];
      var name := op.table;
      assert ops == [op] + rest;
      assert forall i :: 0 <= i < |rest| ==> rest[i] == ops[i + 1];
      if op.InsertOp? {
        var pk := InsertKey(h, db[name], op.row);
        var seen' := seen[name := SeenIn(seen, name) + {pk}];
        PrePassSeenIff(h, db, rest, seen');
        FreshStep(h, db, ops, seen);
      } else {
        PrePassSeenIff(h, db, rest, seen);
        FreshStep(h, db, ops, seen);
      }
    }
  }

  lemma FreshStep(h: Host, db: Db, ops: seq<TxOp>, seen: map<Str, set<Str>>)
    requires ops != [] && ops[0].table in db
    ensures var op := ops[0]; var pk := if op.InsertOp? then InsertKey(h, db[op.table], op.row) else [];
      Fresh(h, db, ops) && Unseen(h, db, ops, seen) <==>
        (if op.InsertOp? then
           pk !in SeenIn(seen, op.table) && pk !in db[op.table].rows
           && Fresh(h, db, ops[1..]) && Unseen(h, db, ops[1..], seen[op.table := SeenIn(seen, op.table) + {pk}])
         else
           Fresh(h, db, ops[1..]) && Unseen(h, db, ops[1..], seen))
  {
    hide InsertKey;
    var op, rest := ops[0], ops[1..];
    assert forall i :: 0 <= i < |rest| ==> rest[i] == ops[i + 1];
    assert forall i :: 0 < i < |ops| ==> ops[i] == rest[i - 1];
    var pk := if op.InsertOp? then InsertKey(h, db[op.table], op.row) else [];
    var seen' := seen[op.table := SeenIn(seen, op.table) + {pk}];
    if op.InsertOp? && Fresh(h, db, ops) && Unseen(h, db, ops, seen) {
      assert Fresh(h, db, rest);
      assert Unseen(h, db, rest, seen');
    }
    if op.InsertOp? && pk !in SeenIn(seen, op.table) && pk !in db[op.table].rows && Fresh(h, db, rest)
        && Unseen(h, db, rest, seen') {
      forall i | 0 <= i < |ops| && ops[i].InsertOp? && ops[i].table in db
        ensures InsertKey(h, db[ops[i].table], ops[i].row) !in SeenIn(seen, ops[i].table)
      {
        if i > 0 { assert InsertKey(h, db[rest[i - 1].table], rest[i - 1].row) !in SeenIn(seen', rest[i - 1].table); }
      }
      forall i, j | 0 <= i < j < |ops| && ops[i].InsertOp? && ops[j].InsertOp? && ops[i].table == ops[j].table
        ensures InsertKey(h, db[ops[i].table], ops[i].row) != InsertKey(h, db[ops[j].table], ops[j].row)
      {
        assert InsertKey(h, db[rest[j - 1].table], rest[j - 1].row) !in SeenIn(seen', rest[j - 1].table);
        if i > 0 { assert rest[i - 1] == ops[i]; }
      }
    }
  }

  /**
   A commit passes its pre-pass exactly when every table exists and the insert keys
   are distinct per table and absent at the start.
   */
  lemma PrePassIff(h: Host, db: Db, ops: seq<TxOp>)
    ensures PrePass(h, db, ops, map[]).None? <==> Fresh(h, db, ops)
  {
    PrePassSeenIff(h, db, ops, map[]);
  }

  // ----- the apply loop

  ghost predicate DbOk(h: Host, db: Db) {
    forall n :: n in db ==> TableOk(h, db[n])
  }

  predicate TextKeyed(s: Schema) {
    forall i :: 0 <= i < |s.columns| && s.columns[i].primaryKey ==> s.columns[i].typ != Catalog.Blob
  }

  /** No table is keyed by a byte-array column, whose two renderings differ. */
  ghost predicate NoBytesKeys(db: Db) {
    forall n :: n in db ==> TextKeyed(db[n].schema)
  }

  /** For a valid row of such a table the pre-pass and the table compute the same key. */
  lemma SameKey(h: Host, t: Table, row: Row)
    requires SchemaOk(t.schema) && TextKeyed(t.schema) && RowOk(t.schema, row)
    ensures KeyOf(h, t, row) == Some(InsertKey(h, t, row))
  {
    var i :| 0 <= i < |t.schema.columns| && t.schema.columns[i].name == t.schema.primaryKey;
    assert CellOk(t.schema.columns[i], Cell(row, t.schema.primaryKey));
  }

  lemma ApplyOpKeeps(h: Host, db: Db, op: TxOp)
    requires DbOk(h, db)
    ensures DbOk(h, ApplyOp(h, db, op).db)
    ensures ApplyOp(h, db, op).fault.Some? ==> ApplyOp(h, db, op).db == db
    ensures forall n :: n in ApplyOp(h, db, op).db <==> n in db
    ensures forall n :: n in db ==> ApplyOp(h, db, op).db[n].schema == db[n].schema
    ensures forall n :: n in db && (n != op.table || !op.InsertOp?) ==>
        ApplyOp(h, db, op).db[n].rows.Keys <= db[n].rows.Keys
    ensures op.InsertOp? && op.table in db ==>
              ApplyOp(h, db, op).db[op.table].rows.Keys <= db[op.table].rows.Keys
                + (match KeyOf(h, db[op.table], op.row) case Some(k) => {k} case None => {})
  {
    hide TableOk, RowFault, EncodePk, RekeyFault;
    if op.table in db {
      var t := db[op.table];
      match op
      case InsertOp(_, row) => InsertKeeps(h, t, row);
      case UpdateOp(_, pk, patch) => UpdateKeeps(h, t, pk, patch);
      case DeleteOp(_, pk) => DeleteKeeps(h, t, pk);
    }
  }

  /** One operation of a fresh batch: no duplicate key, and the rest of the batch stays fresh. */
  lemma FreshAfterOne(h: Host, db: Db, ops: seq<TxOp>)
    requires DbOk(h, db) && NoBytesKeys(db) && ops != [] && Fresh(h, db, ops)
    ensures ApplyOp(h, db, ops[0]).fault.Some? ==> !ApplyOp(h, db, ops[0]).fault.value.DuplicateKey?
    ensures ApplyOp(h, db, ops[0]).fault.None? ==>
              Fresh(h, ApplyOp(h, db, ops[0]).db, ops[1..]) && NoBytesKeys(ApplyOp(h, db, ops[0]).db)
  {
    hide TextKeyed, EncodePk, KeysDistinct, InsertKey, ApplyOp;
    var op, rest := ops[0], ops[1..];
    ApplyOpKeeps(h, db, op);
    NotDuplicate(h, db, op);
    var db' := ApplyOp(h, db, op).db;
    if ApplyOp(h, db, op).fault.None? {
      forall i | 0 <= i < |rest|
        ensures rest[i].table in db'
        ensures rest[i].InsertOp? ==> InsertKey(h, db'[rest[i].table], rest[i].row) !in db'[rest[i].table].rows
      {
        StillAbsent(h, db, ops, i + 1);
      }
      RestDistinct(h, db, db', ops);
    }
  }

  lemma NotDuplicate(h: Host, db: Db, op: TxOp)
    requires DbOk(h, db) && NoBytesKeys(db) && op.table in db
    requires op.InsertOp? ==> InsertKey(h, db[op.table], op.row) !in db[op.table].rows
    ensures ApplyOp(h, db, op).fault.Some? ==> !ApplyOp(h, db, op).fault.value.DuplicateKey?
    ensures op.InsertOp? && ApplyOp(h, db, op).fault.None? ==>
              KeyOf(h, db[op.table], op.row) == Some(InsertKey(h, db[op.table], op.row))
  {
    hide RowOk, SchemaOk, TextKeyed, EncodePk, StringOf;
    var t := db[op.table];
    match op
    case InsertOp(_, row) =>
      RowFaultIff(t.schema, row);
      FaultKinds(t.schema, row);
      if RowOk(t.schema, row) { SameKey(h, t, row); }
    case UpdateOp(_, pk, patch) =>
      if EncodePk(h, pk).Some? && EncodePk(h, pk).value in t.rows {
        FaultKinds(t.schema, t.rows[EncodePk(h, pk).value] + patch);
      }
    case DeleteOp(_, pk) =>
  }

  lemma {:induction false} FirstFaultKinds(cs: seq<Column>, row: Row)
    ensures FirstFault(cs, row).Some? ==> !FirstFault(cs, row).value.DuplicateKey?
  {
    if cs != [] { FirstFaultKinds(cs[1..], row); }
  }

  lemma FaultKinds(s: Schema, row: Row)
    ensures RowFault(s, row).Some? ==> !RowFault(s, row).value.DuplicateKey?
  {
    FirstFaultKinds(s.columns, row);
  }

  lemma StillAbsent(h: Host, db: Db, ops: seq<TxOp>, i: nat)
    requires DbOk(h, db) && NoBytesKeys(db) && Fresh(h, db, ops) && 0 < i < |ops| && ApplyOp(h, db, ops[0]).fault.None?
    ensures var db' := ApplyOp(h, db, ops[0]).db;
      ops[i].table in db'
          && (ops[i].InsertOp? ==> InsertKey(h, db'[ops[i].table], ops[i].row) !in db'[ops[i].table].rows)
  {
    hide TextKeyed, EncodePk, ApplyOp, StringOf, DbOk;
    ApplyOpKeeps(h, db, ops[0]);
    NotDuplicate(h, db, ops[0]);
    var db' := ApplyOp(h, db, ops[0]).db;
    if ops[i].InsertOp? {
      var name := ops[i].table;
      var key := InsertKey(h, db[name], ops[i].row);
      assert InsertKey(h, db'[name], ops[i].row) == key;
      assert key !in db[name].rows.Keys;
      if ops[0].InsertOp? && ops[0].table == name {
        assert InsertKey(h, db[name], ops[0].row) != key;
      }
      assert key !in db'[name].rows.Keys;
    }
  }

  lemma RestDistinct(h: Host, db: Db, db': Db, ops: seq<TxOp>)
    requires ops != [] && Fresh(h, db, ops)
    requires forall n :: n in db ==> n in db' && db'[n].schema == db[n].schema
    ensures KeysDistinct(h, db', ops[1..])
  {
    var rest := ops[1..];
    forall i, j | 0 <= i < j < |rest| && rest[i].InsertOp? && rest[j].InsertOp? && rest[i].table == rest[j].table
      ensures rest[i].table in db'
      ensures InsertKey(h, db'[rest[i].table], rest[i].row) != InsertKey(h, db'[rest[j].table], rest[j].row)
    {
      assert rest[i] == ops[i + 1] && rest[j] == ops[j + 1];
      assert InsertKey(h, db[ops[i + 1].table], ops[i + 1].row) != InsertKey(h, db[ops[j + 1].table], ops[j + 1].row);
    }
  }

  /** After the pre-pass no insert of the apply loop can meet a duplicate key, whatever the other operations do. */
  lemma {:induction false} ApplyNeverDuplicates(h: Host, db: Db, ops: seq<TxOp>)
    requires DbOk(h, db) && NoBytesKeys(db) && Fresh(h, db, ops)
    ensures ApplyAll(h, db, ops).fault.Some? ==> !ApplyAll(h, db, ops).fault.value.DuplicateKey?
    decreases |ops|
  {
    hide Fresh, DbOk, NoBytesKeys, ApplyOp;
    if ops != [] {
      FreshAfterOne(h, db, ops);
      ApplyOpKeeps(h, db, ops[0]);
      if ApplyOp(h, db, ops[0]).fault.None? {
        ApplyNeverDuplicates(h, ApplyOp(h, db, ops[0]).db, ops[1..]);
      }
    }
  }

  /** Valid rows, valid patches that keep the key, keys the table can render. */
  ghost predicate OpOk(h: Host, db: Db, op: TxOp) {
    op.table in db && match op
    case InsertOp(name, row) => RowOk(db[name].schema, row)
    case UpdateOp(name, pk, patch) =>
      EncodePk(h, pk).Some? && PatchOk(db[name].schema, patch)
      && (db[name].schema.primaryKey in patch ==> EncodePk(h, patch[db[name].schema.primaryKey]) == EncodePk(h, pk))
    case DeleteOp(name, pk) => EncodePk(h, pk).Some?
  }

  lemma OkOpApplies(h: Host, db: Db, op: TxOp)
    requires DbOk(h, db) && NoBytesKeys(db) && OpOk(h, db, op)
    requires op.InsertOp? ==> InsertKey(h, db[op.table], op.row) !in db[op.table].rows
    ensures ApplyOp(h, db, op).fault.None?
  {
    hide RowOk, RowFault, TextKeyed, EncodePk, StringOf, SchemaOk, PatchOk, InsertKey;
    var t := db[op.table];
    assert TableOk(h, t) && TextKeyed(t.schema);
    match op
    case InsertOp(_, row) =>
      RowFaultIff(t.schema, row);
      SameKey(h, t, row);
    case UpdateOp(_, pk, patch) =>
      var k := EncodePk(h, pk).value;
      if k in t.rows {
        MergeIff(t.schema, t.rows[k], patch);
        RowFaultIff(t.schema, t.rows[k] + patch);
      }
    case DeleteOp(_, pk) =>
  }

  /** Batches of valid operations that pass the pre-pass apply completely. */
  lemma {:induction false} ValidBatchApplies(h: Host, db: Db, ops: seq<TxOp>)
    requires DbOk(h, db) && NoBytesKeys(db) && Fresh(h, db, ops)
    requires forall i :: 0 <= i < |ops| ==> OpOk(h, db, ops[i])
    ensures ApplyAll(h, db, ops).fault.None?
    decreases |ops|
  {
    hide DbOk, NoBytesKeys, ApplyOp;
    if ops != [] {
      OkOpApplies(h, db, ops[0]);
      FreshAfterOne(h, db, ops);
      ApplyOpKeeps(h, db, ops[0]);
      var db' := ApplyOp(h, db, ops[0]).db;
      forall i | 0 <= i < |ops[1..]|
        ensures OpOk(h, db', ops[1..][i])
      {
        assert ops[1..][i] == ops[i + 1];
      }
      ValidBatchApplies(h, db', ops[1..]);
    }
  }

  /** A run of operations that all succeed. */
  ghost predicate Applies(h: Host, db: Db, ops: seq<TxOp>, db': Db) {
    ApplyAll(h, db, ops) == DbStep(db', None)
  }

  /**
   A valid batch commits exactly when its inserts are fresh, to the database its
   operations give in sequence, with the buffer emptied; otherwise nothing changes.
   */
  lemma CommitOfValidBatch(h: Host, db: Db, ops: seq<TxOp>)
    requires DbOk(h, db) && NoBytesKeys(db)
    requires forall i :: 0 <= i < |ops| ==> OpOk(h, db, ops[i])
    ensures var c := Commit(h, db, ops);
      if Fresh(h, db, ops) then c.fault.None? && c.ops == [] && Applies(h, db, ops, c.db)
      else c.fault.Some? && c.db == db && c.ops == ops
  {
    PrePassIff(h, db, ops);
    if Fresh(h, db, ops) { ValidBatchApplies(h, db, ops); }
  }

  /** A batch that stops: a prefix has been applied in full, and the next operation threw. */
  lemma {:induction false} FailureIsPrefix(h: Host, db: Db, ops: seq<TxOp>) returns (i: nat)
    requires DbOk(h, db) && ApplyAll(h, db, ops).fault.Some?
    ensures i < |ops| && Applies(h, db, ops[..i], ApplyAll(h, db, ops).db)
    ensures ApplyOp(h, ApplyAll(h, db, ops).db, ops[i]).fault == ApplyAll(h, db, ops).fault
    decreases |ops|
  {
    hide DbOk, ApplyOp;
    var s := ApplyOp(h, db, ops[0]);
    ApplyOpKeeps(h, db, ops[0]);
    if s.fault.Some? {
      i := 0;
    } else {
      var j := FailureIsPrefix(h, s.db, ops[1..]);
      i := j + 1;
      assert ops[..i][0] == ops[0] && ops[..i][1..] == ops[1..][..j];
    }
  }

  /** What a failed commit leaves: the buffer as it was, and either no change or the effect of a proper prefix. */
  lemma FailedCommit(h: Host, db: Db, ops: seq<TxOp>)
    requires DbOk(h, db) && Commit(h, db, ops).fault.Some?
    ensures Commit(h, db, ops).ops == ops
    ensures !Fresh(h, db, ops) ==> Commit(h, db, ops).db == db
    ensures Fresh(h, db, ops) ==> exists i :: 0 <= i < |ops| && Applies(h, db, ops[..i], Commit(h, db, ops).db)
  {
    hide Fresh;
    PrePassIff(h, db, ops);
    if Fresh(h, db, ops) {
      var i := FailureIsPrefix(h, db, ops);
    }
  }

  /**
   A failed commit is not atomic and its buffer is not cleared: with one string
   column `k`, inserting "a" and then a row without a key leaves the first row in
   place, and committing the same buffer again reports it as a duplicate.
   */
  lemma FailedCommitCanLeaveRows(h: Host) returns (db: Db, ops: seq<TxOp>)
    ensures DbOk(h, db) && NoBytesKeys(db)
    ensures var c := Commit(h, db, ops); c.fault == Some(CannotBeNull(Js("k"))) && c.db != db && c.ops == ops
    ensures Commit(h, Commit(h, db, ops).db, ops).fault == Some(DuplicateKey(Js("a")))
  {
    var k, tab, a := Js("k"), Js("t"), Js("a");
    var s := Schema([Column(k, Catalog.String, false, true, false, Undefined)], k);
    var good: Row := map[k := Text(a)];
    var bad: Row := map[];
    var t := Table(s, [], map[]);
    db, ops := map[tab := t], [InsertOp(tab, good), InsertOp(tab, bad)];
    assert s.columns[0].name == s.primaryKey;
    RowFaults(s, good, bad);
    var t' := Table(s, [a], map[a := good]);
    assert Insert(h, t, good) == Step(t', Ok(good));
    var db' := map[tab := t'];
    assert ApplyOp(h, db, ops[0]) == DbStep(db', None);
    assert ApplyOp(h, db', ops[1]) == DbStep(db', Some(CannotBeNull(k)));
    assert ops[1..][0] == ops[1];
    assert ApplyAll(h, db', ops[1..]) == DbStep(db', Some(CannotBeNull(k)));
    assert ApplyAll(h, db, ops) == DbStep(db', Some(CannotBeNull(k)));
    assert InsertKey(h, t, good) == a && InsertKey(h, t, bad) == Js("undefined");
    assert a[0] != Js("undefined")[0];
    assert Fresh(h, db, ops);
    PrePassIff(h, db, ops);
    assert PrePass(h, db', ops, map[]) == Some(DuplicateKey(a));
  }

  lemma RowFaults(s: Schema, good: Row, bad: Row)
    requires |s.columns| == 1 && s.columns[0] == Column(s.primaryKey, Catalog.String, false, true, false, Undefined)
    requires good == map[s.primaryKey := Text(Js("a"))] && bad == map[]
    ensures RowFault(s, good) == None && RowFault(s, bad) == Some(CannotBeNull(s.primaryKey))
  {
    assert s.columns[1..] == [] && |Js("a")| == 1;
    assert FirstFault(s.columns[1..], good) == None;
    assert CellFault(s.columns[0], Cell(bad, s.primaryKey)) == Some(CannotBeNull(s.primaryKey));
  }
}
