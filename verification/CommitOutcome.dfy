/**
 Exactly when a batch commits, and exactly when a failed commit leaves the
 database changed: both decided before the commit, from the rows present at the
 start and the operations themselves.
 */
module CommitOutcome {
  import opened JsText
  import opened Options
  import opened Values
  import opened TableModel
  import opened Transaction

  // ----- what can be told before the commit

  /** Which keys each table holds. */
  type Live = map<Str, set<Str>>

  function LiveIn(db: Db): (live: Live)
    ensures live.Keys == db.Keys && forall n :: n in db ==> live[n] == db[n].rows.Keys
  {
    map n | n in db :: db[n].rows.Keys
  }

  function SchemasOf(db: Db): (schemas: map<Str, Schema>)
    ensures schemas.Keys == db.Keys && forall n :: n in db ==> schemas[n] == db[n].schema
  {
    map n | n in db :: db[n].schema
  }

  /** The key an operation addresses, as its table renders it. */
  function Addressed(h: Host, schemas: map<Str, Schema>, op: TxOp): Option<Str>
    requires op.table in schemas
  {
    match op
    case InsertOp(name, row) => EncodePk(h, Cell(row, schemas[name].primaryKey))
    case UpdateOp(_, pk, _) => EncodePk(h, pk)
    case DeleteOp(_, pk) => EncodePk(h, pk)
  }

  /**
   An operation that will not throw while exactly the keys `live` are present: an
   insert of a valid row under a free key, or an update or delete by a renderable
   key, where a patch meant for a live row is valid and keeps its key.
   */
  predicate Fine(h: Host, schemas: map<Str, Schema>, live: Live, op: TxOp) {
    op.table in schemas && op.table in live && Addressed(h, schemas, op).Some?
    && var s, k := schemas[op.table], Addressed(h, schemas, op).value;
    match op
    case InsertOp(_, row) => RowOk(s, row) && k !in live[op.table]
    case UpdateOp(_, _, patch) => k in live[op.table] ==> PatchOk(s, patch) && RekeyFault(h, s, k, patch).None?
    case DeleteOp(_, _) => true
  }

  /** The live keys after a fine operation. */
  function After(h: Host, schemas: map<Str, Schema>, live: Live, op: TxOp): Live
    requires Fine(h, schemas, live, op)
  {
    var k := Addressed(h, schemas, op).value;
    match op
    case InsertOp(name, _) => live[name := live[name] + {k}]
    case UpdateOp(_, _, _) => live
    case DeleteOp(name, _) => live[name := live[name] - {k}]
  }

  /**
   The position of the first operation that is not fine, counting earlier inserts
   and deletes; the length if all are.
   */
  function FirstBad(h: Host, schemas: map<Str, Schema>, live: Live, ops: seq<TxOp>): (i: nat)
    ensures i <= |ops|
    decreases |ops|
  {
    if ops == [] || !Fine(h, schemas, live, ops[0]) then 0
    else 1 + FirstBad(h, schemas, After(h, schemas, live, ops[0]), ops[1..])
  }

  /** The live keys after the operations before the first that is not fine. */
  function LiveAfter(h: Host, schemas: map<Str, Schema>, live: Live, ops: seq<TxOp>): Live
    decreases |ops|
  {
    if ops == [] || !Fine(h, schemas, live, ops[0]) then live
    else LiveAfter(h, schemas, After(h, schemas, live, ops[0]), ops[1..])
  }

  predicate AllFine(h: Host, db: Db, ops: seq<TxOp>) {
    FirstBad(h, SchemasOf(db), LiveIn(db), ops) == |ops|
  }

  // ----- when a batch commits

  lemma LiveUpdated(db: Db, n: Str, t: Table)
    requires n in db && t.schema == db[n].schema
    ensures LiveIn(db[n := t]) == LiveIn(db)[n := t.rows.Keys] && SchemasOf(db[n := t]) == SchemasOf(db)
  {
  }

  /** Whether one operation throws, and which keys it leaves, is what `Fine` and `After` say. */
  lemma FineIff(h: Host, db: Db, op: TxOp)
    requires DbOk(h, db)
    ensures var s := ApplyOp(h, db, op);
            && SchemasOf(s.db) == SchemasOf(db)
            && (s.fault.None? <==> Fine(h, SchemasOf(db), LiveIn(db), op))
            && (s.fault.None? ==> LiveIn(s.db) == After(h, SchemasOf(db), LiveIn(db), op))
  {
    hide RowOk, PatchOk, RekeyFault, EncodePk, Insert, Update, Delete, LiveIn, SchemasOf, TableOk;
    if op.table in db {
      var t := db[op.table];
      match op
      case InsertOp(_, row) =>
        InsertFine(h, t, row);
        LiveUpdated(db, op.table, Insert(h, t, row).table);
      case UpdateOp(_, pk, patch) =>
        UpdateFine(h, t, pk, patch);
        LiveUpdated(db, op.table, Update(h, t, pk, patch).table);
        assert LiveIn(db)[op.table := t.rows.Keys] == LiveIn(db);
      case DeleteOp(_, pk) =>
        DeleteFine(h, t, pk);
        LiveUpdated(db, op.table, Delete(h, t, pk).table);
    }
  }

  lemma InsertFine(h: Host, t: Table, row: Row)
    requires TableOk(h, t)
    ensures var s, k := Insert(h, t, row), KeyOf(h, t, row);
            && s.table.schema == t.schema
            && (s.result.Ok? <==> k.Some? && RowOk(t.schema, row) && k.value !in t.rows)
            && (s.result.Ok? ==> s.table.rows.Keys == t.rows.Keys + {k.value})
  {
    hide RowOk, RowFault, EncodePk, SchemaOk;
    InsertSeen(h, t, row);
  }

  lemma UpdateFine(h: Host, t: Table, pk: Value, patch: Row)
    requires TableOk(h, t)
    ensures var s, k := Update(h, t, pk, patch), EncodePk(h, pk);
            && s.table.schema == t.schema && s.table.rows.Keys == t.rows.Keys
            && (s.result.Ok? <==>
                  k.Some?
                  && (k.value in t.rows ==> PatchOk(t.schema, patch) && RekeyFault(h, t.schema, k.value, patch).None?))
  {
    hide RowOk, RowFault, PatchOk, RekeyFault, EncodePk, SchemaOk;
    var k := EncodePk(h, pk);
    if k.Some? { UpdateSeen(h, t, pk, patch, k.value); }
    if k.Some? && k.value in t.rows {
      assert t.rows.Keys + {k.value} == t.rows.Keys;
    }
  }

  lemma DeleteFine(h: Host, t: Table, pk: Value)
    ensures var s, k := Delete(h, t, pk), EncodePk(h, pk);
            && s.table.schema == t.schema
            && (s.result.Ok? <==> k.Some?)
            && (s.result.Ok? ==> s.table.rows.Keys == t.rows.Keys - {k.value})
  {
    hide EncodePk, Without;
    var k := EncodePk(h, pk);
    if k.Some? && k.value !in t.rows {
      assert t.rows.Keys - {k.value} == t.rows.Keys;
    }
  }

  /** The apply loop stops at the first operation that is not fine, having applied the ones before it. */
  lemma {:induction false} BatchStopsAt(h: Host, db: Db, ops: seq<TxOp>)
    requires DbOk(h, db)
    ensures var i, s := FirstBad(h, SchemasOf(db), LiveIn(db), ops), ApplyAll(h, db, ops);
            && (s.fault.Some? <==> i < |ops|)
            && Applies(h, db, ops[..i], s.db)
            && LiveIn(s.db) == LiveAfter(h, SchemasOf(db), LiveIn(db), ops)
    decreases |ops|
  {
    hide DbOk, ApplyOp, Fine, After, SchemasOf, LiveIn;
    if ops != [] {
      var i := FirstBad(h, SchemasOf(db), LiveIn(db), ops);
      FineIff(h, db, ops[0]);
      ApplyOpKeeps(h, db, ops[0]);
      if Fine(h, SchemasOf(db), LiveIn(db), ops[0]) {
        BatchStopsAt(h, ApplyOp(h, db, ops[0]).db, ops[1..]);
        assert ops[..i][0] == ops[0] && ops[..i][1..] == ops[1..][..i - 1];
      }
    }
  }

  /**
   A batch commits exactly when its inserts are fresh and every operation is fine;
   it then leaves the sequential result and an empty buffer.
   */
  lemma CommitSucceedsIff(h: Host, db: Db, ops: seq<TxOp>)
    requires DbOk(h, db)
    ensures Commit(h, db, ops).fault.None? <==> Fresh(h, db, ops) && AllFine(h, db, ops)
    ensures Commit(h, db, ops).fault.None? ==>
              Applies(h, db, ops, Commit(h, db, ops).db) && Commit(h, db, ops).ops == []
  {
    hide Fresh, DbOk;
    PrePassIff(h, db, ops);
    BatchStopsAt(h, db, ops);
  }

  // ----- the net effect of operations that all apply

  /** The patches an operation list merges into one row, in order. */
  function PatchesTo(h: Host, ops: seq<TxOp>, name: Str, k: Str): Row {
    if ops == [] then map[]
    else
      var front, last := ops[..|ops| - 1], ops[|ops| - 1];
      PatchesTo(h, front, name, k)
        + (if last.UpdateOp? && last.table == name && EncodePk(h, last.pk) == Some(k) then last.patch else map[])
  }

  /** The members of a set, in list order. */
  function Only(s: seq<Str>, members: set<Str>): seq<Str> {
    if s == [] then [] else (if s[0] in members then [s[0]] else []) + Only(s[1..], members)
  }

  lemma {:induction false} OnlyAppend(a: seq<Str>, k: Str, members: set<Str>)
    ensures Only(a + [k], members) == Only(a, members) + (if k in members then [k] else [])
  {
    if a == [] {
      var one: seq<Str> := [k];
      assert a + [k] == one && one[1..] == [];
    } else {
      OnlyAppend(a[1..], k, members);
      assert (a + [k])[1..] == a[1..] + [k];
    }
  }

  lemma {:induction false} OnlySame(s: seq<Str>, m1: set<Str>, m2: set<Str>)
    requires forall i :: 0 <= i < |s| ==> (s[i] in m1 <==> s[i] in m2)
    ensures Only(s, m1) == Only(s, m2)
  {
    if s != [] { OnlySame(s[1..], m1, m2); }
  }

  lemma {:induction false} OnlyAll(s: seq<Str>, members: set<Str>)
    requires forall i :: 0 <= i < |s| ==> s[i] in members
    ensures Only(s, members) == s
  {
    if s != [] {
      OnlyAll(s[1..], members);
      assert s == [s[0]] + s[1..];
    }
  }

  lemma WithoutCons(x: Str, s: seq<Str>, k: Str)
    ensures Without([x] + s, k) == if x == k then Without(s, k) else [x] + Without(s, k)
  {
    assert ([x] + s)[1..] == s;
  }

  lemma OnlyCons(x: Str, s: seq<Str>, members: set<Str>)
    ensures Only([x] + s, members) == if x in members then [x] + Only(s, members) else Only(s, members)
  {
    assert ([x] + s)[1..] == s;
  }

  lemma {:induction false} OnlyWithout(s: seq<Str>, members: set<Str>, k: Str)
    ensures Only(Without(s, k), members) == Without(Only(s, members), k) == Only(s, members - {k})
  {
    if s != [] {
      var x, rest := s[0], s[1..];
      OnlyWithout(rest, members, k);
      assert s == [x] + rest;
      WithoutCons(x, rest, k);
      OnlyCons(x, rest, members);
      OnlyCons(x, rest, members - {k});
      OnlyCons(x, Without(rest, k), members);
      WithoutCons(x, Only(rest, members), k);
    }
  }

  /** From `t` to `t'`: surviving rows took the given patches, and surviving keys kept their order. */
  ghost predicate Moved(t: Table, t': Table, patches: Str -> Row) {
    && t'.schema == t.schema
    && (forall k :: k in t.rows && k in t'.rows ==> t'.rows[k] == t.rows[k] + patches(k))
    && Only(t'.keys, t.rows.Keys) == Only(t.keys, t'.rows.Keys)
  }

  /** Inserts whose keys the database does not hold. */
  ghost predicate NewInserts(h: Host, db: Db, ops: seq<TxOp>) {
    forall i :: 0 <= i < |ops| && ops[i].InsertOp? && ops[i].table in db ==>
      match Addressed(h, SchemasOf(db), ops[i]) case Some(k) => k !in db[ops[i].table].rows case None => true
  }

  lemma {:induction false} ApplyLast(h: Host, db: Db, ops: seq<TxOp>, db': Db) returns (mid: Db)
    requires ops != [] && Applies(h, db, ops, db')
    ensures Applies(h, db, ops[..|ops| - 1], mid)
    ensures ApplyOp(h, mid, ops[|ops| - 1]) == DbStep(db', None)
    decreases |ops|
  {
    hide ApplyOp;
    if |ops| == 1 {
      mid := db;
      assert ops[1..] == [];
    } else {
      var first, last := ApplyOp(h, db, ops[0]).db, |ops| - 1;
      mid := ApplyLast(h, first, ops[1..], db');
      assert ops[..last][0] == ops[0] && ops[..last][1..] == ops[1..][..last - 1];
      assert ops[1..][|ops[1..]| - 1] == ops[last];
    }
  }

  lemma {:induction false} RunKeepsDb(h: Host, db: Db, ops: seq<TxOp>, db': Db)
    requires DbOk(h, db) && Applies(h, db, ops, db')
    ensures DbOk(h, db') && SchemasOf(db') == SchemasOf(db)
    decreases |ops|
  {
    hide DbOk, ApplyOp, SchemasOf;
    if ops != [] {
      ApplyOpKeeps(h, db, ops[0]);
      FineIff(h, db, ops[0]);
      RunKeepsDb(h, ApplyOp(h, db, ops[0]).db, ops[1..], db');
    }
  }

  lemma MovedByInsert(h: Host, t: Table, mid: Table, row: Row, p: Str -> Row)
    requires TableOk(h, t) && TableOk(h, mid) && Moved(t, mid, p) && Insert(h, mid, row).result.Ok?
    requires KeyOf(h, mid, row).Some? ==> KeyOf(h, mid, row).value !in t.rows
    ensures Moved(t, Insert(h, mid, row).table, p)
  {
    hide RowOk, RowFault, EncodePk, SchemaOk;
    var k := KeyOf(h, mid, row).value;
    OnlyAppend(mid.keys, k, t.rows.Keys);
    OnlySame(t.keys, mid.rows.Keys, mid.rows.Keys + {k});
    assert Insert(h, mid, row).table.rows.Keys == mid.rows.Keys + {k};
  }

  lemma UpdateMerges(h: Host, t: Table, pk: Value, patch: Row)
    requires Update(h, t, pk, patch).result.Ok?
    ensures var t' := Update(h, t, pk, patch).table;
            && t'.schema == t.schema && t'.keys == t.keys && t'.rows.Keys == t.rows.Keys
            && forall k :: k in t.rows ==>
                 t'.rows[k] == if EncodePk(h, pk) == Some(k) then t.rows[k] + patch else t.rows[k]
  {
    hide RowFault, EncodePk, RekeyFault;
  }

  lemma MovedByUpdate(h: Host, t: Table, mid: Table, pk: Value, patch: Row, p: Str -> Row, p': Str -> Row)
    requires TableOk(h, mid) && Moved(t, mid, p) && Update(h, mid, pk, patch).result.Ok?
    requires forall k :: p'(k) == p(k) + (if EncodePk(h, pk) == Some(k) then patch else map[])
    ensures Moved(t, Update(h, mid, pk, patch).table, p')
  {
    hide RowOk, RowFault, EncodePk, SchemaOk, RekeyFault, TableOk, Only, Update;
    UpdateMerges(h, mid, pk, patch);
    var t' := Update(h, mid, pk, patch).table;
    forall k | k in t.rows && k in t'.rows
      ensures t'.rows[k] == t.rows[k] + p'(k)
    {
      PatchedTwice(t.rows[k], p(k), if EncodePk(h, pk) == Some(k) then patch else map[]);
    }
  }

  lemma PatchedTwice(row: Row, p: Row, patch: Row)
    ensures (row + p) + patch == row + (p + patch) && row + p + map[] == row + p
  {
  }

  lemma MovedByDelete(h: Host, t: Table, mid: Table, pk: Value, p: Str -> Row)
    requires Moved(t, mid, p) && Delete(h, mid, pk).result.Ok?
    ensures Moved(t, Delete(h, mid, pk).table, p)
  {
    hide EncodePk, Without, Only;
    if EncodePk(h, pk).value in mid.rows {
      var k := EncodePk(h, pk).value;
      OnlyWithout(mid.keys, t.rows.Keys, k);
      OnlyWithout(t.keys, mid.rows.Keys, k);
      assert Delete(h, mid, pk).table.rows.Keys == mid.rows.Keys - {k};
    }
  }

  lemma StillWhere(t: Table)
    ensures Moved(t, t, k => map[])
  {
    forall k | k in t.rows
      ensures t.rows[k] + map[] == t.rows[k]
    {
    }
  }

  lemma MovedUnder(t: Table, t': Table, p: Str -> Row, q: Str -> Row)
    requires Moved(t, t', p) && forall k :: p(k) == q(k)
    ensures Moved(t, t', q)
  {
    hide Only;
  }

  /** Every table moves by exactly the patches and the removals of the operations. */
  lemma {:induction false} BatchMoves(h: Host, db: Db, ops: seq<TxOp>, db': Db, n: Str)
    requires DbOk(h, db) && NewInserts(h, db, ops) && Applies(h, db, ops, db') && n in db
    ensures n in db' && Moved(db[n], db'[n], k => PatchesTo(h, ops, n, k))
    decreases |ops|
  {
    hide Moved, DbOk, ApplyOp, NewInserts, SchemasOf, PatchesTo, EncodePk;
    if ops == [] {
      StillWhere(db[n]);
      NoPatches(h, n);
      MovedUnder(db[n], db[n], k => map[], k => PatchesTo(h, ops, n, k));
    } else {
      var front, last := ops[..|ops| - 1], ops[|ops| - 1];
      var mid := ApplyLast(h, db, ops, db');
      NewFront(h, db, ops);
      RunKeepsDb(h, db, front, mid);
      BatchMoves(h, db, front, mid, n);
      LastMoves(h, db, ops, mid, db', n);
    }
  }

  lemma NoPatches(h: Host, n: Str)
    ensures forall k :: PatchesTo(h, [], n, k) == map[]
  {
  }

  lemma NewFront(h: Host, db: Db, ops: seq<TxOp>)
    requires ops != [] && NewInserts(h, db, ops)
    ensures NewInserts(h, db, ops[..|ops| - 1])
  {
    hide Addressed;
    var front := ops[..|ops| - 1];
    forall i | 0 <= i < |front| && front[i].InsertOp? && front[i].table in db
      ensures match Addressed(h, SchemasOf(db), front[i])
              case Some(k) => k !in db[front[i].table].rows
              case None => true
    {
      assert front[i] == ops[i];
    }
  }

  /** The last operation of a batch, seen from one table. */
  lemma LastMoves(h: Host, db: Db, ops: seq<TxOp>, mid: Db, db': Db, n: Str)
    requires ops != [] && DbOk(h, db) && DbOk(h, mid) && NewInserts(h, db, ops) && n in db && n in mid
    requires SchemasOf(mid) == SchemasOf(db) && ApplyOp(h, mid, ops[|ops| - 1]) == DbStep(db', None)
    requires Moved(db[n], mid[n], k => PatchesTo(h, ops[..|ops| - 1], n, k))
    ensures n in db' && Moved(db[n], db'[n], k => PatchesTo(h, ops, n, k))
  {
    hide Moved, TableOk, Insert, Update, Delete, EncodePk;
    var front, last := ops[..|ops| - 1], ops[|ops| - 1];
    var p: Str -> Row := k => PatchesTo(h, front, n, k);
    var p': Str -> Row := k => PatchesTo(h, ops, n, k);
    forall k
      ensures p'(k)
          == p(k) + (if last.UpdateOp? && last.table == n && EncodePk(h, last.pk) == Some(k) then last.patch else map[])
    {
    }
    if last.table != n {
      AsBefore(db[n], mid[n], p, p');
    } else {
      var t, m := db[n], mid[n];
      match last
      case InsertOp(_, row) =>
        assert SchemasOf(mid)[n] == SchemasOf(db)[n];
        MovedByInsert(h, t, m, row, p);
        AsBefore(t, db'[n], p, p');
      case UpdateOp(_, pk, patch) => MovedByUpdate(h, t, m, pk, patch, p, p');
      case DeleteOp(_, pk) =>
        MovedByDelete(h, t, m, pk, p);
        AsBefore(t, db'[n], p, p');
    }
  }

  lemma AsBefore(t: Table, t': Table, p: Str -> Row, p': Str -> Row)
    requires Moved(t, t', p) && forall k :: p'(k) == p(k) + map[]
    ensures Moved(t, t', p')
  {
    hide Only;
    forall k
      ensures p'(k) == p(k)
    {
      assert p(k) + map[] == p(k);
    }
  }

  /** Some key comes or goes for good, or some row present at the start takes patches that alter it. */
  ghost predicate NetEffect(h: Host, db: Db, ops: seq<TxOp>) {
    LiveAfter(h, SchemasOf(db), LiveIn(db), ops) != LiveIn(db)
    || exists n, k :: n in db && k in db[n].rows && db[n].rows[k] + PatchesTo(h, ops, n, k) != db[n].rows[k]
  }

  lemma SameKeysSameTable(h: Host, t: Table, t': Table, p: Str -> Row)
    requires TableOk(h, t) && TableOk(h, t') && Moved(t, t', p) && t'.rows.Keys == t.rows.Keys
    ensures t' == t <==> forall k :: k in t.rows ==> t.rows[k] + p(k) == t.rows[k]
  {
    hide RowOk, SchemaOk, EncodePk, Only;
    OnlyAll(t.keys, t'.rows.Keys);
    OnlyAll(t'.keys, t.rows.Keys);
    if forall k :: k in t.rows ==> t.rows[k] + p(k) == t.rows[k] {
      assert t'.rows == t.rows;
    }
  }

  /** Operations that all apply change the database exactly when they have a net effect. */
  lemma ChangedIff(h: Host, db: Db, ops: seq<TxOp>, db': Db)
    requires DbOk(h, db) && NewInserts(h, db, ops) && Applies(h, db, ops, db')
    ensures db' != db <==> NetEffect(h, db, ops)
  {
    hide TableOk, Moved, NewInserts, PatchesTo, ApplyAll;
    RunKeepsDb(h, db, ops, db');
    AllAppliedLive(h, db, ops, db');
    if LiveIn(db') == LiveIn(db) {
      forall n | n in db
        ensures n in db' && (db'[n] == db[n] <==>
            forall k :: k in db[n].rows ==> db[n].rows[k] + PatchesTo(h, ops, n, k) == db[n].rows[k])
      {
        BatchMoves(h, db, ops, db', n);
        assert LiveIn(db')[n] == LiveIn(db)[n];
        SameKeysSameTable(h, db[n], db'[n], k => PatchesTo(h, ops, n, k));
      }
      assert db'.Keys == db.Keys by { assert LiveIn(db').Keys == LiveIn(db).Keys; }
    }
  }

  lemma AllAppliedLive(h: Host, db: Db, ops: seq<TxOp>, db': Db)
    requires DbOk(h, db) && Applies(h, db, ops, db')
    ensures LiveIn(db') == LiveAfter(h, SchemasOf(db), LiveIn(db), ops)
  {
    hide DbOk, LiveAfter, FirstBad, ApplyAll;
    BatchStopsAt(h, db, ops);
  }

  lemma {:induction false} FineInserts(h: Host, schemas: map<Str, Schema>, live: Live, ops: seq<TxOp>, j: nat)
    requires j < FirstBad(h, schemas, live, ops) && ops[j].InsertOp?
    ensures ops[j].table in schemas && RowOk(schemas[ops[j].table], ops[j].row)
    decreases |ops|
  {
    hide RowOk, PatchOk, EncodePk, RekeyFault;
    if j > 0 {
      FineInserts(h, schemas, After(h, schemas, live, ops[0]), ops[1..], j - 1);
    }
  }

  /** Past the pre-pass, the inserts that apply bring keys the database did not hold. */
  lemma FreshAreNew(h: Host, db: Db, ops: seq<TxOp>, i: nat)
    requires DbOk(h, db) && NoBytesKeys(db) && Fresh(h, db, ops) && i == FirstBad(h, SchemasOf(db), LiveIn(db), ops)
    ensures NewInserts(h, db, ops[..i])
  {
    hide RowOk, TextKeyed, InsertKey, EncodePk, FirstBad, KeysDistinct;
    forall j | 0 <= j < i && ops[j].InsertOp?
      ensures match Addressed(h, SchemasOf(db), ops[j]) case Some(k) => k !in db[ops[j].table].rows case None => true
    {
      FineInserts(h, SchemasOf(db), LiveIn(db), ops, j);
      assert TableOk(h, db[ops[j].table]);
      SameKey(h, db[ops[j].table], ops[j].row);
    }
  }

  /**
   A failed commit leaves the database changed exactly when the pre-pass let the
   batch through and the operations before the first that is not fine have a net
   effect.
   */
  lemma FailedCommitChangesIff(h: Host, db: Db, ops: seq<TxOp>)
    requires DbOk(h, db) && NoBytesKeys(db)
    ensures var i := FirstBad(h, SchemasOf(db), LiveIn(db), ops);
            Commit(h, db, ops).fault.Some? && Commit(h, db, ops).db != db <==>
              Fresh(h, db, ops) && i < |ops| && NetEffect(h, db, ops[..i])
  {
    hide Fresh, DbOk, NoBytesKeys, NetEffect, FirstBad, Applies;
    PrePassIff(h, db, ops);
    if Fresh(h, db, ops) {
      var i := FirstBad(h, SchemasOf(db), LiveIn(db), ops);
      BatchStopsAt(h, db, ops);
      FreshAreNew(h, db, ops, i);
      ChangedIff(h, db, ops[..i], ApplyAll(h, db, ops).db);
    }
  }

  predicate BothInsert(db: Db, a: TxOp, b: TxOp) {
    a.InsertOp? && b.InsertOp? && a.table == b.table && a.table in db
  }

  /** The keys inserts give their rows are new to their table and to each other. */
  ghost predicate KeysNew(h: Host, db: Db, ops: seq<TxOp>) {
    && NewInserts(h, db, ops)
    && forall i, j :: 0 <= i < j < |ops| && BothInsert(db, ops[i], ops[j]) ==>
         Addressed(h, SchemasOf(db), ops[i]) != Addressed(h, SchemasOf(db), ops[j])
  }

  /**
   The same in the keys rows are stored under: a batch commits exactly when every
   operation is fine and no insert's key was there at the start or is inserted twice.
   */
  lemma CommitSucceedsByKeys(h: Host, db: Db, ops: seq<TxOp>)
    requires DbOk(h, db) && NoBytesKeys(db)
    ensures Commit(h, db, ops).fault.None? <==> AllFine(h, db, ops) && KeysNew(h, db, ops)
  {
    hide RowOk, TextKeyed, InsertKey, EncodePk, FirstBad, Commit, SchemaOk;
    CommitSucceedsIff(h, db, ops);
    if AllFine(h, db, ops) {
      forall i | 0 <= i < |ops|
        ensures ops[i].table in db
        ensures ops[i].InsertOp? ==>
                  Addressed(h, SchemasOf(db), ops[i]) == Some(InsertKey(h, db[ops[i].table], ops[i].row))
      {
        FineTables(h, SchemasOf(db), LiveIn(db), ops, i);
        if ops[i].InsertOp? {
          FineInserts(h, SchemasOf(db), LiveIn(db), ops, i);
          assert TableOk(h, db[ops[i].table]);
          SameKey(h, db[ops[i].table], ops[i].row);
        }
      }
    }
  }

  lemma {:induction false} FineTables(h: Host, schemas: map<Str, Schema>, live: Live, ops: seq<TxOp>, j: nat)
    requires j < FirstBad(h, schemas, live, ops)
    ensures j < |ops| && ops[j].table in schemas
    decreases |ops|
  {
    hide RowOk, PatchOk, EncodePk, RekeyFault;
    if j > 0 {
      FineTables(h, schemas, After(h, schemas, live, ops[0]), ops[1..], j - 1);
    }
  }
}
