/**
 The arena, its bump words and its index behave as a plain map from
 (collection, key) to typed record, and its catalog records as a plain map from
 table name to columns: every call, however it ends, and every run of calls.
 */
module ArenaRefinement {
  import opened Bytes
  import opened Options
  import opened Utf8
  import opened Layout
  import opened RecordSchema
  import opened ArenaModel
  import opened ArenaHeap

  type Cells = map<Text, Cell>
  type Abs = map<(Text, Text), Cells>
  type Tables = map<Text, seq<Catalog.Column>>

  /** The plain maps, and the heap of every record ever created that ties them to bytes. */
  datatype World = World(heap: Heap, abs: Abs, tables: Tables)

  const CATALOG_NAME: Text := Ascii("__catalog__")

  // ----- key namespaces

  /** One name, its colon appended, starts the other, its colon appended. */
  predicate Collide(n1: Text, n2: Text) {
    n1 + [COLON] <= n2 + [COLON] || n2 + [COLON] <= n1 + [COLON]
  }

  /** Two names can share an index key exactly when they collide. */
  lemma NamesCollideIff(n1: Text, n2: Text)
    ensures (exists k1, k2 :: Namespaced(n1, k1) == Namespaced(n2, k2)) <==> Collide(n1, n2)
  {
    if k1, k2 :| Namespaced(n1, k1) == Namespaced(n2, k2) {
      EncodeInjective(n1 + [COLON] + k1, n2 + [COLON] + k2);
      assert (n1 + [COLON] + k1)[..|n1| + 1] == n1 + [COLON] && (n2 + [COLON] + k2)[..|n2| + 1] == n2 + [COLON];
    }
    if n1 + [COLON] <= n2 + [COLON] {
      SharedKey(n1, n2);
    }
    if n2 + [COLON] <= n1 + [COLON] {
      SharedKey(n2, n1);
    }
  }

  lemma SharedKey(n1: Text, n2: Text)
    requires n1 + [COLON] <= n2 + [COLON]
    ensures exists k1 :: Namespaced(n1, k1) == Namespaced(n2, [])
  {
    var k1 := (n2 + [COLON])[|n1| + 1..];
    assert n1 + [COLON] + k1 == n2 + [COLON] + [];
    assert Namespaced(n1, k1) == Namespaced(n2, []);
  }

  /** Under one name, or two that do not collide, no two (collection, key) pairs share an index key. */
  lemma NamespaceInjective(n1: Text, k1: Text, n2: Text, k2: Text)
    requires (n1 == n2 || !Collide(n1, n2)) && Namespaced(n1, k1) == Namespaced(n2, k2)
    ensures n1 == n2 && k1 == k2
  {
    hide Collide;
    NamesCollideIff(n1, n2);
    EncodeInjective(n1 + [COLON] + k1, n2 + [COLON] + k2);
    assert (n1 + [COLON] + k1)[|n1| + 1..] == k1 && (n2 + [COLON] + k2)[|n2| + 1..] == k2;
  }

  /** Different names without colons never collide. */
  lemma ColonFreeApart(n1: Text, n2: Text)
    requires COLON !in n1 && COLON !in n2 && n1 != n2
    ensures !Collide(n1, n2)
  {
    if n1 + [COLON] <= n2 + [COLON] { PrefixIsEqual(n1, n2); }
    if n2 + [COLON] <= n1 + [COLON] { PrefixIsEqual(n2, n1); }
  }

  lemma PrefixIsEqual(n1: Text, n2: Text)
    requires COLON !in n2 && n1 + [COLON] <= n2 + [COLON]
    ensures n1 == n2
  {
    assert (n2 + [COLON])[|n1|] == (n1 + [COLON])[|n1|] == COLON;
    assert |n1| == |n2|;
    assert n1 == (n1 + [COLON])[..|n1|] == (n2 + [COLON])[..|n1|] == n2;
  }

  /** Collection names that leave the catalog's keys alone. */
  predicate NameOk(name: Text) {
    !Collide(name, CATALOG_NAME)
  }

  lemma CatalogKeyIsNamespaced(table: Text)
    ensures CatalogKey(table) == Namespaced(CATALOG_NAME, table)
  {
    assert CATALOG_PREFIX + table == CATALOG_NAME + [COLON] + table;
  }

  lemma KeysApart(name: Text, key: Text, table: Text)
    requires NameOk(name)
    ensures Namespaced(name, key) != CatalogKey(table)
  {
    CatalogKeyIsNamespaced(table);
    if Namespaced(name, key) == CatalogKey(table) {
      NamespaceInjective(name, key, CATALOG_NAME, table);
    }
  }

  lemma CatalogKeyInjective(t: Text, u: Text)
    requires CatalogKey(t) == CatalogKey(u)
    ensures t == u
  {
    EncodeInjective(CATALOG_PREFIX + t, CATALOG_PREFIX + u);
    assert (CATALOG_PREFIX + t)[|CATALOG_PREFIX|..] == t && (CATALOG_PREFIX + u)[|CATALOG_PREFIX|..] == u;
  }

  // ----- the refinement relation

  ghost predicate SchemasOk(schemas: map<Text, Schema>) {
    && (forall n :: n in schemas ==> NameOk(n) && WellLaid(schemas[n]))
    && (forall n, m :: n in schemas && m in schemas && n != m ==> !Collide(n, m))
  }

  /** Names the record codec gives back unchanged; the schema admits only such names. */
  predicate Admitted(table: Text, cols: seq<Catalog.Column>) {
    && |Encode(table)| <= 64 && !Catalog.BomLed(table)
    && forall i :: 0 <= i < |cols| ==> !Catalog.BomLed(cols[i].name)
  }

  /** The key's catalog record is intact below the string bump. */
  ghost predicate TableOk(rg: Regions, mem: Buffer, s: nat, index: map<Buffer, nat>, table: Text,
                          cols: seq<Catalog.Column>) {
    && Admitted(table, cols)
    && Catalog.EncodeCatalog(table, cols).Ok?
    && CatalogKey(table) in index
    && var o := index[CatalogKey(table)];
       var payload := Catalog.EncodeCatalog(table, cols).value;
       rg.StringDataStart() <= o && o + |payload| <= s && o + |payload| <= |mem| && mem[o..o + |payload|] == payload
  }

  ghost predicate RowOk(schemas: map<Text, Schema>, index: map<Buffer, nat>, heap: Heap, nk: (Text, Text), cells: Cells)
    {
    && nk.0 in schemas && !KeyInvalid(nk.1)
    && |Namespaced(nk.0, nk.1)| <= MAX_KEY_LEN
    && Namespaced(nk.0, nk.1) in index
    && index[Namespaced(nk.0, nk.1)] in heap
    && heap[index[Namespaced(nk.0, nk.1)]] == Rec(schemas[nk.0], cells)
  }

  ghost predicate Accounted(index: map<Buffer, nat>, w: World) {
    forall k :: k in index ==>
      (exists nk :: nk in w.abs && k == Namespaced(nk.0, nk.1)) || (exists t :: t in w.tables && k == CatalogKey(t))
  }

  ghost predicate Unshared(index: map<Buffer, nat>, abs: Abs) {
    forall a, b :: a in abs && b in abs && a != b && Namespaced(a.0, a.1) in index && Namespaced(b.0, b.1) in index
      ==> index[Namespaced(a.0, a.1)] != index[Namespaced(b.0, b.1)]
  }

  ghost predicate IndexOk(schemas: map<Text, Schema>, index: map<Buffer, nat>, w: World) {
    && (forall nk :: nk in w.abs ==> RowOk(schemas, index, w.heap, nk, w.abs[nk]))
    && Accounted(index, w)
    && Unshared(index, w.abs)
  }

  ghost predicate TablesOk(rg: Regions, mem: Buffer, s: nat, index: map<Buffer, nat>, tables: Tables) {
    forall t :: t in tables ==> TableOk(rg, mem, s, index, t, tables[t])
  }

  ghost predicate WorldOk(rg: Regions, schemas: map<Text, Schema>, db: Db, w: World) {
    && SchemasOk(schemas)
    && ArenaOk(rg, db.mem, w.heap)
    && IndexOk(schemas, db.index, w)
    && TablesOk(rg, db.mem, StringBase(rg, db.mem), db.index, w.tables)
  }

  // ----- what calls mean on the plain maps

  /** The effect of leading entries on a record: later ones win, undefined and unknown names do nothing. */
  function ApplyEntries(s: Schema, cells: Cells, data: seq<Entry>): (r: Cells)
    requires cells.Keys == s.fields.Keys
    ensures r.Keys == s.fields.Keys
    decreases |data|
  {
    if data == [] then cells
    else
      var e := data[0];
      var next := if e.value.None? || e.name !in s.fields then cells
                  else cells[e.name := Stored(s.fields[e.name].typ, e.value.value)];
      ApplyEntries(s, next, data[1..])
  }

  ghost predicate CallOk(schemas: map<Text, Schema>, call: Call) {
    && CallFits(call)
    && ((call.CallInsert? || call.CallUpdate? || call.CallUpsert? || call.CallDelete?)
        ==> call.c.name in schemas && schemas[call.c.name] == call.c.schema)
    && (call.CallSave? ==> Admitted(call.table, call.cols))
  }

  /** The plain map after a call that reported `rep`. */
  function AbsAfter(abs: Abs, call: Call, rep: Report): Abs {
    match call
    case CallDelete(c, key, _) => if rep.removed then abs - {(c.name, key)} else abs
    case CallSave(_, _, _, _) => abs
    case Foreign(_, _) => abs
    case _ =>
      var nk := (call.c.name, call.key);
      if rep.record.None? || rep.applied > |call.data| then abs
      else if rep.created then
        abs[nk := ApplyEntries(call.c.schema, ZeroCells(call.c.schema), call.data[..rep.applied])]
      else if nk in abs && abs[nk].Keys == call.c.schema.fields.Keys then
        abs[nk := ApplyEntries(call.c.schema, abs[nk], call.data[..rep.applied])]
      else abs
  }

  function TablesAfter(tables: Tables, call: Call, rep: Report): Tables {
    if call.CallSave? && rep.outcome == Done then tables[call.table := call.cols] else tables
  }

  // ----- how much bump space a call can ask for

  function EntriesNeed(data: seq<Entry>): nat {
    if data == [] then 0
    else (if data[0].value.Some? then StringNeed(data[0].value.value) else 0) + EntriesNeed(data[1..])
  }

  function RecordNeed(call: Call): nat {
    if call.CallInsert? || call.CallUpsert? then AlignUp(call.c.schema.totalSize, RECORD_ALIGNMENT) else 0
  }

  function StringSpace(call: Call): nat {
    match call
    case CallInsert(_, _, data, _) => EntriesNeed(data)
    case CallUpdate(_, _, data) => EntriesNeed(data)
    case CallUpsert(_, _, data, _) => EntriesNeed(data)
    case CallDelete(_, _, _) => 0
    case CallSave(_, cols, _, _) => Catalog.EncodedLen(|cols|)
    case Foreign(payload, _) => |payload|
  }

  // ----- the assignment loop

  ghost predicate FilledOk(rg: Regions, db: Db, f: Filled, heap: Heap, heap': Heap, need: nat)
    requires Mapped(rg, db.mem)
  {
    && ArenaOk(rg, f.db.mem, heap')
    && RecordBase(rg, f.db.mem) == RecordBase(rg, db.mem)
    && StringBase(rg, db.mem) <= StringBase(rg, f.db.mem) <= StringBase(rg, db.mem) + need
    && f.db.index == db.index
    && Agree(db.mem, f.db.mem, rg.StringDataStart(), StringBase(rg, db.mem))
  }

  function EntryCells(s: Schema, cells: Cells, e: Entry): Cells
    requires cells.Keys == s.fields.Keys
  {
    if e.value.None? || e.name !in s.fields then cells
    else cells[e.name := Stored(s.fields[e.name].typ, e.value.value)]
  }

  function WithCells(heap: Heap, o: nat, cells: Cells): Heap
    requires o in heap
  {
    heap[o := heap[o].(cells := cells)]
  }

  lemma RecordInHeap(rg: Regions, mem: Buffer, heap: Heap, o: nat)
    requires ArenaOk(rg, mem, heap) && o in heap
    ensures Mapped(rg, mem) && WellLaid(heap[o].schema) && heap[o].cells.Keys == heap[o].schema.fields.Keys
    ensures o + heap[o].schema.totalSize <= rg.RecordEnd() && o + heap[o].schema.totalSize <= |mem|
  {
    assert RecPlaced(rg, RecordBase(rg, mem), o, heap[o]);
  }

  lemma AssignEntryOk(rg: Regions, db: Db, heap: Heap, o: nat, e: Entry)
    requires ArenaOk(rg, db.mem, heap) && o in heap
    requires StringBase(rg, db.mem) + EntriesNeed([e]) < U32_LIMIT
    ensures ProxyFits(rg, db, heap[o].schema, o) && heap[o].cells.Keys == heap[o].schema.fields.Keys
    ensures var a := AssignEntry(rg, db, heap[o].schema, o, e);
            var after := WithCells(heap, o, EntryCells(heap[o].schema, heap[o].cells, e));
            AssignedOk(rg, db, a, heap, if a.took then after else heap, EntriesNeed([e]))
  {
    hide ArenaOk, WellLaid;
    RecordInHeap(rg, db.mem, heap, o);
    if e.value.Some? && e.name in heap[o].schema.fields {
      SetFieldOk(rg, db, heap, o, e.name, e.value.value, e.notify, e.push);
    } else {
      assert WithCells(heap, o, heap[o].cells) == heap;
    }
  }

  /** The loop leaves the record holding exactly the entries it reports as applied. */
  lemma {:induction false} FillOk(rg: Regions, db: Db, heap: Heap, o: nat, data: seq<Entry>)
    requires ArenaOk(rg, db.mem, heap) && o in heap
    requires StringBase(rg, db.mem) + EntriesNeed(data) < U32_LIMIT
    ensures ProxyFits(rg, db, heap[o].schema, o) && heap[o].cells.Keys == heap[o].schema.fields.Keys
    ensures var f := Fill(rg, db, heap[o].schema, o, data);
            FilledOk(rg, db, f, heap,
                WithCells(heap, o, ApplyEntries(heap[o].schema, heap[o].cells, data[..f.applied])), EntriesNeed(data))
    decreases |data|
  {
    hide ArenaOk, WellLaid, AssignEntry, StringBase, RecordBase;
    RecordInHeap(rg, db.mem, heap, o);
    var s := heap[o].schema;
    if data == [] {
      assert WithCells(heap, o, heap[o].cells) == heap;
    } else {
      assert [data[0]][1..] == [];
      AssignEntryOk(rg, db, heap, o, data[0]);
      var a := AssignEntry(rg, db, s, o, data[0]);
      var f := Fill(rg, db, s, o, data);
      if a.outcome.Threw? {
        assert data[..1][1..] == [];
        assert WithCells(heap, o, heap[o].cells) == heap;
      } else {
        var cells' := EntryCells(s, heap[o].cells, data[0]);
        var heap' := WithCells(heap, o, cells');
        FillOk(rg, a.db, heap', o, data[1..]);
        assert data[..f.applied][1..] == data[1..][..f.applied - 1];
        assert WithCells(heap', o, ApplyEntries(s, cells', data[1..][..f.applied - 1]))
            == WithCells(heap, o, ApplyEntries(s, heap[o].cells, data[..f.applied]));
        AgreeChain(db.mem, a.db.mem, f.db.mem, rg.StringDataStart(), StringBase(rg, db.mem), StringBase(rg, a.db.mem));
      }
    }
  }

  lemma AgreeChain(m: Buffer, m': Buffer, m'': Buffer, a: int, b: int, c: int)
    requires Agree(m, m', a, b) && Agree(m', m'', a, c) && b <= c
    ensures Agree(m, m'', a, b)
  {
  }

  // ----- keeping the relation

  lemma TablesFrame(rg: Regions, mem: Buffer, mem': Buffer, s: nat, s': nat, index: map<Buffer, nat>,
                    index': map<Buffer, nat>, tables: Tables)
    requires TablesOk(rg, mem, s, index, tables) && s <= s' && Agree(mem, mem', rg.StringDataStart(), s)
    requires forall t :: t in tables ==>
        CatalogKey(t) in index' && (CatalogKey(t) in index ==> index'[CatalogKey(t)] == index[CatalogKey(t)])
    ensures TablesOk(rg, mem', s', index', tables)
  {
    hide Admitted, CatalogKey;
    forall t | t in tables
      ensures TableOk(rg, mem', s', index', t, tables[t])
    {
      assert TableOk(rg, mem, s, index, t, tables[t]);
      var o := index[CatalogKey(t)];
      AgreeSlice(mem, mem', rg.StringDataStart(), s, o, |Catalog.EncodeCatalog(t, tables[t]).value|);
    }
  }

  /** Rebinding or filling one row: the other rows, and their bytes, are untouched. */
  lemma RowsAfter(schemas: map<Text, Schema>, index: map<Buffer, nat>, w: World, nk: (Text, Text), o: nat, cells: Cells,
                  heap': Heap)
    requires SchemasOk(schemas) && IndexOk(schemas, index, w)
    requires nk.0 in schemas && !KeyInvalid(nk.1) && |Namespaced(nk.0, nk.1)| <= MAX_KEY_LEN
    requires o in heap' && heap'[o] == Rec(schemas[nk.0], cells)
    requires forall q :: q in w.heap && q != o ==> q in heap' && heap'[q] == w.heap[q]
    requires forall a :: a in w.abs && a != nk && Namespaced(a.0, a.1) in index ==> index[Namespaced(a.0, a.1)] != o
    ensures IndexOk(schemas, index[Namespaced(nk.0, nk.1) := o], World(heap', w.abs[nk := cells], w.tables))
  {
    hide KeyInvalid, Namespaced, CatalogKey, Accounted, Unshared, WellLaid;
    var index' := index[Namespaced(nk.0, nk.1) := o];
    var w' := World(heap', w.abs[nk := cells], w.tables);
    forall a | a in w'.abs
      ensures RowOk(schemas, index', heap', a, w'.abs[a])
    {
      if a != nk {
        assert RowOk(schemas, index, w.heap, a, w.abs[a]);
        KeysDiffer(schemas, a, nk);
      }
    }
    KnownNames(schemas, index, w);
    UnsharedAfter(schemas, index, w.abs, nk, o, cells);
    AccountedAfter(index, w, nk, o, cells, heap');
  }

  lemma KnownNames(schemas: map<Text, Schema>, index: map<Buffer, nat>, w: World)
    requires IndexOk(schemas, index, w)
    ensures forall a :: a in w.abs ==> a.0 in schemas
  {
    hide KeyInvalid, Namespaced, CatalogKey;
    forall a | a in w.abs
      ensures a.0 in schemas
    {
      assert RowOk(schemas, index, w.heap, a, w.abs[a]);
    }
  }

  lemma UnsharedAfter(schemas: map<Text, Schema>, index: map<Buffer, nat>, abs: Abs, nk: (Text, Text), o: nat,
                      cells: Cells)
    requires SchemasOk(schemas) && nk.0 in schemas && Unshared(index, abs) && forall a :: a in abs ==> a.0 in schemas
    requires forall a :: a in abs && a != nk && Namespaced(a.0, a.1) in index ==> index[Namespaced(a.0, a.1)] != o
    ensures Unshared(index[Namespaced(nk.0, nk.1) := o], abs[nk := cells])
  {
    hide Namespaced, SchemasOk;
    var index', abs' := index[Namespaced(nk.0, nk.1) := o], abs[nk := cells];
    forall a, b | a in abs' && b in abs' && a != b && Namespaced(a.0, a.1) in index' && Namespaced(b.0, b.1) in index'
      ensures index'[Namespaced(a.0, a.1)] != index'[Namespaced(b.0, b.1)]
    {
      KeysDiffer(schemas, a, b);
      if a != nk { KeysDiffer(schemas, a, nk); }
      if b != nk { KeysDiffer(schemas, b, nk); }
    }
  }

  lemma AccountedAfter(index: map<Buffer, nat>, w: World, nk: (Text, Text), o: nat, cells: Cells, heap': Heap)
    requires Accounted(index, w)
    ensures Accounted(index[Namespaced(nk.0, nk.1) := o], World(heap', w.abs[nk := cells], w.tables))
  {
    hide Namespaced, CatalogKey;
    var k := Namespaced(nk.0, nk.1);
    var index', w' := index[k := o], World(heap', w.abs[nk := cells], w.tables);
    forall j | j in index'
      ensures (exists a :: a in w'.abs && j == Namespaced(a.0, a.1))
          || (exists t :: t in w'.tables && j == CatalogKey(t))
    {
      if j == k {
        assert nk in w'.abs;
      } else if exists a :: a in w.abs && j == Namespaced(a.0, a.1) {
        var a :| a in w.abs && j == Namespaced(a.0, a.1);
        assert a in w'.abs;
      }
    }
  }

  lemma KeysDiffer(schemas: map<Text, Schema>, a: (Text, Text), b: (Text, Text))
    requires SchemasOk(schemas) && a.0 in schemas && b.0 in schemas && a != b
    ensures Namespaced(a.0, a.1) != Namespaced(b.0, b.1)
  {
    hide Namespaced, WellLaid;
    if Namespaced(a.0, a.1) == Namespaced(b.0, b.1) {
      NamespaceInjective(a.0, a.1, b.0, b.1);
    }
  }

  /** Every bound key of a known collection is one of its rows. */
  lemma BoundKeyIsRow(schemas: map<Text, Schema>, index: map<Buffer, nat>, w: World, name: Text, key: Text)
    requires SchemasOk(schemas) && IndexOk(schemas, index, w) && name in schemas
    ensures Namespaced(name, key) in index <==> (name, key) in w.abs
  {
    hide KeyInvalid, Namespaced, CatalogKey, WellLaid;
    var k := Namespaced(name, key);
    if (name, key) in w.abs {
      assert RowOk(schemas, index, w.heap, (name, key), w.abs[(name, key)]);
    }
    if k in index {
      if t :| t in w.tables && k == CatalogKey(t) {
        KeysApart(name, key, t);
      } else {
        var a :| a in w.abs && k == Namespaced(a.0, a.1);
        assert RowOk(schemas, index, w.heap, a, w.abs[a]);
        NamespaceInjective(a.0, a.1, name, key);
      }
    }
  }

  // ----- reading through the index

  lemma CellReads(rg: Regions, mem: Buffer, heap: Heap, o: nat, n: Text)
    requires ArenaOk(rg, mem, heap) && o in heap && n in heap[o].schema.fields
    ensures var f := heap[o].schema.fields[n];
            o + f.offset + Width(f.typ) <= |mem| && n in heap[o].cells
                && CellAt(mem, o + f.offset, f.typ) == heap[o].cells[n]
  {
    hide CellAt, PointerOk, RecordBase, StringBase, WellLaid, Apart;
    assert RecPlaced(rg, RecordBase(rg, mem), o, heap[o]);
    assert CellsOk(rg, mem, StringBase(rg, mem), o, heap[o]);
    var f := heap[o].schema.fields[n];
    assert CellOk(rg, mem, StringBase(rg, mem), o + f.offset, f.typ, heap[o].cells[n]);
  }

  /** `find` answers from the plain map. */
  lemma FindHits(rg: Regions, schemas: map<Text, Schema>, db: Db, w: World, c: Collection, key: Text)
    requires WorldOk(rg, schemas, db, w) && c.name in schemas && schemas[c.name] == c.schema
    ensures Find(rg, db, c, key) != OutOfRegion
    ensures Find(rg, db, c, key) == Rejected <==> !KeyInvalid(key) && |Namespaced(c.name, key)| > MAX_KEY_LEN
    ensures Namespaced(c.name, key) in db.index <==> (c.name, key) in w.abs
    ensures (c.name, key) in w.abs ==> RowOk(schemas, db.index, w.heap, (c.name, key), w.abs[(c.name, key)])
    ensures Find(rg, db, c, key).Record? <==>
      (c.name, key) in w.abs && db.index[Namespaced(c.name, key)] < RESERVED_OFFSETS
    ensures Find(rg, db, c, key).Record? ==> Find(rg, db, c, key).offset == db.index[Namespaced(c.name, key)]
  {
    hide KeyInvalid, Namespaced, CatalogKey, ArenaOk, TablesOk;
    BoundKeyIsRow(schemas, db.index, w, c.name, key);
    if (c.name, key) in w.abs {
      assert RowOk(schemas, db.index, w.heap, (c.name, key), w.abs[(c.name, key)]);
      RecordInHeap(rg, db.mem, w.heap, db.index[Namespaced(c.name, key)]);
    }
  }

  /** The proxy `find` returns reads, field by field, the cells of the plain map's row. */
  lemma FindReads(rg: Regions, schemas: map<Text, Schema>, db: Db, w: World, c: Collection, key: Text, n: Text)
    requires WorldOk(rg, schemas, db, w) && c.name in schemas && schemas[c.name] == c.schema
    requires Find(rg, db, c, key).Record? && n in c.schema.fields
    ensures (c.name, key) in w.abs && n in w.abs[(c.name, key)]
    ensures var o := Find(rg, db, c, key).offset;
            var f := c.schema.fields[n];
            o + f.offset + Width(f.typ) <= |db.mem| && CellAt(db.mem, o + f.offset, f.typ) == w.abs[(c.name, key)][n]
  {
    hide Find, ArenaOk, TablesOk, IndexOk, Namespaced, KeyInvalid, CellAt;
    FindHits(rg, schemas, db, w, c, key);
    CellReads(rg, db.mem, w.heap, Find(rg, db, c, key).offset, n);
  }

  /** `load` returns exactly the last saved columns, nothing for other tables, and never a bad record. */
  lemma LoadReads(rg: Regions, schemas: map<Text, Schema>, db: Db, w: World, table: Text)
    requires WorldOk(rg, schemas, db, w)
    ensures CatalogKey(table) in db.index <==> table in w.tables
    ensures LoadCatalog(db, table) ==
      if !TableNameOk(table) then BadName
      else if table in w.tables && db.index[CatalogKey(table)] < RESERVED_OFFSETS
      then Loads(Catalog.AsDecodedAll(w.tables[table])) else NoRecord
  {
    hide HeapOk, IndexOk, Catalog.EncodeCatalog, Catalog.DecodeCatalog, CatalogKey, StringBase;
    TableKeyIsTable(rg, schemas, db, w, table);
    if table in w.tables {
      assert TableOk(rg, db.mem, StringBase(rg, db.mem), db.index, table, w.tables[table]);
      LoadsRecord(db, table, w.tables[table]);
    }
  }

  lemma TableKeyIsTable(rg: Regions, schemas: map<Text, Schema>, db: Db, w: World, table: Text)
    requires WorldOk(rg, schemas, db, w)
    ensures CatalogKey(table) in db.index <==> table in w.tables
  {
    hide KeyInvalid, Namespaced, CatalogKey, HeapOk, WellLaid, Catalog.EncodeCatalog, Admitted, StringBase;
    var k := CatalogKey(table);
    if table in w.tables {
      assert TableOk(rg, db.mem, StringBase(rg, db.mem), db.index, table, w.tables[table]);
    }
    if k in db.index {
      if nk :| nk in w.abs && k == Namespaced(nk.0, nk.1) {
        assert RowOk(schemas, db.index, w.heap, nk, w.abs[nk]);
        KeysApart(nk.0, nk.1, table);
      } else {
        var t :| t in w.tables && k == CatalogKey(t);
        CatalogKeyInjective(t, table);
      }
    }
  }

  lemma LoadsRecord(db: Db, table: Text, cols: seq<Catalog.Column>)
    requires CatalogKey(table) in db.index && db.index[CatalogKey(table)] + Catalog.EncodedLen(|cols|) <= |db.mem|
    requires Admitted(table, cols) && Catalog.EncodeCatalog(table, cols).Ok?
    requires var o := db.index[CatalogKey(table)];
             db.mem[o..o + Catalog.EncodedLen(|cols|)] == Catalog.EncodeCatalog(table, cols).value
    ensures TableNameOk(table) && db.index[CatalogKey(table)] < RESERVED_OFFSETS ==>
              LoadCatalog(db, table) == Loads(Catalog.AsDecodedAll(cols))
  {
    hide CatalogKey, Catalog.EncodeCatalog, Catalog.DecodeCatalog, U32At, U16At;
    var o := db.index[CatalogKey(table)];
    var payload := Catalog.EncodeCatalog(table, cols).value;
    Catalog.DecodeAfterEncodeIff(table, cols);
    HeaderOfEncoded(table, cols);
    HeaderInPlace(db.mem, o, payload);
  }

  lemma HeaderOfEncoded(table: Text, cols: seq<Catalog.Column>)
    requires Catalog.EncodeCatalog(table, cols).Ok? && |Encode(table)| <= 64
    ensures var p := Catalog.EncodeCatalog(table, cols).value;
            |p| >= 8 && U32At(p, 0) == Catalog.CATALOG_REC_MAGIC && U16At(p, 4) == Catalog.CATALOG_REC_VERSION
                && U16At(p, 6) == |cols|
  {
    hide Catalog.Record, Catalog.Header;
    Catalog.EncodeIsRecord(table, cols);
    Catalog.RecordFront(table, cols);
    Catalog.HeaderReads(Catalog.Record(table, cols), |cols|);
  }

  lemma HeaderInPlace(mem: Buffer, o: nat, payload: Buffer)
    requires 8 <= |payload| && o + |payload| <= |mem| && mem[o..o + |payload|] == payload
    ensures U32At(mem, o) == U32At(payload, 0) && U16At(mem, o + 4) == U16At(payload, 4)
    ensures U16At(mem, o + 6) == U16At(payload, 6)
  {
    hide Bytes.Number;
    assert mem[o..o + 4] == payload[0..4];
    assert mem[o + 4] == payload[4] && mem[o + 5] == payload[5] && mem[o + 6] == payload[6] && mem[o + 7] == payload[7];
  }

  // ----- one call

  predicate AssignsFields(call: Call) {
    call.CallInsert? || call.CallUpdate? || call.CallUpsert?
  }

  /** Records stay where they are, with their schemas; new ones may appear. */
  ghost predicate Grows(heap: Heap, heap': Heap) {
    forall o :: o in heap ==> o in heap' && heap'[o].schema == heap[o].schema
  }

  /** How far a call moves the two bump words, and that taken string payloads are never rewritten. */
  ghost predicate BumpsWithin(rg: Regions, db: Db, db': Db, records: nat, strings: nat)
    requires Mapped(rg, db.mem) && Mapped(rg, db'.mem)
  {
    && RecordBase(rg, db.mem) <= RecordBase(rg, db'.mem) <= RecordBase(rg, db.mem) + records
    && StringBase(rg, db.mem) <= StringBase(rg, db'.mem) <= StringBase(rg, db.mem) + strings
    && Agree(db.mem, db'.mem, rg.StringDataStart(), StringBase(rg, db.mem))
  }

  /** A memory-only change below the string bump keeps tables and rows. */
  lemma QuietOk(rg: Regions, schemas: map<Text, Schema>, db: Db, db': Db, w: World)
    requires WorldOk(rg, schemas, db, w) && ArenaOk(rg, db'.mem, w.heap) && db'.index == db.index
    requires StringBase(rg, db.mem) <= StringBase(rg, db'.mem)
    requires Agree(db.mem, db'.mem, rg.StringDataStart(), StringBase(rg, db.mem))
    ensures WorldOk(rg, schemas, db', w)
  {
    hide HeapOk, IndexOk, StringBase, TablesOk;
    TablesBound(rg, db.mem, StringBase(rg, db.mem), db.index, w.tables);
    TablesFrame(rg, db.mem, db'.mem, StringBase(rg, db.mem), StringBase(rg, db'.mem), db.index, db.index, w.tables);
  }

  lemma TablesBound(rg: Regions, mem: Buffer, s: nat, index: map<Buffer, nat>, tables: Tables)
    requires TablesOk(rg, mem, s, index, tables)
    ensures forall t :: t in tables ==> CatalogKey(t) in index
  {
    hide CatalogKey, Catalog.EncodeCatalog, Admitted;
    forall t | t in tables
      ensures CatalogKey(t) in index
    {
      assert TableOk(rg, mem, s, index, t, tables[t]);
    }
  }

  /** A row whose record was rewritten in place. */
  lemma RefillOk(rg: Regions, schemas: map<Text, Schema>, db: Db, db': Db, w: World, nk: (Text, Text), cells: Cells)
    requires WorldOk(rg, schemas, db, w) && nk in w.abs
    requires RowOk(schemas, db.index, w.heap, nk, w.abs[nk])
    requires var o := db.index[Namespaced(nk.0, nk.1)];
             ArenaOk(rg, db'.mem, WithCells(w.heap, o, cells))
    requires db'.index == db.index && StringBase(rg, db.mem) <= StringBase(rg, db'.mem)
    requires Agree(db.mem, db'.mem, rg.StringDataStart(), StringBase(rg, db.mem))
    ensures WorldOk(rg, schemas, db',
        World(WithCells(w.heap, db.index[Namespaced(nk.0, nk.1)], cells), w.abs[nk := cells], w.tables))
  {
    hide HeapOk, TablesOk, KeyInvalid, Namespaced, CatalogKey, WellLaid, StringBase;
    var o := db.index[Namespaced(nk.0, nk.1)];
    assert db.index[Namespaced(nk.0, nk.1) := o] == db.index;
    RowsAfter(schemas, db.index, w, nk, o, cells, WithCells(w.heap, o, cells));
    TablesBound(rg, db.mem, StringBase(rg, db.mem), db.index, w.tables);
    TablesFrame(rg, db.mem, db'.mem, StringBase(rg, db.mem), StringBase(rg, db'.mem), db.index, db.index, w.tables);
  }

  ghost predicate Holds(heap: Heap, o: nat, s: Schema) {
    o in heap && heap[o].schema == s
  }

  lemma RowIs(rg: Regions, schemas: map<Text, Schema>, db: Db, w: World, nk: (Text, Text))
    requires WorldOk(rg, schemas, db, w) && nk in w.abs
    ensures RowOk(schemas, db.index, w.heap, nk, w.abs[nk])
    ensures ArenaOk(rg, db.mem, w.heap) && Mapped(rg, db.mem)
  {
    hide HeapOk, TablesOk;
  }

  /** Filling the record behind a row. */
  lemma FillRowOk(rg: Regions, schemas: map<Text, Schema>, db: Db, w: World, c: Collection, key: Text, data: seq<Entry>)
    returns (w': World)
    requires WorldOk(rg, schemas, db, w) && c.name in schemas && schemas[c.name] == c.schema
    requires (c.name, key) in w.abs
    requires StringBase(rg, db.mem) + EntriesNeed(data) < U32_LIMIT
    ensures Namespaced(c.name, key) in db.index && ProxyFits(rg, db, c.schema, db.index[Namespaced(c.name, key)])
    ensures w.abs[(c.name, key)].Keys == c.schema.fields.Keys
    ensures var f := Fill(rg, db, c.schema, db.index[Namespaced(c.name, key)], data);
            WorldOk(rg, schemas, f.db, w') && BumpsWithin(rg, db, f.db, 0, EntriesNeed(data))
            && w'.abs == w.abs[(c.name, key) := ApplyEntries(c.schema, w.abs[(c.name, key)], data[..f.applied])]
            && w'.tables == w.tables
    ensures Grows(w.heap, w'.heap) && Holds(w'.heap, db.index[Namespaced(c.name, key)], c.schema)
  {
    hide WorldOk, ArenaOk, KeyInvalid, Namespaced, WellLaid, StringBase, RecordBase, Fill, ApplyEntries, EntriesNeed;
    var nk := (c.name, key);
    RowIs(rg, schemas, db, w, nk);
    var o := db.index[Namespaced(c.name, key)];
    FillOk(rg, db, w.heap, o, data);
    var f := Fill(rg, db, c.schema, o, data);
    var cells := ApplyEntries(c.schema, w.abs[nk], data[..f.applied]);
    w' := World(WithCells(w.heap, o, cells), w.abs[nk := cells], w.tables);
    RefillOk(rg, schemas, db, f.db, w, nk, cells);
  }

  /** Binding a fresh, zeroed record to a key. */
  lemma BindRowOk(rg: Regions, schemas: map<Text, Schema>, db: Db, w: World, taken: Db, c: Collection, key: Text)
    returns (w': World)
    requires WorldOk(rg, schemas, db, w) && c.name in schemas && schemas[c.name] == c.schema
    requires !KeyInvalid(key) && |Namespaced(c.name, key)| <= MAX_KEY_LEN
    requires var stride := AlignUp(c.schema.totalSize, RECORD_ALIGNMENT);
             RecordBase(rg, db.mem) + stride < U32_LIMIT && RecordBase(rg, db.mem) + stride <= rg.RecordEnd()
             && taken == db.(mem := TakeRecord(rg, db.mem, stride))
    ensures var bound := taken.(index := taken.index[Namespaced(c.name, key) := RecordBase(rg, db.mem)]);
            WorldOk(rg, schemas, bound, w')
    ensures w'.abs == w.abs[(c.name, key) := ZeroCells(c.schema)] && w'.tables == w.tables
    ensures RecordBase(rg, db.mem) !in w.heap
    ensures w'.heap == w.heap[RecordBase(rg, db.mem) := Rec(c.schema, ZeroCells(c.schema))]
  {
    hide TableOk, KeyInvalid, Namespaced, CatalogKey, StringBase, CellsOk;
    var r0, s := RecordBase(rg, db.mem), c.schema;
    var k := Namespaced(c.name, key);
    TakeRecordOk(rg, db.mem, AlignUp(s.totalSize, RECORD_ALIGNMENT), w.heap);
    forall o | o in w.heap
      ensures o + w.heap[o].schema.totalSize <= r0 && o < r0
    {
      assert RecPlaced(rg, r0, o, w.heap[o]);
    }
    FreshRecordOk(rg, taken.mem, r0, w.heap, s);
    var heap' := w.heap[r0 := Rec(s, ZeroCells(s))];
    w' := World(heap', w.abs[(c.name, key) := ZeroCells(s)], w.tables);
    forall a | a in w.abs && a != (c.name, key) && Namespaced(a.0, a.1) in db.index
      ensures db.index[Namespaced(a.0, a.1)] != r0
    {
      assert RowOk(schemas, db.index, w.heap, a, w.abs[a]);
    }
    RowsAfter(schemas, db.index, w, (c.name, key), r0, ZeroCells(s), heap');
    BindKeepsTables(rg, schemas, db, w, taken.mem, c.name, key, r0);
  }

  lemma BindKeepsTables(rg: Regions, schemas: map<Text, Schema>, db: Db, w: World, mem': Buffer, name: Text, key: Text,
                        o: nat)
    requires WorldOk(rg, schemas, db, w) && name in schemas && Mapped(rg, mem')
    requires StringBase(rg, mem') == StringBase(rg, db.mem)
    requires Agree(db.mem, mem', rg.StringDataStart(), StringBase(rg, db.mem))
    ensures TablesOk(rg, mem', StringBase(rg, mem'), db.index[Namespaced(name, key) := o], w.tables)
  {
    hide HeapOk, IndexOk, Namespaced, CatalogKey, StringBase, WellLaid, Catalog.EncodeCatalog, Admitted;
    forall t | t in w.tables
      ensures CatalogKey(t) in db.index && CatalogKey(t) != Namespaced(name, key)
    {
      assert TableOk(rg, db.mem, StringBase(rg, db.mem), db.index, t, w.tables[t]);
      KeysApart(name, key, t);
    }
    TablesFrame(rg, db.mem, mem', StringBase(rg, db.mem), StringBase(rg, mem'), db.index,
      db.index[Namespaced(name, key) := o], w.tables);
  }

  lemma InsertOk(rg: Regions, schemas: map<Text, Schema>, db: Db, w: World, call: Call) returns (w': World)
    requires WorldOk(rg, schemas, db, w) && call.CallInsert? && CallOk(schemas, call)
    requires RecordBase(rg, db.mem) + RecordNeed(call) < U32_LIMIT
    requires StringBase(rg, db.mem) + StringSpace(call) < U32_LIMIT
    ensures var (db', rep) := Step(rg, db, call);
            WorldOk(rg, schemas, db', w') && BumpsWithin(rg, db, db', RecordNeed(call), StringSpace(call))
            && w'.abs == AbsAfter(w.abs, call, rep) && w'.tables == w.tables
            && Grows(w.heap, w'.heap) && (rep.record.Some? ==> Holds(w'.heap, rep.record.value, call.c.schema))
  {
    hide WorldOk, HeapOk, AlignUp, ZeroCells, KeyInvalid, Namespaced, StringBase, RecordBase, TakeRecord, Fill,
      ApplyEntries, EntriesNeed, WellLaid;
    assert ArenaOk(rg, db.mem, w.heap) && Mapped(rg, db.mem) by { WorldIsArena(rg, schemas, db, w); }
    var c, key, data := call.c, call.key, call.data;
    var stride := AlignUp(c.schema.totalSize, RECORD_ALIGNMENT);
    var base := RecordBase(rg, db.mem);
    w' := w;
    if !KeyInvalid(key) {
      var taken := db.(mem := TakeRecord(rg, db.mem, stride));
      TakenIsQuiet(rg, schemas, db, w, stride);
      if base + stride <= rg.RecordEnd() && |Namespaced(c.name, key)| <= MAX_KEY_LEN && call.indexRc == 0 {
        var w1 := BindRowOk(rg, schemas, db, w, taken, c, key);
        var bound := taken.(index := taken.index[Namespaced(c.name, key) := base]);
        w' := FillRowOk(rg, schemas, bound, w1, c, key, data);
        var s := StringBase(rg, db.mem);
        AgreeChain(db.mem, bound.mem, Step(rg, db, call).0.mem, rg.StringDataStart(), s, s);
        assert w1.abs[(c.name, key)] == ZeroCells(c.schema);
      }
    }
  }

  lemma WorldIsArena(rg: Regions, schemas: map<Text, Schema>, db: Db, w: World)
    requires WorldOk(rg, schemas, db, w)
    ensures ArenaOk(rg, db.mem, w.heap) && Mapped(rg, db.mem)
  {
    hide HeapOk;
  }

  lemma TakenIsQuiet(rg: Regions, schemas: map<Text, Schema>, db: Db, w: World, stride: nat)
    requires WorldOk(rg, schemas, db, w) && RecordBase(rg, db.mem) + stride < U32_LIMIT
    ensures var taken := db.(mem := TakeRecord(rg, db.mem, stride));
            WorldOk(rg, schemas, taken, w)
            && RecordBase(rg, taken.mem) == RecordBase(rg, db.mem) + stride
                && StringBase(rg, taken.mem) == StringBase(rg, db.mem)
            && Agree(db.mem, taken.mem, rg.StringDataStart(), StringBase(rg, db.mem))
  {
    hide HeapOk, IndexOk, StringBase, RecordBase, TablesOk;
    TakeRecordOk(rg, db.mem, stride, w.heap);
    QuietOk(rg, schemas, db, db.(mem := TakeRecord(rg, db.mem, stride)), w);
  }

  lemma UpdateOk(rg: Regions, schemas: map<Text, Schema>, db: Db, w: World, call: Call) returns (w': World)
    requires WorldOk(rg, schemas, db, w) && call.CallUpdate? && CallOk(schemas, call)
    requires StringBase(rg, db.mem) + StringSpace(call) < U32_LIMIT
    ensures var (db', rep) := Step(rg, db, call);
            WorldOk(rg, schemas, db', w') && BumpsWithin(rg, db, db', 0, StringSpace(call))
            && w'.abs == AbsAfter(w.abs, call, rep) && w'.tables == w.tables
            && Grows(w.heap, w'.heap) && (rep.record.Some? ==> Holds(w'.heap, rep.record.value, call.c.schema))
  {
    hide WorldOk, KeyInvalid, Namespaced, StringBase, RecordBase, Fill, ApplyEntries, EntriesNeed, WellLaid, Find;
    WorldIsArena(rg, schemas, db, w);
    FindHits(rg, schemas, db, w, call.c, call.key);
    w' := w;
    if Find(rg, db, call.c, call.key).Record? {
      w' := FillRowOk(rg, schemas, db, w, call.c, call.key, call.data);
    }
  }

  lemma UpsertOk(rg: Regions, schemas: map<Text, Schema>, db: Db, w: World, call: Call) returns (w': World)
    requires WorldOk(rg, schemas, db, w) && call.CallUpsert? && CallOk(schemas, call)
    requires RecordBase(rg, db.mem) + RecordNeed(call) < U32_LIMIT
    requires StringBase(rg, db.mem) + StringSpace(call) < U32_LIMIT
    ensures var (db', rep) := Step(rg, db, call);
            WorldOk(rg, schemas, db', w') && BumpsWithin(rg, db, db', RecordNeed(call), StringSpace(call))
            && w'.abs == AbsAfter(w.abs, call, rep) && w'.tables == w.tables
            && Grows(w.heap, w'.heap) && (rep.record.Some? ==> Holds(w'.heap, rep.record.value, call.c.schema))
  {
    hide WorldOk, Insert, Update, StringBase, RecordBase, Find;
    WorldIsArena(rg, schemas, db, w);
    if Find(rg, db, call.c, call.key) == Absent {
      w' := InsertOk(rg, schemas, db, w, CallInsert(call.c, call.key, call.data, call.indexRc));
    } else {
      w' := UpdateOk(rg, schemas, db, w, CallUpdate(call.c, call.key, call.data));
    }
  }

  lemma DeleteOk(rg: Regions, schemas: map<Text, Schema>, db: Db, w: World, call: Call) returns (w': World)
    requires WorldOk(rg, schemas, db, w) && call.CallDelete? && CallOk(schemas, call)
    ensures var (db', rep) := Step(rg, db, call);
            WorldOk(rg, schemas, db', w') && BumpsWithin(rg, db, db', 0, 0)
            && w'.abs == AbsAfter(w.abs, call, rep) && w'.tables == w.tables && w'.heap == w.heap
  {
    hide ArenaOk, KeyInvalid, Namespaced, StringBase, RecordBase, CatalogKey, WellLaid, TableOk;
    WorldIsArena(rg, schemas, db, w);
    var k := Namespaced(call.c.name, call.key);
    w' := w;
    BoundKeyIsRow(schemas, db.index, w, call.c.name, call.key);
    if Step(rg, db, call).1.removed {
      w' := w.(abs := w.abs - {(call.c.name, call.key)});
      UnbindIndexOk(schemas, db.index, w, call.c.name, call.key);
      UnbindTablesOk(rg, schemas, db, w, call.c.name, call.key);
    } else if Step(rg, db, call).1.outcome == Done {
      assert db.index - {k} == db.index;
    }
  }

  lemma UnbindIndexOk(schemas: map<Text, Schema>, index: map<Buffer, nat>, w: World, name: Text, key: Text)
    requires SchemasOk(schemas) && IndexOk(schemas, index, w) && name in schemas
    ensures IndexOk(schemas, index - {Namespaced(name, key)}, w.(abs := w.abs - {(name, key)}))
  {
    hide KeyInvalid, Namespaced, CatalogKey, WellLaid, Accounted;
    var index', w' := index - {Namespaced(name, key)}, w.(abs := w.abs - {(name, key)});
    forall a | a in w'.abs
      ensures RowOk(schemas, index', w.heap, a, w'.abs[a])
    {
      assert RowOk(schemas, index, w.heap, a, w.abs[a]);
      KeysDiffer(schemas, a, (name, key));
    }
    AccountedWithout(index, w, name, key);
  }

  lemma AccountedWithout(index: map<Buffer, nat>, w: World, name: Text, key: Text)
    requires Accounted(index, w)
    ensures Accounted(index - {Namespaced(name, key)}, w.(abs := w.abs - {(name, key)}))
  {
    hide Namespaced, CatalogKey;
    var index', w' := index - {Namespaced(name, key)}, w.(abs := w.abs - {(name, key)});
    forall j | j in index'
      ensures (exists a :: a in w'.abs && j == Namespaced(a.0, a.1))
          || (exists t :: t in w.tables && j == CatalogKey(t))
    {
      if a :| a in w.abs && j == Namespaced(a.0, a.1) {
        assert a in w'.abs;
      }
    }
  }

  lemma UnbindTablesOk(rg: Regions, schemas: map<Text, Schema>, db: Db, w: World, name: Text, key: Text)
    requires WorldOk(rg, schemas, db, w) && name in schemas
    ensures TablesOk(rg, db.mem, StringBase(rg, db.mem), db.index - {Namespaced(name, key)}, w.tables)
  {
    hide HeapOk, IndexOk, Namespaced, CatalogKey, StringBase, WellLaid, Catalog.EncodeCatalog, Admitted;
    forall t | t in w.tables
      ensures CatalogKey(t) in db.index && CatalogKey(t) != Namespaced(name, key)
    {
      assert TableOk(rg, db.mem, StringBase(rg, db.mem), db.index, t, w.tables[t]);
      KeysApart(name, key, t);
    }
    TablesFrame(rg, db.mem, db.mem, StringBase(rg, db.mem), StringBase(rg, db.mem), db.index,
      db.index - {Namespaced(name, key)}, w.tables);
  }

  /** Publishing a payload at the string bump: quiet, and the payload stays where it was put. */
  lemma PublishedIsQuiet(rg: Regions, schemas: map<Text, Schema>, db: Db, w: World, payload: Buffer, rc: int)
    requires WorldOk(rg, schemas, db, w)
    requires StringBase(rg, db.mem) + |payload| < U32_LIMIT
    ensures var taken := db.(mem := TakeString(rg, db.mem, |payload|));
            WorldOk(rg, schemas, taken, w)
            && StringBase(rg, taken.mem) == StringBase(rg, db.mem) + |payload|
                && RecordBase(rg, taken.mem) == RecordBase(rg, db.mem)
            && Agree(db.mem, taken.mem, rg.StringDataStart(), StringBase(rg, db.mem))
    ensures StringBase(rg, db.mem) + |payload| <= |db.mem| ==>
            var base := StringBase(rg, db.mem);
            var published := Publish(db.(mem := TakeString(rg, db.mem, |payload|)), base, payload, rc);
            WorldOk(rg, schemas, published, w)
            && StringBase(rg, published.mem) == StringBase(rg, db.mem) + |payload|
                && RecordBase(rg, published.mem) == RecordBase(rg, db.mem)
            && published.mem[StringBase(rg, db.mem)..StringBase(rg, db.mem) + |payload|] == payload
            && Agree(db.mem, published.mem, rg.StringDataStart(), StringBase(rg, db.mem))
  {
    hide HeapOk, IndexOk, StringBase, RecordBase, TakeString, TablesOk;
    var taken := db.(mem := TakeString(rg, db.mem, |payload|));
    TakeStringOk(rg, db.mem, |payload|, w.heap);
    AgreeShrinks(db.mem, taken.mem, rg.StringDataStart(), rg.arenaBytes, StringBase(rg, db.mem));
    QuietOk(rg, schemas, db, taken, w);
    if StringBase(rg, db.mem) + |payload| <= |db.mem| {
      PayloadOk(rg, db.mem, taken.mem, |payload|, payload, w.heap);
      PutRead(taken.mem, StringBase(rg, db.mem), payload);
      QuietOk(rg, schemas, db, Publish(taken, StringBase(rg, db.mem), payload, rc), w);
    }
  }

  lemma AgreeShrinks(m: Buffer, m': Buffer, a: int, b: int, c: int)
    requires Agree(m, m', a, b) && |m| <= b
    ensures Agree(m, m', a, c)
  {
  }

  lemma SaveOk(rg: Regions, schemas: map<Text, Schema>, db: Db, w: World, call: Call) returns (w': World)
    requires WorldOk(rg, schemas, db, w) && call.CallSave? && CallOk(schemas, call)
    requires StringBase(rg, db.mem) + StringSpace(call) < U32_LIMIT
    ensures var (db', rep) := Step(rg, db, call);
            WorldOk(rg, schemas, db', w') && BumpsWithin(rg, db, db', 0, StringSpace(call))
            && w'.abs == w.abs && w'.tables == TablesAfter(w.tables, call, rep) && w'.heap == w.heap
  {
    hide WorldOk, StringBase, RecordBase, CatalogKey, Publish, TakeString, Catalog.EncodeCatalog, Admitted;
    WorldIsArena(rg, schemas, db, w);
    w' := w;
    if Catalog.EncodeCatalog(call.table, call.cols).Ok? {
      var payload := Catalog.EncodeCatalog(call.table, call.cols).value;
      var base := StringBase(rg, db.mem);
      var taken := db.(mem := TakeString(rg, db.mem, |payload|));
      PublishedIsQuiet(rg, schemas, db, w, payload, call.notify);
      if base + |payload| <= rg.arenaBytes && Step(rg, db, call).1.outcome == Done {
        var published := Publish(taken, base, payload, call.notify);
        w' := w.(tables := w.tables[call.table := call.cols]);
        assert WorldOk(rg, schemas, published, w);
        assert published.mem[base..base + |payload|] == payload;
        WorldIsArena(rg, schemas, published, w);
        ArenaBounds(rg, db.mem, w.heap);
        BindTableOk(rg, schemas, published, w, call.table, call.cols, base);
      }
    }
  }

  lemma ArenaBounds(rg: Regions, mem: Buffer, heap: Heap)
    requires ArenaOk(rg, mem, heap)
    ensures rg.StringDataStart() <= StringBase(rg, mem) && rg.recordStart <= RecordBase(rg, mem)
  {
  }

  lemma BindTableIndexOk(schemas: map<Text, Schema>, index: map<Buffer, nat>, w: World, table: Text,
                         cols: seq<Catalog.Column>, o: nat)
    requires SchemasOk(schemas) && IndexOk(schemas, index, w)
    ensures IndexOk(schemas, index[CatalogKey(table) := o], w.(tables := w.tables[table := cols]))
  {
    hide KeyInvalid, Namespaced, CatalogKey, WellLaid;
    var index', w' := index[CatalogKey(table) := o], w.(tables := w.tables[table := cols]);
    forall a | a in w'.abs
      ensures RowOk(schemas, index', w.heap, a, w.abs[a]) && Namespaced(a.0, a.1) != CatalogKey(table)
    {
      assert RowOk(schemas, index, w.heap, a, w.abs[a]);
      KeysApart(a.0, a.1, table);
    }
    forall j | j in index'
      ensures (exists a :: a in w'.abs && j == Namespaced(a.0, a.1))
          || (exists t :: t in w'.tables && j == CatalogKey(t))
    {
      if j == CatalogKey(table) {
        assert table in w'.tables;
      } else if t :| t in w.tables && j == CatalogKey(t) {
        assert t in w'.tables;
      }
    }
  }

  /** Pointing a table's key at an intact record. */
  lemma BindTableOk(rg: Regions, schemas: map<Text, Schema>, db: Db, w: World, table: Text, cols: seq<Catalog.Column>,
                    o: nat)
    requires WorldOk(rg, schemas, db, w) && Admitted(table, cols) && Catalog.EncodeCatalog(table, cols).Ok?
    requires var payload := Catalog.EncodeCatalog(table, cols).value;
             Mapped(rg, db.mem) && rg.StringDataStart() <= o && o + |payload| <= StringBase(rg, db.mem)
             && o + |payload| <= |db.mem| && db.mem[o..o + |payload|] == payload
    ensures WorldOk(rg, schemas, db.(index := db.index[CatalogKey(table) := o]), w.(tables := w.tables[table := cols]))
  {
    hide HeapOk, IndexOk, CatalogKey, StringBase, WellLaid, Catalog.EncodeCatalog, Admitted;
    var index', tables' := db.index[CatalogKey(table) := o], w.tables[table := cols];
    forall t | t in tables'
      ensures TableOk(rg, db.mem, StringBase(rg, db.mem), index', t, tables'[t])
    {
      if t != table {
        assert TableOk(rg, db.mem, StringBase(rg, db.mem), db.index, t, w.tables[t]);
        if CatalogKey(t) == CatalogKey(table) { CatalogKeyInjective(t, table); }
      }
    }
    BindTableIndexOk(schemas, db.index, w, table, cols, o);
  }

  lemma ForeignOk(rg: Regions, schemas: map<Text, Schema>, db: Db, w: World, call: Call)
    requires WorldOk(rg, schemas, db, w) && call.Foreign?
    requires StringBase(rg, db.mem) + |call.payload| < U32_LIMIT
    ensures var (db', rep) := Step(rg, db, call);
            WorldOk(rg, schemas, db', w) && BumpsWithin(rg, db, db', 0, |call.payload|)
  {
    hide WorldOk, StringBase, RecordBase, Publish, TakeString;
    WorldIsArena(rg, schemas, db, w);
    PublishedIsQuiet(rg, schemas, db, w, call.payload, call.rc);
  }

  /**
   One call, however it ends: the relation is kept, and the plain maps move by
   exactly what the call reports.
   */
  lemma StepOk(rg: Regions, schemas: map<Text, Schema>, db: Db, w: World, call: Call) returns (w': World)
    requires WorldOk(rg, schemas, db, w) && CallOk(schemas, call)
    requires RecordBase(rg, db.mem) + RecordNeed(call) < U32_LIMIT
    requires StringBase(rg, db.mem) + StringSpace(call) < U32_LIMIT
    ensures var (db', rep) := Step(rg, db, call);
            WorldOk(rg, schemas, db', w') && BumpsWithin(rg, db, db', RecordNeed(call), StringSpace(call))
            && w'.abs == AbsAfter(w.abs, call, rep) && w'.tables == TablesAfter(w.tables, call, rep)
            && Grows(w.heap, w'.heap)
            && (AssignsFields(call) && rep.record.Some? ==> Holds(w'.heap, rep.record.value, call.c.schema))
  {
    hide WorldOk, StringBase, RecordBase, Insert, Update, Upsert, Delete, SaveCatalog, ForeignWrite, WellLaid;
    WorldIsArena(rg, schemas, db, w);
    match call
    case CallInsert(_, _, _, _) => w' := InsertOk(rg, schemas, db, w, call);
    case CallUpdate(_, _, _) => w' := UpdateOk(rg, schemas, db, w, call);
    case CallUpsert(_, _, _, _) => w' := UpsertOk(rg, schemas, db, w, call);
    case CallDelete(_, _, _) => w' := DeleteOk(rg, schemas, db, w, call);
    case CallSave(_, _, _, _) => w' := SaveOk(rg, schemas, db, w, call);
    case Foreign(_, _) => w' := w; ForeignOk(rg, schemas, db, w, call);
  }

  // ----- runs

  /** The plain map after a run, moved call by call. */
  function AbsRun(rg: Regions, db: Db, abs: Abs, calls: seq<Call>): Abs
    requires Mapped(rg, db.mem) && forall i :: 0 <= i < |calls| ==> CallFits(calls[i])
    decreases |calls|
  {
    if calls == [] then abs
    else
      var r := Step(rg, db, calls[0]);
      AbsRun(rg, r.0, AbsAfter(abs, calls[0], r.1), calls[1..])
  }

  function TablesRun(rg: Regions, db: Db, tables: Tables, calls: seq<Call>): Tables
    requires Mapped(rg, db.mem) && forall i :: 0 <= i < |calls| ==> CallFits(calls[i])
    decreases |calls|
  {
    if calls == [] then tables
    else
      var r := Step(rg, db, calls[0]);
      TablesRun(rg, r.0, TablesAfter(tables, calls[0], r.1), calls[1..])
  }

  function TotalRecords(calls: seq<Call>): nat {
    if calls == [] then 0 else RecordNeed(calls[0]) + TotalRecords(calls[1..])
  }

  function TotalStrings(calls: seq<Call>): nat {
    if calls == [] then 0 else StringSpace(calls[0]) + TotalStrings(calls[1..])
  }

  ghost predicate RunOk(schemas: map<Text, Schema>, calls: seq<Call>) {
    forall i :: 0 <= i < |calls| ==> CallOk(schemas, calls[i])
  }

  /** What a run asks for stays below the wrap of the two 32-bit bump words. */
  ghost predicate NoWrap(rg: Regions, db: Db, calls: seq<Call>)
    requires Mapped(rg, db.mem)
  {
    RecordBase(rg, db.mem) + TotalRecords(calls) < U32_LIMIT && StringBase(rg, db.mem) + TotalStrings(calls) < U32_LIMIT
  }

  /**
   Every run of calls, with any failures and refusals on the way, keeps the
   relation between bytes and plain maps.
   */
  lemma {:induction false} RunKeeps(rg: Regions, schemas: map<Text, Schema>, db: Db, w: World, calls: seq<Call>)
    returns (w': World)
    requires WorldOk(rg, schemas, db, w) && RunOk(schemas, calls)
    requires Mapped(rg, db.mem) && NoWrap(rg, db, calls)
    ensures WorldOk(rg, schemas, Run(rg, db, calls), w')
    ensures w'.abs == AbsRun(rg, db, w.abs, calls) && w'.tables == TablesRun(rg, db, w.tables, calls)
    decreases |calls|
  {
    hide WorldOk, StringBase, RecordBase, Step, AbsAfter, TablesAfter, CallFits, RecordNeed, StringSpace;
    if calls == [] {
      w' := w;
    } else {
      assert CallOk(schemas, calls[0]);
      var db' := Step(rg, db, calls[0]).0;
      var w1 := StepOk(rg, schemas, db, w, calls[0]);
      w' := RunKeeps(rg, schemas, db', w1, calls[1..]);
    }
  }

  /**
   An arena no client has used: no keys and zeroed records. Each bump word may be
   zero, seeded, or anywhere above its seed; index, strings and ring hold anything.
   */
  ghost predicate Untouched(rg: Regions, db: Db) {
    && Mapped(rg, db.mem) && db.index == map[] && db.sent == []
    && rg.recordStart <= RecordBase(rg, db.mem) && rg.StringDataStart() <= StringBase(rg, db.mem)
    && (forall x :: rg.recordStart <= x < rg.RecordEnd() ==> db.mem[x] == 0)
  }

  lemma UntouchedOk(rg: Regions, schemas: map<Text, Schema>, db: Db)
    requires Untouched(rg, db) && SchemasOk(schemas)
    ensures WorldOk(rg, schemas, db, World(map[], map[], map[])) && Mapped(rg, db.mem)
  {
    hide RecordBase, StringBase;
  }

  /**
   The store refines a plain map: after any run on an untouched arena, `find`
   returns a record exactly for the keys the plain map holds (and whose offset is
   not reserved), and each of its fields reads the plain map's cell.
   */
  lemma FindAfterRun(rg: Regions, schemas: map<Text, Schema>, db: Db, calls: seq<Call>, c: Collection, key: Text)
    requires Untouched(rg, db) && SchemasOk(schemas) && RunOk(schemas, calls)
    requires NoWrap(rg, db, calls)
    requires c.name in schemas && schemas[c.name] == c.schema
    ensures Mapped(rg, db.mem)
    ensures var db' := Run(rg, db, calls);
            var abs := AbsRun(rg, db, map[], calls);
            && (Find(rg, db', c, key).Record? ==> (c.name, key) in abs)
            && ((c.name, key) in abs ==>
                  Namespaced(c.name, key) in db'.index
                  && (Find(rg, db', c, key).Record? <==> db'.index[Namespaced(c.name, key)] < RESERVED_OFFSETS))
            && (Find(rg, db', c, key).Record? ==> forall n :: n in c.schema.fields ==>
                  var f := c.schema.fields[n];
                  var at := Find(rg, db', c, key).offset + f.offset;
                  n in abs[(c.name, key)] && at + Width(f.typ) <= |db'.mem|
                      && CellAt(db'.mem, at, f.typ) == abs[(c.name, key)][n])
  {
    hide WorldOk, Find, Run, AbsRun, TotalRecords, TotalStrings, StringBase, RecordBase, CellAt, CallFits, Untouched,
      Namespaced, KeyInvalid, SchemasOk;
    UntouchedOk(rg, schemas, db);
    var w := RunKeeps(rg, schemas, db, World(map[], map[], map[]), calls);
    var db' := Run(rg, db, calls);
    FindHits(rg, schemas, db', w, c, key);
    RowInWorld(rg, schemas, db', w, (c.name, key));
    if Find(rg, db', c, key).Record? {
      forall n | n in c.schema.fields
        ensures var f := c.schema.fields[n];
                var at := Find(rg, db', c, key).offset + f.offset;
                n in w.abs[(c.name, key)] && at + Width(f.typ) <= |db'.mem|
                    && CellAt(db'.mem, at, f.typ) == w.abs[(c.name, key)][n]
      {
        FindReads(rg, schemas, db', w, c, key, n);
      }
    }
  }

  lemma RowInWorld(rg: Regions, schemas: map<Text, Schema>, db: Db, w: World, nk: (Text, Text))
    requires WorldOk(rg, schemas, db, w)
    ensures nk in w.abs ==> Namespaced(nk.0, nk.1) in db.index
  {
    hide HeapOk, TablesOk, KeyInvalid;
    if nk in w.abs { RowIs(rg, schemas, db, w, nk); }
  }

  /**
   Catalog records share the string bump word with every string assignment, yet
   after any run `load` returns exactly the last saved column list, or nothing,
   and never reports a bad record.
   */
  lemma LoadAfterRun(rg: Regions, schemas: map<Text, Schema>, db: Db, calls: seq<Call>, table: Text)
    requires Untouched(rg, db) && SchemasOk(schemas) && RunOk(schemas, calls)
    requires NoWrap(rg, db, calls)
    ensures Mapped(rg, db.mem)
    ensures var db' := Run(rg, db, calls);
            var tables := TablesRun(rg, db, map[], calls);
            && (CatalogKey(table) in db'.index <==> table in tables)
            && LoadCatalog(db', table) ==
                 if !TableNameOk(table) then BadName
                 else if table in tables && db'.index[CatalogKey(table)] < RESERVED_OFFSETS
                 then Loads(Catalog.AsDecodedAll(tables[table])) else NoRecord
  {
    hide WorldOk, LoadCatalog, CatalogKey, Run, TablesRun, TotalRecords, TotalStrings, StringBase, RecordBase, CallFits,
      Untouched;
    UntouchedOk(rg, schemas, db);
    var w := RunKeeps(rg, schemas, db, World(map[], map[], map[]), calls);
    LoadReads(rg, schemas, Run(rg, db, calls), w, table);
  }

  /** A call moves no row of the plain map but its own, whatever it reports. */
  lemma OtherCellsKept(abs: Abs, call: Call, rep: Report, nk: (Text, Text))
    requires call.CallSave? || call.Foreign? || nk != (call.c.name, call.key)
    ensures nk in AbsAfter(abs, call, rep) <==> nk in abs
    ensures nk in abs ==> AbsAfter(abs, call, rep)[nk] == abs[nk]
  {
    hide ApplyEntries, ZeroCells;
  }

  /** The key whose binding a call may change. */
  function OwnKey(call: Call): Option<Buffer> {
    match call
    case CallSave(table, _, _, _) => Some(CatalogKey(table))
    case Foreign(_, _) => None
    case _ => Some(Namespaced(call.c.name, call.key))
  }

  lemma IndexKept(rg: Regions, db: Db, call: Call, k: Buffer)
    requires Mapped(rg, db.mem) && CallFits(call) && OwnKey(call) != Some(k)
    ensures var db' := Step(rg, db, call).0;
            (k in db'.index <==> k in db.index) && (k in db.index ==> db'.index[k] == db.index[k])
  {
    hide Fill, Find, KeyInvalid, Namespaced, CatalogKey, RecordBase, TakeRecord, StringBase, TakeString, WellLaid,
      AlignUp, Catalog.EncodeCatalog;
  }

  lemma FindByIndex(rg: Regions, db: Db, db': Db, c: Collection, key: Text)
    requires var k := Namespaced(c.name, key);
             (k in db'.index <==> k in db.index) && (k in db.index ==> db'.index[k] == db.index[k])
    ensures Find(rg, db', c, key) == Find(rg, db, c, key)
  {
    hide Namespaced, KeyInvalid;
  }

  lemma OtherKey(schemas: map<Text, Schema>, call: Call, name: Text, key: Text)
    requires SchemasOk(schemas) && CallOk(schemas, call) && name in schemas
    requires call.CallSave? || call.Foreign? || (name, key) != (call.c.name, call.key)
    ensures OwnKey(call) != Some(Namespaced(name, key))
  {
    hide Namespaced, CatalogKey, CallFits, Admitted, WellLaid, NameOk, Collide;
    match call
    case CallSave(table, _, _, _) => KeysApart(name, key, table);
    case Foreign(_, _) =>
    case _ => KeysDiffer(schemas, (call.c.name, call.key), (name, key));
  }

  /** No call, however it ends, changes what `find` answers for any other key or what any field of its record reads. */
  lemma OtherRowsKept(rg: Regions, schemas: map<Text, Schema>, db: Db, w: World, call: Call, c: Collection, key: Text)
    requires WorldOk(rg, schemas, db, w) && CallOk(schemas, call)
    requires RecordBase(rg, db.mem) + RecordNeed(call) < U32_LIMIT
    requires StringBase(rg, db.mem) + StringSpace(call) < U32_LIMIT
    requires c.name in schemas && schemas[c.name] == c.schema
    requires call.CallSave? || call.Foreign? || (c.name, key) != (call.c.name, call.key)
    ensures var db' := Step(rg, db, call).0;
            && Find(rg, db', c, key) == Find(rg, db, c, key)
            && (Find(rg, db, c, key).Record? ==> forall n :: n in c.schema.fields ==>
                  var f := c.schema.fields[n];
                  var at := Find(rg, db, c, key).offset + f.offset;
                  at + Width(f.typ) <= |db.mem| && CellAt(db'.mem, at, f.typ) == CellAt(db.mem, at, f.typ))
  {
    hide ArenaOk, IndexOk, TablesOk, Find, Namespaced, StringBase, RecordBase, Step, AbsAfter, CallFits, CellAt,
      SchemasOk, TablesAfter, BumpsWithin;
    WorldIsArena(rg, schemas, db, w);
    var (db', rep) := Step(rg, db, call);
    var w' := StepOk(rg, schemas, db, w, call);
    OtherKey(schemas, call, c.name, key);
    IndexKept(rg, db, call, Namespaced(c.name, key));
    FindByIndex(rg, db, db', c, key);
    OtherCellsKept(w.abs, call, rep, (c.name, key));
    if Find(rg, db, c, key).Record? {
      forall n | n in c.schema.fields
        ensures var f := c.schema.fields[n];
                var at := Find(rg, db, c, key).offset + f.offset;
                at + Width(f.typ) <= |db.mem| && CellAt(db'.mem, at, f.typ) == CellAt(db.mem, at, f.typ)
      {
        FindReads(rg, schemas, db, w, c, key, n);
        FindReads(rg, schemas, db', w', c, key, n);
      }
    }
  }

  /** Reports are honest: success means every entry is in the row, created rows start from zeros. */
  lemma SuccessAppliesAll(rg: Regions, db: Db, call: Call)
    requires Mapped(rg, db.mem) && CallFits(call)
    requires call.CallInsert? || call.CallUpsert? || (call.CallUpdate? && Find(rg, db, call.c, call.key) != Absent)
    requires Step(rg, db, call).1.outcome == Done
    ensures var (_, rep) := Step(rg, db, call);
            rep.record.Some? && rep.applied == |call.data|
            && rep.created == (call.CallInsert? || (call.CallUpsert? && Find(rg, db, call.c, call.key) == Absent))
  {
    hide WellLaid, Find, Fill, RecordBase, TakeRecord, KeyInvalid, Namespaced, StringBase;
  }

  /** Of several entries for one field, the last value wins; a field no entry names keeps its cell. */
  lemma {:induction false} LastValueWins(s: Schema, cells: Cells, data: seq<Entry>, n: Text)
    requires cells.Keys == s.fields.Keys && n in s.fields
    ensures var r := ApplyEntries(s, cells, data);
            (forall i :: 0 <= i < |data| ==> !Assigns(data[i], n)) ==> r[n] == cells[n]
    ensures forall i :: 0 <= i < |data| && Assigns(data[i], n) && (forall j :: i < j < |data| ==> !Assigns(data[j], n))
              ==> ApplyEntries(s, cells, data)[n] == Stored(s.fields[n].typ, data[i].value.value)
    decreases |data|
  {
    hide Stored;
    if data != [] {
      var e := data[0];
      var next := EntryCells(s, cells, e);
      LastValueWins(s, next, data[1..], n);
      forall i | 0 <= i < |data| && Assigns(data[i], n) && (forall j :: i < j < |data| ==> !Assigns(data[j], n))
        ensures ApplyEntries(s, cells, data)[n] == Stored(s.fields[n].typ, data[i].value.value)
      {
        if i == 0 {
          forall j | 0 <= j < |data[1..]|
            ensures !Assigns(data[1..][j], n)
          {
            assert data[1..][j] == data[j + 1];
          }
        } else {
          assert data[1..][i - 1] == data[i];
          forall j | i - 1 < j < |data[1..]|
            ensures !Assigns(data[1..][j], n)
          {
            assert data[1..][j] == data[j + 1];
          }
        }
      }
    }
  }

  predicate Assigns(e: Entry, n: Text) {
    e.name == n && e.value.Some?
  }

  /**
   When a string assignment takes effect, and when it succeeds: it needs a string
   region inside the arena, room for its bytes, an accepted announcement, and at
   least one byte, because a zero-length announcement is refused.
   */
  lemma StringStoredIff(rg: Regions, db: Db, at: nat, t: Text, notify: int, push: int)
    requires Mapped(rg, db.mem) && at + 8 <= |db.mem|
    ensures var a := SetField(rg, db, at, Str, String(t), notify, push);
            && (a.took <==>
                  rg.StringDataStart() < rg.arenaBytes && StringBase(rg, db.mem) + |Encode(t)| <= rg.StringEnd()
                  && t != [] && notify == 0)
            && (a.outcome == Done <==> a.took && push == 0)
  {
    hide StringBase, TakeString, Pointer, Put;
    assert t != [] ==> Encode(t) == EncodeOne(t[0]) + Encode(t[1..]);
  }
}
