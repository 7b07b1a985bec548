/**
 When calls succeed: for each operation on the arena, exactly which inputs and
 engine answers bind or unbind a key, move a counter, or end without a throw.
 */
module CallOutcome {
  import opened Bytes
  import opened Options
  import opened Utf8
  import opened Layout
  import opened RecordSchema
  import opened ArenaModel
  import opened ArenaHeap
  import opened ArenaRefinement
  import opened PlainStore

  /** An entry that is skipped, or that its field and the engine accept, space aside. */
  predicate EntryFine(rg: Regions, s: Schema, e: Entry) {
    e.value.Some? && e.name in s.fields ==>
      var v := e.value.value;
      if s.fields[e.name].typ == Str then
        v.String? && v.text != [] && rg.stringStart + 8 < rg.arenaBytes && e.notify == 0 && e.push == 0
      else
        Accepts(s.fields[e.name].typ, v) && e.push == 0
  }

  /** The UTF-8 bytes the entries store. */
  function TextBytes(s: Schema, data: seq<Entry>): nat {
    if data == [] then 0
    else
      var e := data[0];
      (if e.value.Some? && e.name in s.fields && s.fields[e.name].typ == Str && e.value.value.String?
       then |Encode(e.value.value.text)| else 0) + TextBytes(s, data[1..])
  }

  /** Each entry is fine and their texts together fit the string region. */
  predicate AllFine(rg: Regions, s: Schema, sb: nat, data: seq<Entry>) {
    && (forall i :: 0 <= i < |data| ==> EntryFine(rg, s, data[i]))
    && (TextBytes(s, data) > 0 ==> sb + TextBytes(s, data) <= rg.stringStart + rg.stringBytes)
  }

  lemma {:induction false} AllAssignedIff(rg: Regions, s: Schema, base: nat, sb: nat, data: seq<Entry>)
    ensures Assignments(rg, s, base, sb, data).outcome == Done <==> AllFine(rg, s, sb, data)
    decreases |data|
  {
    hide EntryEffect, EntryFine;
    if data != [] {
      var e := EntryEffect(rg, s, base, sb, data[0]);
      FirstAssignedIff(rg, s, base, sb, data[0], data[1..]);
      AllAssignedIff(rg, s, base, e.strings, data[1..]);
      assert forall i :: 0 < i < |data| ==> data[i] == data[1..][i - 1];
      assert [data[0]] + data[1..] == data;
    }
  }

  lemma FirstAssignedIff(rg: Regions, s: Schema, base: nat, sb: nat, e: Entry, rest: seq<Entry>)
    ensures var f, n := EntryEffect(rg, s, base, sb, e), TextBytes(s, [e] + rest) - TextBytes(s, rest);
            && n >= 0
            && (f.outcome == Done <==>
                  EntryFine(rg, s, e) && (n > 0 ==> sb + n <= rg.stringStart + rg.stringBytes))
            && (f.outcome == Done ==> f.strings == sb + n)
  {
    hide Encode, U32Bytes;
    assert ([e] + rest)[1..] == rest;
    if e.value.Some? && e.value.value.String? {
      Catalog.EncodeLengthBound(e.value.value.text);
    }
  }

  /**
   Insert: the key is bound, to the next record offset, exactly when it is valid,
   the record fits, the full key is short enough and the index takes it; the call
   succeeds exactly when all entries are assigned as well. Any nonzero answer of
   the index throws and leaves the index alone, with the record space gone.
   */
  lemma InsertOutcome(rg: Regions, schemas: map<Text, Schema>, db: Db, w: World, call: Call)
    requires WorldOk(rg, schemas, db, w) && call.CallInsert? && CallOk(schemas, call)
    requires RecordBase(rg, db.mem) + RecordNeed(call) < U32_LIMIT
    requires StringBase(rg, db.mem) + StringSpace(call) < U32_LIMIT
    ensures var ((db', rep), c, key, data) := (Step(rg, db, call), call.c, call.key, call.data);
            var k, base, sb := Namespaced(c.name, key), RecordBase(rg, db.mem), StringBase(rg, db.mem);
            var next := base + AlignUp(c.schema.totalSize, 8);
            var room := next <= rg.recordStart + rg.recordBytes && |k| <= 256;
            && (rep.created <==> KeyAdmitted(key) && room && call.indexRc == 0)
            && (rep.created ==> db'.index == db.index[k := base] && rep.record == Some(base))
            && (!rep.created ==> db'.index == db.index && rep.record.None? && rep.outcome.Threw? && db'.sent == db.sent)
            && (rep.outcome == Done <==> rep.created && AllFine(rg, c.schema, sb, data))
            && (rep.outcome == Threw(IndexBackpressure) <==> KeyAdmitted(key) && room && call.indexRc == -2)
            && (!KeyAdmitted(key) ==> db' == db && rep.outcome == Threw(InvalidKey))
            && (KeyAdmitted(key) ==> RecordBase(rg, db'.mem) == next)
  {
    hide WorldOk, HeapOk, AlignUp, KeyInvalid, KeyAdmitted, Namespaced, StringBase, RecordBase, TakeRecord, Fill,
      Assignments, EntriesNeed, WellLaid, AllFine, Stands, StateOf;
    StateStands(rg, schemas, db, w);
    WorldIsArena(rg, schemas, db, w);
    KeyAdmittedIff(call.key);
    InsertMeans(rg, schemas, db, w, StateOf(rg, db, w), call);
    KeyFitsIff(call.c.name, call.key);
    IndexMeans(rg, db, call);
    AllAssignedIff(rg, call.c.schema, RecordBase(rg, db.mem), StringBase(rg, db.mem), call.data);
    EndingFaults(rg, call.c.schema, RecordBase(rg, db.mem), StringBase(rg, db.mem), call.data);
  }

  /** Assignments never throw the index's own faults. */
  lemma {:induction false} EndingFaults(rg: Regions, s: Schema, base: nat, sb: nat, data: seq<Entry>)
    ensures Assignments(rg, s, base, sb, data).outcome != Threw(IndexBackpressure)
    decreases |data|
  {
    hide Encode, U32Bytes;
    if data != [] { EndingFaults(rg, s, base, EntryEffect(rg, s, base, sb, data[0]).strings, data[1..]); }
  }

  /** The machine state an arena stands for. */
  ghost function StateOf(rg: Regions, db: Db, w: World): (p: Plain)
    requires Mapped(rg, db.mem)
    ensures p.records == RecordBase(rg, db.mem) && p.strings == StringBase(rg, db.mem)
  {
    Plain(w.abs, w.tables,
          map nk | nk in w.abs :: if Namespaced(nk.0, nk.1) in db.index then db.index[Namespaced(nk.0, nk.1)] else 0,
          map t | t in w.tables :: if CatalogKey(t) in db.index then db.index[CatalogKey(t)] else 0,
          RecordBase(rg, db.mem), StringBase(rg, db.mem))
  }

  lemma StateStands(rg: Regions, schemas: map<Text, Schema>, db: Db, w: World)
    requires WorldOk(rg, schemas, db, w)
    ensures Mapped(rg, db.mem) && Stands(rg, db, w, StateOf(rg, db, w))
  {
    hide HeapOk, Namespaced, CatalogKey, KeyInvalid, StringBase, RecordBase, TableOk;
    forall nk | nk in w.abs
      ensures Namespaced(nk.0, nk.1) in db.index
    {
      assert RowOk(schemas, db.index, w.heap, nk, w.abs[nk]);
    }
    forall t | t in w.tables
      ensures CatalogKey(t) in db.index
    {
      TableBound(rg, db.mem, StringBase(rg, db.mem), db.index, t, w.tables[t]);
    }
  }

  lemma TableBound(rg: Regions, mem: Buffer, s: nat, index: map<Buffer, nat>, t: Text, cols: seq<Catalog.Column>)
    requires ArenaRefinement.TableOk(rg, mem, s, index, t, cols)
    ensures CatalogKey(t) in index
  {
  }

  /** The row's offset, when `find` sees one. */
  predicate Seen(db: Db, c: Collection, key: Text) {
    KeyAdmitted(key) && |Namespaced(c.name, key)| <= 256 && Namespaced(c.name, key) in db.index
    && db.index[Namespaced(c.name, key)] < 0x7FFF_FFFF
  }

  /** Update: fills the row exactly when `find` sees it; it never touches the index or the record space. */
  lemma UpdateOutcome(rg: Regions, schemas: map<Text, Schema>, db: Db, w: World, call: Call)
    requires WorldOk(rg, schemas, db, w) && call.CallUpdate? && CallOk(schemas, call)
    requires StringBase(rg, db.mem) + StringSpace(call) < U32_LIMIT
    ensures var ((db', rep), c, key, data) := (Step(rg, db, call), call.c, call.key, call.data);
            && !rep.created && db'.index == db.index && RecordBase(rg, db'.mem) == RecordBase(rg, db.mem)
            && (rep.record.Some? <==> Seen(db, c, key))
            && (Seen(db, c, key) ==>
                  rep.record.value == db.index[Namespaced(c.name, key)]
                  && (rep.outcome == Done <==> AllFine(rg, c.schema, StringBase(rg, db.mem), data)))
            && (!Seen(db, c, key) ==> db' == db)
            && (!Seen(db, c, key) ==>
                  (rep.outcome == Done <==> !KeyAdmitted(key) || |Namespaced(c.name, key)| <= 256))
  {
    hide WorldOk, KeyInvalid, KeyAdmitted, Namespaced, StringBase, RecordBase, Fill, Assignments, EntriesNeed, WellLaid,
      AllFine, Stands, StateOf, Find;
    var c, key := call.c, call.key;
    StateStands(rg, schemas, db, w);
    var p := StateOf(rg, db, w);
    UpdateMeans(rg, schemas, db, w, p, call);
    FindMeans(rg, schemas, db, w, p, c, key);
    SeenIff(rg, schemas, db, w, p, c, key);
    KeyFitsIff(c.name, key);
    IndexMeans(rg, db, call);
    if Seen(db, c, key) {
      AllAssignedIff(rg, c.schema, p.at[(c.name, key)], StringBase(rg, db.mem), call.data);
    }
  }

  lemma SeenIff(rg: Regions, schemas: map<Text, Schema>, db: Db, w: World, p: Plain, c: Collection, key: Text)
    requires WorldOk(rg, schemas, db, w) && Stands(rg, db, w, p) && c.name in schemas && schemas[c.name] == c.schema
    ensures Seen(db, c, key) <==> Visible(p, c, key)
    ensures Seen(db, c, key) ==> p.at[(c.name, key)] == db.index[Namespaced(c.name, key)]
  {
    hide WorldOk, Namespaced, KeyInvalid, KeyAdmitted, StringBase, RecordBase;
    KeyAdmittedIff(key);
    FindHits(rg, schemas, db, w, c, key);
  }

  /** Upsert: an update where `find` sees the row, otherwise an insert; `created` says which. */
  lemma UpsertOutcome(rg: Regions, schemas: map<Text, Schema>, db: Db, w: World, call: Call)
    requires WorldOk(rg, schemas, db, w) && call.CallUpsert? && CallOk(schemas, call)
    requires RecordBase(rg, db.mem) + RecordNeed(call) < U32_LIMIT
    requires StringBase(rg, db.mem) + StringSpace(call) < U32_LIMIT
    ensures var ((db', rep), c, key, data) := (Step(rg, db, call), call.c, call.key, call.data);
            var k, base := Namespaced(c.name, key), RecordBase(rg, db.mem);
            var room := base + AlignUp(c.schema.totalSize, 8) <= rg.recordStart + rg.recordBytes;
            && (rep.created <==>
                  KeyAdmitted(key) && !Seen(db, c, key) && |k| <= 256 && room && call.indexRc == 0)
            && (rep.created ==> db'.index == db.index[k := base] && rep.record == Some(base))
            && (!rep.created ==> db'.index == db.index)
            && (rep.record.Some? <==> rep.created || Seen(db, c, key))
            && (rep.outcome == Done <==>
                  rep.record.Some? && AllFine(rg, c.schema, StringBase(rg, db.mem), data))
  {
    hide WorldOk, KeyInvalid, KeyAdmitted, Namespaced, StringBase, RecordBase, Insert, Update, AlignUp, AllFine, Stands,
      StateOf, Find, WellLaid;
    var c, key := call.c, call.key;
    StateStands(rg, schemas, db, w);
    var p := StateOf(rg, db, w);
    FindMeans(rg, schemas, db, w, p, c, key);
    SeenIff(rg, schemas, db, w, p, c, key);
    KeyFitsIff(c.name, key);
    if Find(rg, db, c, key) == Absent {
      InsertOutcome(rg, schemas, db, w, CallInsert(c, key, call.data, call.indexRc));
    } else {
      UpdateOutcome(rg, schemas, db, w, CallUpdate(c, key, call.data));
    }
  }

  /** Delete: the key is unbound exactly when it is valid, short enough and the engine answers; no byte changes. */
  lemma DeleteOutcome(rg: Regions, db: Db, call: Call)
    requires Mapped(rg, db.mem) && call.CallDelete?
    ensures var ((db', rep), k) := (Step(rg, db, call), Namespaced(call.c.name, call.key));
            var goes := KeyAdmitted(call.key) && |k| <= 256 && !call.fails;
            && db' == db.(index := if goes then db.index - {k} else db.index)
            && (rep.outcome == Done <==> goes)
            && (rep.removed <==> goes && k in db.index)
  {
    hide KeyInvalid, KeyAdmitted, Namespaced;
    KeyAdmittedIff(call.key);
  }

  /** Save: the table is bound exactly when it encodes, fits the mapping, is announced, and the index takes its name. */
  lemma SaveOutcome(rg: Regions, schemas: map<Text, Schema>, db: Db, w: World, call: Call)
    requires WorldOk(rg, schemas, db, w) && call.CallSave? && CallOk(schemas, call)
    requires StringBase(rg, db.mem) + StringSpace(call) < U32_LIMIT
    ensures var ((db', rep), table, cols) := (Step(rg, db, call), call.table, call.cols);
            var sb, n := StringBase(rg, db.mem), 73 + 67 * |cols|;
            var encoded := Catalog.EncodeCatalog(table, cols).Ok?;
            && (rep.outcome == Done <==>
                  encoded && sb + n <= rg.arenaBytes && call.notify == 0 && 0 !in table && call.indexRc == 0)
            && db'.index == (if rep.outcome == Done then db.index[CatalogKey(table) := sb] else db.index)
            && StringBase(rg, db'.mem) == (if encoded then sb + n else sb)
  {
    hide WorldOk, StringBase, RecordBase, CatalogKey, Catalog.EncodeRefusal, Stands, StateOf, Step;
    StateStands(rg, schemas, db, w);
    SaveMeans(rg, schemas, db, w, StateOf(rg, db, w), call);
    IndexMeans(rg, db, call);
  }

  /** What a field reads: the number, bits or text last assigned to it, less a leading U+FEFF; zeros before that. */
  lemma CellsAre(v: JsValue)
    ensures Accepts(UInt8, v) ==> Stored(UInt8, v) == Byte(v.integer.value)
    ensures Accepts(UInt32, v) ==> Stored(UInt32, v) == Word32(v.integer.value)
    ensures Accepts(Float64, v) ==> Stored(Float64, v) == Float(v.bits)
    ensures v.String? ==> Stored(Str, v) == Txt(if v.text != [] && v.text[0] == 0xFEFF then v.text[1..] else v.text)
    ensures ZeroCell(UInt8) == Byte(0) && ZeroCell(UInt32) == Word32(0) && ZeroCell(Str) == Txt([])
    ensures ZeroCell(Float64) == Float([0, 0, 0, 0, 0, 0, 0, 0])
  {
  }
}
