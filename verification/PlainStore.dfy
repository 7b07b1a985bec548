/**
 The store as its callers see it: a machine on plain maps and two counters that
 knows the calls and the engine's answers but no bytes. Every run on the arena
 reports, logs, finds and loads exactly what this machine says.
 */
module PlainStore {
  import opened Bytes
  import opened Options
  import opened Utf8
  import opened Layout
  import opened RecordSchema
  import opened ArenaModel
  import opened ArenaHeap
  import opened ArenaRefinement

  /**
   The rows and tables, the offset each was given, and the next free record and
   string offsets.
   */
  datatype Plain = Plain(
    abs: Abs, tables: Tables, at: map<(Text, Text), nat>, savedAt: map<Text, nat>, records: nat, strings: nat)

  // ----- assignments

  /** What assignments do: how many took effect, how they ended, the next string offset, the messages offered. */
  datatype Effect = Effect(taken: nat, outcome: Outcome, strings: nat, offers: seq<Attempt>)

  function Ending(rc: int, full: Fault, failed: Fault): Outcome {
    if rc == 0 then Done else if rc == -2 then Threw(full) else Threw(failed)
  }

  /** The values a scalar field accepts. */
  predicate Accepts(typ: FieldType, v: JsValue) {
    v.Number? && match typ
      case UInt8 => v.integer.Some? && 0 <= v.integer.value <= 255
      case UInt32 => v.integer.Some? && 0 <= v.integer.value <= 0xFFFF_FFFF
      case _ => true
  }

  function ScalarOf(typ: FieldType, v: JsValue): Buffer
    requires Accepts(typ, v)
  {
    match typ
    case UInt8 => [v.integer.value]
    case UInt32 => U32Bytes(v.integer.value)
    case _ => v.bits
  }

  /** Assigning `v` to a field at offset `at` when `sb` is the next string offset. */
  function Assignment(rg: Regions, typ: FieldType, at: nat, sb: nat, v: JsValue, notify: int, push: int): Effect {
    if typ == Str then
      if !v.String? then Effect(0, Threw(NotAString), sb, [])
      else if rg.stringStart + 8 >= rg.arenaBytes then Effect(0, Threw(ArenaTooSmall), sb, [])
      else
        var n := |Encode(v.text)|;
        var announced := Attempt(Arena(sb, n), n > 0 && notify == 0, []);
        var pushed := Attempt(Inline(at, U32Bytes(sb) + U32Bytes(n)), push == 0, v.text);
        if sb + n > rg.stringStart + rg.stringBytes then Effect(0, Threw(OutOfStrings), sb + n, [])
        else if n == 0 then Effect(0, Threw(AnnounceFailed), sb, [announced])
        else if notify != 0 then Effect(0, Ending(notify, AnnounceBackpressure, AnnounceFailed), sb + n, [announced])
        else Effect(1, Ending(push, PushBackpressure, PushFailed), sb + n, [announced, pushed])
    else if !Accepts(typ, v) then Effect(0, Threw(if typ == Float64 then NotANumber else OutOfRange), sb, [])
    else
      Effect(1, Ending(push, PushBackpressure, PushFailed), sb,
             [Attempt(Inline(at, ScalarOf(typ, v)), push == 0, [])])
  }

  function EntryEffect(rg: Regions, s: Schema, base: nat, sb: nat, e: Entry): Effect {
    if e.value.None? || e.name !in s.fields then Effect(1, Done, sb, [])
    else Assignment(rg, s.fields[e.name].typ, base + s.fields[e.name].offset, sb, e.value.value, e.notify, e.push)
  }

  /** Entries in order, up to the first that throws. */
  function Assignments(rg: Regions, s: Schema, base: nat, sb: nat, data: seq<Entry>): Effect
    decreases |data|
  {
    if data == [] then Effect(0, Done, sb, [])
    else
      var e := EntryEffect(rg, s, base, sb, data[0]);
      if e.outcome != Done then e
      else
        var rest := Assignments(rg, s, base, e.strings, data[1..]);
        Effect(1 + rest.taken, rest.outcome, rest.strings, e.offers + rest.offers)
  }

  // ----- calls

  /** Keys the collection operations accept: one to 256 UTF-8 bytes and no NUL. */
  predicate KeyAdmitted(key: Text) {
    1 <= |Encode(key)| <= 256 && 0 !in key
  }

  predicate KeyFits(name: Text, key: Text) {
    |Encode(name)| + 1 + |Encode(key)| <= 256
  }

  /** A row is found unless its offset is one the index lookup reserves. */
  predicate Visible(p: Plain, c: Collection, key: Text) {
    (c.name, key) in p.at && p.at[(c.name, key)] < 0x7FFF_FFFF
  }

  /** What a call reports, the counters after it, and the messages it offers. */
  datatype Told = Told(report: Report, records: nat, strings: nat, offers: seq<Attempt>)

  function Quiet(p: Plain, report: Report): Told {
    Told(report, p.records, p.strings, [])
  }

  function TellInsert(rg: Regions, p: Plain, c: Collection, key: Text, data: seq<Entry>, rc: int): Told {
    if !KeyAdmitted(key) then Quiet(p, Failed(InvalidKey))
    else
      var next := p.records + AlignUp(c.schema.totalSize, 8);
      if next > rg.recordStart + rg.recordBytes then Told(Failed(OutOfRecords), next, p.strings, [])
      else if !KeyFits(c.name, key) then Told(Failed(KeyTooLong), next, p.strings, [])
      else if rc == -2 then Told(Failed(IndexBackpressure), next, p.strings, [])
      else if rc != 0 then Told(Failed(IndexFailed), next, p.strings, [])
      else
        var e := Assignments(rg, c.schema, p.records, p.strings, data);
        Told(Report(e.outcome, Some(p.records), true, false, e.taken), next, e.strings, e.offers)
  }

  function TellUpdate(rg: Regions, p: Plain, c: Collection, key: Text, data: seq<Entry>): Told {
    if KeyAdmitted(key) && !KeyFits(c.name, key) then Quiet(p, Failed(KeyTooLong))
    else if !Visible(p, c, key) then Quiet(p, Report(Done, None, false, false, 0))
    else
      var at := p.at[(c.name, key)];
      var e := Assignments(rg, c.schema, at, p.strings, data);
      Told(Report(e.outcome, Some(at), false, false, e.taken), p.records, e.strings, e.offers)
  }

  function TellDelete(p: Plain, c: Collection, key: Text, fails: bool): Told {
    if !KeyAdmitted(key) then Quiet(p, Failed(InvalidKey))
    else if !KeyFits(c.name, key) then Quiet(p, Failed(KeyTooLong))
    else if fails then Quiet(p, Failed(RemoveFailed))
    else Quiet(p, Report(Done, None, false, (c.name, key) in p.at, 0))
  }

  function TellSave(rg: Regions, p: Plain, table: Text, cols: seq<Catalog.Column>, notify: int, rc: int): Told {
    var refused := Catalog.EncodeRefusal(table, cols);
    if refused.Some? then Quiet(p, Failed(CatalogRefused(refused.value)))
    else
      var n := 73 + 67 * |cols|;
      var announced := [Attempt(Arena(p.strings, n), notify == 0, [])];
      if p.strings + n > rg.arenaBytes then Told(Failed(OutOfStrings), p.records, p.strings + n, [])
      else if notify != 0 then Told(Failed(AnnounceFailed), p.records, p.strings + n, announced)
      else if 0 in table then Told(Failed(InvalidKey), p.records, p.strings + n, announced)
      else if rc == -2 then Told(Failed(IndexBackpressure), p.records, p.strings + n, announced)
      else if rc != 0 then Told(Failed(IndexFailed), p.records, p.strings + n, announced)
      else Told(Report(Done, Some(p.strings), true, false, 0), p.records, p.strings + n, announced)
  }

  function TellForeign(rg: Regions, p: Plain, n: nat, rc: int): Told {
    if p.strings + n > rg.stringStart + rg.stringBytes then Told(Failed(OutOfStrings), p.records, p.strings + n, [])
    else
      Told(Report(Done, None, false, false, 0), p.records, p.strings + n,
           [Attempt(Arena(p.strings, n), n > 0 && rc == 0, [])])
  }

  function Tell(rg: Regions, p: Plain, call: Call): Told {
    match call
    case CallInsert(c, key, data, rc) => TellInsert(rg, p, c, key, data, rc)
    case CallUpdate(c, key, data) => TellUpdate(rg, p, c, key, data)
    case CallUpsert(c, key, data, rc) =>
      if (KeyAdmitted(key) && !KeyFits(c.name, key)) || Visible(p, c, key) then TellUpdate(rg, p, c, key, data)
      else TellInsert(rg, p, c, key, data, rc)
    case CallDelete(c, key, fails) => TellDelete(p, c, key, fails)
    case CallSave(table, cols, notify, rc) => TellSave(rg, p, table, cols, notify, rc)
    case Foreign(payload, rc) => TellForeign(rg, p, |payload|, rc)
  }

  function PlainStep(rg: Regions, p: Plain, call: Call): Plain {
    var t := Tell(rg, p, call);
    Plain(AbsAfter(p.abs, call, t.report), TablesAfter(p.tables, call, t.report),
          if AssignsFields(call) && t.report.created && t.report.record.Some? then
            p.at[(call.c.name, call.key) := t.report.record.value]
          else if call.CallDelete? && t.report.outcome == Done then p.at - {(call.c.name, call.key)}
          else p.at,
          if call.CallSave? && t.report.record.Some? then p.savedAt[call.table := t.report.record.value]
          else p.savedAt,
          t.records, t.strings)
  }

  // ----- one assignment, on bytes

  lemma KeyAdmittedIff(key: Text)
    ensures KeyInvalid(key) <==> !KeyAdmitted(key)
  {
    Catalog.EncodeLengthBound(key);
  }

  lemma KeyFitsIff(name: Text, key: Text)
    ensures |Namespaced(name, key)| <= 256 <==> KeyFits(name, key)
  {
    EncodeConcat(name + [COLON], key);
    EncodeConcat(name, [COLON]);
    assert Encode([COLON]) == EncodeOne(COLON) + Encode([][..]);
  }

  /** The set trap on a field of a known record does exactly what `Assignment` says. */
  lemma AssignmentMeans(rg: Regions, db: Db, heap: Heap, o: nat, n: Text, v: JsValue, notify: int, push: int)
    requires ArenaOk(rg, db.mem, heap) && o in heap && n in heap[o].schema.fields
    requires StringBase(rg, db.mem) + StringNeed(v) < U32_LIMIT
    ensures var f := heap[o].schema.fields[n];
            FieldStart(heap, o, n) + Width(f.typ) <= |db.mem| && f.typ != Unknown
    ensures var f, at, sb := heap[o].schema.fields[n], FieldStart(heap, o, n), StringBase(rg, db.mem);
            var a := SetField(rg, db, at, f.typ, v, notify, push);
            var e := Assignment(rg, f.typ, at, sb, v, notify, push);
            && a.outcome == e.outcome && e.taken == (if a.took then 1 else 0)
            && StringBase(rg, a.db.mem) == e.strings && a.db.sent == db.sent + e.offers
  {
    hide HeapOk, RecordBase, StringBase, WellLaid, Encode, U32Bytes;
    FieldInRegion(rg, db.mem, RecordBase(rg, db.mem), StringBase(rg, db.mem), heap, o, n);
    SetFieldOk(rg, db, heap, o, n, v, notify, push);
    var f := heap[o].schema.fields[n];
    if f.typ == Str && v.String? {
      TextMeans(rg, db, heap, o, n, v.text, notify, push);
    }
  }

  lemma TextMeans(rg: Regions, db: Db, heap: Heap, o: nat, n: Text, t: Text, notify: int, push: int)
    requires ArenaOk(rg, db.mem, heap) && o in heap && n in heap[o].schema.fields && heap[o].schema.fields[n].typ == Str
    requires StringBase(rg, db.mem) + |Encode(t)| < U32_LIMIT
    ensures FieldStart(heap, o, n) + 8 <= |db.mem|
    ensures var at, sb := FieldStart(heap, o, n), StringBase(rg, db.mem);
            var a := SetText(rg, db, at, t, notify, push);
            var e := Assignment(rg, Str, at, sb, String(t), notify, push);
            && a.outcome == e.outcome && e.taken == (if a.took then 1 else 0)
            && StringBase(rg, a.db.mem) == e.strings && a.db.sent == db.sent + e.offers
  {
    hide HeapOk, RecordBase, StringBase, TakeString, WellLaid, Encode, U32Bytes;
    FieldInRegion(rg, db.mem, RecordBase(rg, db.mem), StringBase(rg, db.mem), heap, o, n);
    ArenaBounds(rg, db.mem, heap);
    var data, base := Encode(t), StringBase(rg, db.mem);
    if rg.StringDataStart() < rg.arenaBytes {
      var taken := TakeString(rg, db.mem, |data|);
      TakeStringOk(rg, db.mem, |data|, heap);
      if base + |data| <= rg.StringEnd() {
        PayloadOk(rg, db.mem, taken, |data|, data, heap);
        PutRead(taken, base, data);
        if AnnounceCode(|data|, notify) == 0 {
          PointerWriteOk(rg, Put(taken, base, data), heap, o, n, base, t);
        }
      }
    }
  }

  lemma EntryMeans(rg: Regions, db: Db, heap: Heap, o: nat, e: Entry)
    requires ArenaOk(rg, db.mem, heap) && o in heap
    requires StringBase(rg, db.mem) + EntriesNeed([e]) < U32_LIMIT
    ensures ProxyFits(rg, db, heap[o].schema, o)
    ensures var a := AssignEntry(rg, db, heap[o].schema, o, e);
            var f := EntryEffect(rg, heap[o].schema, o, StringBase(rg, db.mem), e);
            && a.outcome == f.outcome && f.taken == (if a.took then 1 else 0)
            && StringBase(rg, a.db.mem) == f.strings && a.db.sent == db.sent + f.offers
  {
    hide ArenaOk, WellLaid, SetField, Assignment;
    RecordInHeap(rg, db.mem, heap, o);
    if e.value.Some? && e.name in heap[o].schema.fields {
      AssignmentMeans(rg, db, heap, o, e.name, e.value.value, e.notify, e.push);
    }
  }

  /** The assignment loop does exactly what `Assignments` says. */
  lemma {:induction false} AssignmentsMean(rg: Regions, db: Db, heap: Heap, o: nat, data: seq<Entry>)
    requires ArenaOk(rg, db.mem, heap) && o in heap
    requires StringBase(rg, db.mem) + EntriesNeed(data) < U32_LIMIT
    ensures ProxyFits(rg, db, heap[o].schema, o)
    ensures var f := Fill(rg, db, heap[o].schema, o, data);
            var e := Assignments(rg, heap[o].schema, o, StringBase(rg, db.mem), data);
            && f.outcome == e.outcome && f.applied == e.taken
            && StringBase(rg, f.db.mem) == e.strings && f.db.sent == db.sent + e.offers
    decreases |data|
  {
    hide ArenaOk, WellLaid, AssignEntry, EntryEffect, StringBase, RecordBase;
    RecordInHeap(rg, db.mem, heap, o);
    if data != [] {
      assert [data[0]][1..] == [];
      AssignEntryOk(rg, db, heap, o, data[0]);
      EntryMeans(rg, db, heap, o, data[0]);
      var a := AssignEntry(rg, db, heap[o].schema, o, data[0]);
      if a.outcome == Done {
        var heap' := WithCells(heap, o, EntryCells(heap[o].schema, heap[o].cells, data[0]));
        AssignmentsMean(rg, a.db, heap', o, data[1..]);
      }
    }
  }

  // ----- the relation

  /** The machine's state is the arena's: same counters, and each row and table bound where it says. */
  ghost predicate Stands(rg: Regions, db: Db, w: World, p: Plain) {
    && Mapped(rg, db.mem) && p.records == RecordBase(rg, db.mem) && p.strings == StringBase(rg, db.mem)
    && p.abs == w.abs && p.tables == w.tables
    && p.at.Keys == w.abs.Keys && p.savedAt.Keys == w.tables.Keys
    && (forall nk :: nk in p.at ==> Namespaced(nk.0, nk.1) in db.index && db.index[Namespaced(nk.0, nk.1)] == p.at[nk])
    && (forall t :: t in p.savedAt ==> CatalogKey(t) in db.index && db.index[CatalogKey(t)] == p.savedAt[t])
  }

  /** The report, both counters and the log of one call. */
  ghost predicate AsTold(rg: Regions, db: Db, r: (Db, Report), t: Told) {
    && Mapped(rg, r.0.mem) && r.1 == t.report
    && RecordBase(rg, r.0.mem) == t.records && StringBase(rg, r.0.mem) == t.strings
    && r.0.sent == db.sent + t.offers
  }

  lemma FillMeans(rg: Regions, schemas: map<Text, Schema>, db: Db, w: World, c: Collection, key: Text, data: seq<Entry>)
    requires WorldOk(rg, schemas, db, w) && c.name in schemas && schemas[c.name] == c.schema
    requires (c.name, key) in w.abs && Namespaced(c.name, key) in db.index
    requires StringBase(rg, db.mem) + EntriesNeed(data) < U32_LIMIT
    ensures var o := db.index[Namespaced(c.name, key)];
            ProxyFits(rg, db, c.schema, o)
            && var f := Fill(rg, db, c.schema, o, data);
               var e := Assignments(rg, c.schema, o, StringBase(rg, db.mem), data);
               && f.outcome == e.outcome && f.applied == e.taken
               && StringBase(rg, f.db.mem) == e.strings && f.db.sent == db.sent + e.offers
               && RecordBase(rg, f.db.mem) == RecordBase(rg, db.mem)
  {
    hide HeapOk, Namespaced, StringBase, RecordBase, Assignments, Fill, WellLaid, TablesOk, KeyInvalid;
    assert RowOk(schemas, db.index, w.heap, (c.name, key), w.abs[(c.name, key)]);
    AssignmentsMean(rg, db, w.heap, db.index[Namespaced(c.name, key)], data);
    FillOk(rg, db, w.heap, db.index[Namespaced(c.name, key)], data);
  }

  lemma InsertMeans(rg: Regions, schemas: map<Text, Schema>, db: Db, w: World, p: Plain, call: Call)
    requires WorldOk(rg, schemas, db, w) && call.CallInsert? && CallOk(schemas, call) && Stands(rg, db, w, p)
    requires RecordBase(rg, db.mem) + RecordNeed(call) < U32_LIMIT
    requires StringBase(rg, db.mem) + StringSpace(call) < U32_LIMIT
    ensures AsTold(rg, db, Step(rg, db, call), TellInsert(rg, p, call.c, call.key, call.data, call.indexRc))
  {
    hide WorldOk, HeapOk, AlignUp, KeyInvalid, KeyAdmitted, KeyFits, Namespaced, StringBase, RecordBase, TakeRecord,
      Fill, Assignments, EntriesNeed, WellLaid;
    var c, key := call.c, call.key;
    KeyAdmittedIff(key);
    KeyFitsIff(c.name, key);
    if !KeyInvalid(key) {
      var stride, base := AlignUp(c.schema.totalSize, RECORD_ALIGNMENT), RecordBase(rg, db.mem);
      var taken := db.(mem := TakeRecord(rg, db.mem, stride));
      TakenIsQuiet(rg, schemas, db, w, stride);
      if base + stride <= rg.RecordEnd() && |Namespaced(c.name, key)| <= MAX_KEY_LEN && call.indexRc == 0 {
        var w1 := BindRowOk(rg, schemas, db, w, taken, c, key);
        var bound := taken.(index := taken.index[Namespaced(c.name, key) := base]);
        FillMeans(rg, schemas, bound, w1, c, key, call.data);
      }
    }
  }

  lemma FindMeans(rg: Regions, schemas: map<Text, Schema>, db: Db, w: World, p: Plain, c: Collection, key: Text)
    requires WorldOk(rg, schemas, db, w) && Stands(rg, db, w, p) && c.name in schemas && schemas[c.name] == c.schema
    ensures Find(rg, db, c, key) ==
      if KeyAdmitted(key) && !KeyFits(c.name, key) then Rejected
      else if Visible(p, c, key) then Record(p.at[(c.name, key)])
      else Absent
  {
    hide WorldOk, Namespaced, KeyInvalid, KeyAdmitted, KeyFits, StringBase, RecordBase;
    KeyAdmittedIff(key);
    KeyFitsIff(c.name, key);
    FindHits(rg, schemas, db, w, c, key);
  }

  lemma UpdateMeans(rg: Regions, schemas: map<Text, Schema>, db: Db, w: World, p: Plain, call: Call)
    requires WorldOk(rg, schemas, db, w) && call.CallUpdate? && CallOk(schemas, call) && Stands(rg, db, w, p)
    requires StringBase(rg, db.mem) + StringSpace(call) < U32_LIMIT
    ensures AsTold(rg, db, Step(rg, db, call), TellUpdate(rg, p, call.c, call.key, call.data))
  {
    hide WorldOk, KeyAdmitted, KeyFits, Namespaced, StringBase, RecordBase, Fill, Assignments, EntriesNeed, WellLaid,
      Find;
    FindMeans(rg, schemas, db, w, p, call.c, call.key);
    if Find(rg, db, call.c, call.key).Record? {
      FillMeans(rg, schemas, db, w, call.c, call.key, call.data);
    }
  }

  lemma UpsertMeans(rg: Regions, schemas: map<Text, Schema>, db: Db, w: World, p: Plain, call: Call)
    requires WorldOk(rg, schemas, db, w) && call.CallUpsert? && CallOk(schemas, call) && Stands(rg, db, w, p)
    requires RecordBase(rg, db.mem) + RecordNeed(call) < U32_LIMIT
    requires StringBase(rg, db.mem) + StringSpace(call) < U32_LIMIT
    ensures AsTold(rg, db, Step(rg, db, call), Tell(rg, p, call))
  {
    hide WorldOk, KeyAdmitted, KeyFits, Insert, Update, StringBase, RecordBase, Find, TellInsert, TellUpdate, Stands,
      AsTold;
    FindMeans(rg, schemas, db, w, p, call.c, call.key);
    if Find(rg, db, call.c, call.key) == Absent {
      InsertMeans(rg, schemas, db, w, p, CallInsert(call.c, call.key, call.data, call.indexRc));
    } else {
      UpdateMeans(rg, schemas, db, w, p, CallUpdate(call.c, call.key, call.data));
    }
  }

  lemma DeleteMeans(rg: Regions, schemas: map<Text, Schema>, db: Db, w: World, p: Plain, call: Call)
    requires WorldOk(rg, schemas, db, w) && call.CallDelete? && CallOk(schemas, call) && Stands(rg, db, w, p)
    ensures AsTold(rg, db, Step(rg, db, call), Tell(rg, p, call))
  {
    hide WorldOk, KeyInvalid, KeyAdmitted, KeyFits, Namespaced, StringBase, RecordBase;
    KeyAdmittedIff(call.key);
    KeyFitsIff(call.c.name, call.key);
    FindHits(rg, schemas, db, w, call.c, call.key);
  }

  lemma PublishMeans(rg: Regions, schemas: map<Text, Schema>, db: Db, w: World, payload: Buffer, rc: int)
    requires WorldOk(rg, schemas, db, w) && StringBase(rg, db.mem) + |payload| < U32_LIMIT
    ensures var taken, base := db.(mem := TakeString(rg, db.mem, |payload|)), StringBase(rg, db.mem);
            && Mapped(rg, db.mem) && StringBase(rg, taken.mem) == base + |payload|
            && RecordBase(rg, taken.mem) == RecordBase(rg, db.mem)
            && (base + |payload| <= |db.mem| ==>
                  var published := Publish(taken, base, payload, rc);
                  && StringBase(rg, published.mem) == base + |payload|
                  && RecordBase(rg, published.mem) == RecordBase(rg, db.mem)
                  && published.sent == db.sent + [Attempt(Arena(base, |payload|), |payload| > 0 && rc == 0, [])])
  {
    hide WorldOk, StringBase, RecordBase, TakeString;
    WorldIsArena(rg, schemas, db, w);
    PublishedIsQuiet(rg, schemas, db, w, payload, rc);
  }

  lemma SaveMeans(rg: Regions, schemas: map<Text, Schema>, db: Db, w: World, p: Plain, call: Call)
    requires WorldOk(rg, schemas, db, w) && call.CallSave? && CallOk(schemas, call) && Stands(rg, db, w, p)
    requires StringBase(rg, db.mem) + StringSpace(call) < U32_LIMIT
    ensures AsTold(rg, db, Step(rg, db, call), Tell(rg, p, call))
  {
    hide WorldOk, StringBase, RecordBase, CatalogKey, Publish, TakeString, Catalog.EncodeRefusal;
    if Catalog.EncodeCatalog(call.table, call.cols).Ok? {
      TableKeyFits(call.table, call.cols);
      PublishMeans(rg, schemas, db, w, Catalog.EncodeCatalog(call.table, call.cols).value, call.notify);
    }
  }

  lemma TableKeyFits(table: Text, cols: seq<Catalog.Column>)
    requires Catalog.EncodeRefusal(table, cols).None?
    ensures |CatalogKey(table)| <= 256 && (TableNameOk(table) <==> 0 !in table)
  {
    Catalog.EncodeLengthBound(table);
    EncodeConcat(CATALOG_PREFIX, table);
    Catalog.EncodeLengthBound(CATALOG_PREFIX);
  }

  lemma ForeignMeans(rg: Regions, schemas: map<Text, Schema>, db: Db, w: World, p: Plain, call: Call)
    requires WorldOk(rg, schemas, db, w) && call.Foreign? && Stands(rg, db, w, p)
    requires StringBase(rg, db.mem) + |call.payload| < U32_LIMIT
    ensures AsTold(rg, db, Step(rg, db, call), Tell(rg, p, call))
  {
    hide WorldOk, StringBase, RecordBase, Publish, TakeString;
    PublishMeans(rg, schemas, db, w, call.payload, call.rc);
  }

  /** What a call does to the index, as it reports. */
  lemma IndexMeans(rg: Regions, db: Db, call: Call)
    requires Mapped(rg, db.mem) && CallFits(call)
    ensures var (db', rep) := Step(rg, db, call);
            match call
            case CallInsert(c, key, _, _) =>
              db'.index == if rep.created && rep.record.Some?
                           then db.index[Namespaced(c.name, key) := rep.record.value] else db.index
            case CallUpsert(c, key, _, _) =>
              db'.index == if rep.created && rep.record.Some?
                           then db.index[Namespaced(c.name, key) := rep.record.value] else db.index
            case CallDelete(c, key, _) =>
              db'.index == if rep.outcome == Done then db.index - {Namespaced(c.name, key)} else db.index
            case CallSave(table, _, _, _) =>
              (db'.index == if rep.record.Some? then db.index[CatalogKey(table) := rep.record.value] else db.index)
              && (rep.record.Some? <==> rep.outcome == Done)
            case CallUpdate(_, _, _) => db'.index == db.index && !rep.created
            case Foreign(_, _) => db'.index == db.index
  {
    hide Fill, KeyInvalid, Namespaced, CatalogKey, RecordBase, TakeRecord, StringBase, TakeString, WellLaid, AlignUp,
      Catalog.EncodeCatalog, Find;
  }

  lemma {:induction false} TakenWithin(rg: Regions, s: Schema, base: nat, sb: nat, data: seq<Entry>)
    ensures Assignments(rg, s, base, sb, data).taken <= |data|
    decreases |data|
  {
    hide EntryEffect;
    if data != [] {
      var e := EntryEffect(rg, s, base, sb, data[0]);
      assert e.taken <= 1 by { OneTaken(rg, s, base, sb, data[0]); }
      if e.outcome == Done { TakenWithin(rg, s, base, e.strings, data[1..]); }
    }
  }

  lemma OneTaken(rg: Regions, s: Schema, base: nat, sb: nat, e: Entry)
    ensures EntryEffect(rg, s, base, sb, e).taken <= 1
  {
    hide Encode, U32Bytes;
  }

  lemma CallMeans(rg: Regions, schemas: map<Text, Schema>, db: Db, w: World, p: Plain, call: Call)
    requires WorldOk(rg, schemas, db, w) && CallOk(schemas, call) && Stands(rg, db, w, p)
    requires RecordBase(rg, db.mem) + RecordNeed(call) < U32_LIMIT
    requires StringBase(rg, db.mem) + StringSpace(call) < U32_LIMIT
    ensures AsTold(rg, db, Step(rg, db, call), Tell(rg, p, call))
  {
    hide WorldOk, StringBase, RecordBase, Stands, AsTold, TellInsert, TellUpdate, TellDelete, TellSave, TellForeign,
      WellLaid, Insert, Update, Upsert, Delete, SaveCatalog, ForeignWrite, KeyAdmitted, KeyFits, Visible;
    match call
    case CallInsert(_, _, _, _) => InsertMeans(rg, schemas, db, w, p, call);
    case CallUpdate(_, _, _) => UpdateMeans(rg, schemas, db, w, p, call);
    case CallUpsert(_, _, _, _) => UpsertMeans(rg, schemas, db, w, p, call);
    case CallDelete(_, _, _) => DeleteMeans(rg, schemas, db, w, p, call);
    case CallSave(_, _, _, _) => SaveMeans(rg, schemas, db, w, p, call);
    case Foreign(_, _) => ForeignMeans(rg, schemas, db, w, p, call);
  }

  /** The call's own row is bound where it reports, and the others stay where they were. */
  lemma RowsBound(rg: Regions, schemas: map<Text, Schema>, db: Db, w: World, w': World, p: Plain, call: Call)
    requires WorldOk(rg, schemas, db, w) && CallOk(schemas, call) && Stands(rg, db, w, p)
    requires Step(rg, db, call).1 == Tell(rg, p, call).report
    requires w'.abs == AbsAfter(w.abs, call, Step(rg, db, call).1)
    ensures var at, index := PlainStep(rg, p, call).at, Step(rg, db, call).0.index;
            at.Keys == w'.abs.Keys
            && forall nk :: nk in at ==> Namespaced(nk.0, nk.1) in index && index[Namespaced(nk.0, nk.1)] == at[nk]
  {
    hide Namespaced, CatalogKey, StringBase, RecordBase, Step, CallFits, ArenaOk, TablesOk, KeyInvalid, AbsAfter,
      Tell, TablesAfter;
    IndexMeans(rg, db, call);
    KeysAfter(rg, p, call);
    var at, index := PlainStep(rg, p, call).at, Step(rg, db, call).0.index;
    forall nk | nk in at
      ensures Namespaced(nk.0, nk.1) in index && index[Namespaced(nk.0, nk.1)] == at[nk]
    {
      if call.CallSave? || call.Foreign? || nk != (call.c.name, call.key) {
        OtherAt(rg, p, call, nk);
        assert RowOk(schemas, db.index, w.heap, nk, w.abs[nk]);
        OtherKey(schemas, call, nk.0, nk.1);
        IndexKept(rg, db, call, Namespaced(nk.0, nk.1));
      }
    }
  }

  lemma KeysAfter(rg: Regions, p: Plain, call: Call)
    requires p.at.Keys == p.abs.Keys
    ensures PlainStep(rg, p, call).at.Keys == PlainStep(rg, p, call).abs.Keys
  {
    hide Assignments, KeyAdmitted, KeyFits, AlignUp, WellLaid, ApplyEntries, ZeroCells, Catalog.EncodeRefusal;
    if AssignsFields(call) {
      TakenWithin(rg, call.c.schema, p.records, p.strings, call.data);
    }
  }

  lemma OtherAt(rg: Regions, p: Plain, call: Call, nk: (Text, Text))
    requires call.CallSave? || call.Foreign? || nk != (call.c.name, call.key)
    ensures nk in PlainStep(rg, p, call).at <==> nk in p.at
    ensures nk in p.at ==> PlainStep(rg, p, call).at[nk] == p.at[nk]
  {
    hide Tell, AbsAfter, TablesAfter;
  }

  /** The same for tables. */
  lemma TablesBoundAt(rg: Regions, schemas: map<Text, Schema>, db: Db, w: World, p: Plain, call: Call)
    requires WorldOk(rg, schemas, db, w) && CallOk(schemas, call) && Stands(rg, db, w, p)
    requires Step(rg, db, call).1 == Tell(rg, p, call).report
    ensures var savedAt, index := PlainStep(rg, p, call).savedAt, Step(rg, db, call).0.index;
            savedAt.Keys == TablesAfter(w.tables, call, Step(rg, db, call).1).Keys
            && forall t :: t in savedAt ==> CatalogKey(t) in index && index[CatalogKey(t)] == savedAt[t]
  {
    hide Namespaced, CatalogKey, StringBase, RecordBase, Step, CallFits, ArenaOk, TablesOk, IndexOk, KeyInvalid,
      AbsAfter, Tell, AssignsFields;
    IndexMeans(rg, db, call);
    var savedAt, index := PlainStep(rg, p, call).savedAt, Step(rg, db, call).0.index;
    forall t | t in savedAt
      ensures CatalogKey(t) in index && index[CatalogKey(t)] == savedAt[t]
    {
      if !call.CallSave? || t != call.table {
        OtherTableKey(schemas, call, t);
        IndexKept(rg, db, call, CatalogKey(t));
      }
    }
  }

  lemma OtherTableKey(schemas: map<Text, Schema>, call: Call, table: Text)
    requires SchemasOk(schemas) && CallOk(schemas, call) && !(call.CallSave? && call.table == table)
    ensures OwnKey(call) != Some(CatalogKey(table))
  {
    hide Namespaced, CatalogKey, CallFits, Admitted, WellLaid, NameOk, Collide;
    match call
    case CallSave(t, _, _, _) => if CatalogKey(t) == CatalogKey(table) { CatalogKeyInjective(t, table); }
    case Foreign(_, _) =>
    case _ => KeysApart(call.c.name, call.key, table);
  }

  /** One call, whatever the engine answers: the arena reports, logs and becomes what the machine says. */
  lemma StepMeans(rg: Regions, schemas: map<Text, Schema>, db: Db, w: World, p: Plain, call: Call)
    returns (w': World)
    requires WorldOk(rg, schemas, db, w) && CallOk(schemas, call) && Stands(rg, db, w, p)
    requires RecordBase(rg, db.mem) + RecordNeed(call) < U32_LIMIT
    requires StringBase(rg, db.mem) + StringSpace(call) < U32_LIMIT
    ensures var (db', rep) := Step(rg, db, call);
            && WorldOk(rg, schemas, db', w') && Stands(rg, db', w', PlainStep(rg, p, call))
            && BumpsWithin(rg, db, db', RecordNeed(call), StringSpace(call))
            && rep == Tell(rg, p, call).report && db'.sent == db.sent + Tell(rg, p, call).offers
  {
    hide WorldOk, StringBase, RecordBase, Step, Tell, CallFits, BumpsWithin, Namespaced, CatalogKey, AbsAfter,
      TablesAfter;
    WorldIsArena(rg, schemas, db, w);
    w' := StepOk(rg, schemas, db, w, call);
    CallMeans(rg, schemas, db, w, p, call);
    IndexMeans(rg, db, call);
    var db' := Step(rg, db, call).0;
    RowsBound(rg, schemas, db, w, w', p, call);
    TablesBoundAt(rg, schemas, db, w, p, call);
  }

  // ----- runs

  function PlainRun(rg: Regions, p: Plain, calls: seq<Call>): Plain
    decreases |calls|
  {
    if calls == [] then p else PlainRun(rg, PlainStep(rg, p, calls[0]), calls[1..])
  }

  /** The reports and the messages of a run, as the machine has them. */
  function TellAll(rg: Regions, p: Plain, calls: seq<Call>): seq<Report>
    decreases |calls|
  {
    if calls == [] then [] else [Tell(rg, p, calls[0]).report] + TellAll(rg, PlainStep(rg, p, calls[0]), calls[1..])
  }

  function OfferAll(rg: Regions, p: Plain, calls: seq<Call>): seq<Attempt>
    decreases |calls|
  {
    if calls == [] then [] else Tell(rg, p, calls[0]).offers + OfferAll(rg, PlainStep(rg, p, calls[0]), calls[1..])
  }

  /** The reports of a run on the arena. */
  function Reports(rg: Regions, db: Db, calls: seq<Call>): seq<Report>
    requires Mapped(rg, db.mem) && forall i :: 0 <= i < |calls| ==> CallFits(calls[i])
    decreases |calls|
  {
    if calls == [] then []
    else
      var r := Step(rg, db, calls[0]);
      [r.1] + Reports(rg, r.0, calls[1..])
  }

  lemma {:induction false} RunMeans(rg: Regions, schemas: map<Text, Schema>, db: Db, w: World, p: Plain,
                                    calls: seq<Call>) returns (w': World)
    requires WorldOk(rg, schemas, db, w) && RunOk(schemas, calls) && Stands(rg, db, w, p)
    requires Mapped(rg, db.mem) && NoWrap(rg, db, calls)
    ensures WorldOk(rg, schemas, Run(rg, db, calls), w')
    ensures Stands(rg, Run(rg, db, calls), w', PlainRun(rg, p, calls))
    ensures Reports(rg, db, calls) == TellAll(rg, p, calls)
    ensures Run(rg, db, calls).sent == db.sent + OfferAll(rg, p, calls)
    decreases |calls|
  {
    hide WorldOk, Stands, StringBase, RecordBase, Step, PlainStep, Tell, CallFits, RecordNeed, StringSpace;
    if calls == [] {
      w' := w;
    } else {
      assert CallOk(schemas, calls[0]);
      var w1 := StepMeans(rg, schemas, db, w, p, calls[0]);
      w' := RunMeans(rg, schemas, Step(rg, db, calls[0]).0, w1, PlainStep(rg, p, calls[0]), calls[1..]);
    }
  }

  /** What the machine starts from on an arena no client has used. */
  function Empty(rg: Regions, mem: Buffer): Plain
    requires Mapped(rg, mem)
  {
    Plain(map[], map[], map[], map[], RecordBase(rg, mem), StringBase(rg, mem))
  }

  /**
   After any run on an arena no client has used, with any engine answers: every
   call reported and logged what the machine says, and `find`, field reads and
   `load` answer from its maps.
   */
  lemma StoreIsPlain(rg: Regions, schemas: map<Text, Schema>, db: Db, calls: seq<Call>)
    requires Untouched(rg, db) && SchemasOk(schemas) && RunOk(schemas, calls)
    requires NoWrap(rg, db, calls)
    ensures Mapped(rg, db.mem)
    ensures Reports(rg, db, calls) == TellAll(rg, Empty(rg, db.mem), calls)
    ensures Run(rg, db, calls).sent == OfferAll(rg, Empty(rg, db.mem), calls)
    ensures var db', p := Run(rg, db, calls), PlainRun(rg, Empty(rg, db.mem), calls);
            && (forall c: Collection, key :: c.name in schemas && schemas[c.name] == c.schema ==>
                  Find(rg, db', c, key) ==
                    if KeyAdmitted(key) && !KeyFits(c.name, key) then Rejected
                    else if Visible(p, c, key) then Record(p.at[(c.name, key)])
                    else Absent)
            && (forall c: Collection, key, n ::
                  c.name in schemas && schemas[c.name] == c.schema && Visible(p, c, key) && n in c.schema.fields ==>
                    ReadsAs(db', p, c, key, n))
            && (forall t :: LoadCatalog(db', t) ==
                  if !TableNameOk(t) then BadName
                  else if t in p.savedAt && t in p.tables && p.savedAt[t] < 0x7FFF_FFFF then
                    Loads(Catalog.AsDecodedAll(p.tables[t]))
                  else NoRecord)
  {
    hide WorldOk, Run, TotalRecords, TotalStrings, StringBase, RecordBase, CallFits, Find, LoadCatalog, CatalogKey,
      Namespaced, KeyAdmitted, KeyFits, PlainRun, TellAll, OfferAll, Reports, SchemasOk, CellAt, TableNameOk;
    UntouchedOk(rg, schemas, db);
    var w0, p0 := World(map[], map[], map[]), Empty(rg, db.mem);
    var w := RunMeans(rg, schemas, db, w0, p0, calls);
    var db', p := Run(rg, db, calls), PlainRun(rg, p0, calls);
    forall c: Collection, key | c.name in schemas && schemas[c.name] == c.schema
      ensures Find(rg, db', c, key) ==
        if KeyAdmitted(key) && !KeyFits(c.name, key) then Rejected
        else if Visible(p, c, key) then Record(p.at[(c.name, key)])
        else Absent
    {
      FindMeans(rg, schemas, db', w, p, c, key);
    }
    forall c: Collection, key, n |
      c.name in schemas && schemas[c.name] == c.schema && Visible(p, c, key) && n in c.schema.fields
      ensures ReadsAs(db', p, c, key, n)
    {
      VisibleReads(rg, schemas, db', w, p, c, key, n);
    }
    forall t
      ensures LoadCatalog(db', t) ==
        if !TableNameOk(t) then BadName
        else if t in p.savedAt && t in p.tables && p.savedAt[t] < 0x7FFF_FFFF then
          Loads(Catalog.AsDecodedAll(p.tables[t]))
        else NoRecord
    {
      LoadReads(rg, schemas, db', w, t);
    }
  }

  /** A field of a visible row reads the machine's cell. */
  ghost predicate ReadsAs(db: Db, p: Plain, c: Collection, key: Text, n: Text)
    requires (c.name, key) in p.at && n in c.schema.fields
  {
    var f, at := c.schema.fields[n], p.at[(c.name, key)];
    && (c.name, key) in p.abs && n in p.abs[(c.name, key)]
    && at + f.offset + Width(f.typ) <= |db.mem|
    && CellAt(db.mem, at + f.offset, f.typ) == p.abs[(c.name, key)][n]
  }

  lemma VisibleReads(rg: Regions, schemas: map<Text, Schema>, db: Db, w: World, p: Plain, c: Collection, key: Text,
                     n: Text)
    requires WorldOk(rg, schemas, db, w) && Stands(rg, db, w, p) && c.name in schemas && schemas[c.name] == c.schema
    requires Visible(p, c, key) && n in c.schema.fields
    ensures ReadsAs(db, p, c, key, n)
  {
    hide WorldOk, StringBase, RecordBase, Find, Namespaced, CellAt, KeyInvalid;
    FindHits(rg, schemas, db, w, c, key);
    FindReads(rg, schemas, db, w, c, key, n);
  }
}
