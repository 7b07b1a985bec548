/**
 What one client does to a mapped arena: the two bump allocators, the get and
 set traps of a record proxy, the collection operations and the catalog store.

 Every operation is a function from arena state to arena state that follows the
 code branch by branch. The engine is at the boundary: its return codes are
 arguments, its index is a finite map on key bytes, and the messages it is
 handed are recorded in order together with whether it took them.
 */
module ArenaModel {
  import opened Bytes
  import opened Options
  import opened Utf8
  import opened Layout
  import opened RecordSchema
  import Catalog = CatalogCodec

  const MAX_KEY_LEN: nat := 256
  /** `search_index` answers "not found" for offsets from here up. */
  const RESERVED_OFFSETS: nat := 0x7FFF_FFFF

  type Bits = b: Buffer | |b| == 8 witness [0, 0, 0, 0, 0, 0, 0, 0]

  // ----- messages and state

  datatype Msg =
    | Inline(at: nat, data: Buffer)
    | Arena(at: nat, len: nat)

  /** A message offered to the ring; `text` is the value behind a string pointer. */
  datatype Attempt = Attempt(msg: Msg, accepted: bool, text: Text)

  datatype Db = Db(mem: Buffer, index: map<Buffer, nat>, sent: seq<Attempt>)

  datatype Fault =
    | InvalidKey | KeyTooLong | OutOfRecords | IndexBackpressure | IndexFailed | RemoveFailed
    | RecordOutOfRegion | NotAString | NotANumber | OutOfRange
    | ArenaTooSmall | OutOfStrings | AnnounceBackpressure | AnnounceFailed | PushBackpressure | PushFailed
    | CatalogRefused(error: Catalog.EncodeError)

  datatype Outcome = Done | Threw(fault: Fault)

  /** Return codes: 0 accepted, -2 the ring stayed full, anything else failed. */
  function RefusalOf(rc: int, full: Fault, failed: Fault): Fault {
    if rc == -2 then full else failed
  }

  // ----- bump words

  /** The next free offset a bump word stands for: its seed when still zero. */
  function BumpBase(mem: Buffer, word: nat, seed: nat): nat
    requires word + 4 <= |mem|
  {
    if U32At(mem, word) == 0 then seed else U32At(mem, word)
  }

  /** Seed-by-compare-exchange then atomic add, as one memory update; the word wraps at 2^32. */
  function BumpAdd(mem: Buffer, word: nat, seed: nat, n: nat): (r: Buffer)
    requires word + 4 <= |mem|
    ensures |r| == |mem|
  {
    Put(mem, word, U32Bytes(BumpBase(mem, word, seed) + n))
  }

  ghost predicate Mapped(rg: Regions, mem: Buffer) {
    Ordered(rg) && |mem| == rg.arenaBytes
  }

  function RecordBase(rg: Regions, mem: Buffer): nat
    requires Mapped(rg, mem)
  {
    BumpBase(mem, rg.RecordBump(), rg.recordStart)
  }

  function StringBase(rg: Regions, mem: Buffer): nat
    requires Mapped(rg, mem)
  {
    BumpBase(mem, rg.stringStart, rg.StringDataStart())
  }

  function TakeRecord(rg: Regions, mem: Buffer, stride: nat): (r: Buffer)
    requires Mapped(rg, mem)
    ensures |r| == |mem|
  {
    BumpAdd(mem, rg.RecordBump(), rg.recordStart, stride)
  }

  function TakeString(rg: Regions, mem: Buffer, n: nat): (r: Buffer)
    requires Mapped(rg, mem)
    ensures |r| == |mem|
  {
    BumpAdd(mem, rg.stringStart, rg.StringDataStart(), n)
  }

  // ----- the proxy's traps

  /** A JavaScript value; a number carries its float64 bits and, when integral, its value. */
  datatype JsValue =
    | Number(integer: Option<int>, bits: Bits)
    | String(text: Text)
    | OtherValue

  /** What a field read returns. */
  datatype Cell =
    | Byte(n: nat)
    | Word32(n: nat)
    | Float(bits: Buffer)
    | Txt(text: Text)
    | Undecodable
    | CorruptPointer

  /** Reading a field of type `typ` whose bytes start at `at`. */
  function CellAt(mem: Buffer, at: nat, typ: FieldType): Cell
    requires at + Width(typ) <= |mem|
  {
    match typ
    case UInt8 => Byte(mem[at])
    case UInt32 => Word32(U32At(mem, at))
    case Float64 => Float(mem[at..at + 8])
    case Str => TextAt(mem, U32At(mem, at), U32At(mem, at + 4))
    case Unknown => CorruptPointer
  }

  function TextAt(mem: Buffer, offset: nat, len: nat): Cell {
    if offset == 0 && len == 0 then Txt([])
    else if offset + len > |mem| then CorruptPointer
    else
      match HostDecode(mem[offset..offset + len])
      case Some(t) => Txt(t)
      case None => Undecodable
  }

  /** The bytes a scalar assignment writes, or the error it throws instead. */
  datatype Scalar8 = Bytes8(data: Buffer) | Rejects(fault: Fault)

  function ScalarBytes(typ: FieldType, v: JsValue): (r: Scalar8)
    requires typ != Str && typ != Unknown
    ensures r.Bytes8? ==> |r.data| == Width(typ)
  {
    match typ
    case UInt8 =>
      if v.Number? && v.integer.Some? && 0 <= v.integer.value <= 255 then Bytes8([v.integer.value])
      else Rejects(OutOfRange)
    case UInt32 =>
      if v.Number? && v.integer.Some? && 0 <= v.integer.value < U32_LIMIT then Bytes8(U32Bytes(v.integer.value))
      else Rejects(OutOfRange)
    case Float64 =>
      if v.Number? then Bytes8(v.bits) else Rejects(NotANumber)
  }

  /** Result of one field assignment; `took` says the field's bytes now hold the value. */
  datatype Assigned = Assigned(db: Db, outcome: Outcome, took: bool)

  function Offer(db: Db, msg: Msg, ok: bool, text: Text): Db {
    db.(sent := db.sent + [Attempt(msg, ok, text)])
  }

  /** Writes a field in place, then offers the same bytes to the ring. */
  function StoreField(db: Db, at: nat, data: Buffer, rc: int, text: Text): Assigned
    requires at + |data| <= |db.mem|
  {
    var written := Offer(db.(mem := Put(db.mem, at, data)), Inline(at, data), rc == 0, text);
    Assigned(written, if rc == 0 then Done else Threw(RefusalOf(rc, PushBackpressure, PushFailed)), true)
  }

  function Pointer(offset: nat, len: nat): (d: Buffer)
    ensures |d| == 8
  {
    U32Bytes(offset) + U32Bytes(len)
  }

  /** The engine refuses a zero-length announcement whatever the ring's state. */
  function AnnounceCode(len: nat, rc: int): int {
    if len == 0 then -1 else rc
  }

  /** Copies a payload to its extent and announces it. */
  function Publish(db: Db, at: nat, data: Buffer, rc: int): Db
    requires at + |data| <= |db.mem|
  {
    Offer(db.(mem := Put(db.mem, at, data)), Arena(at, |data|), AnnounceCode(|data|, rc) == 0, [])
  }

  function SetText(rg: Regions, db: Db, at: nat, t: Text, notify: int, push: int): Assigned
    requires Mapped(rg, db.mem) && at + 8 <= |db.mem|
  {
    var data := Encode(t);
    if rg.StringDataStart() >= rg.arenaBytes then
      Assigned(db, Threw(ArenaTooSmall), false)
    else
      var base := StringBase(rg, db.mem);
      var taken := db.(mem := TakeString(rg, db.mem, |data|));
      if base + |data| > rg.StringEnd() then
        Assigned(taken, Threw(OutOfStrings), false)
      else
        var published := Publish(taken, base, data, notify);
        var rc := AnnounceCode(|data|, notify);
        if rc != 0 then
          Assigned(published, Threw(RefusalOf(rc, AnnounceBackpressure, AnnounceFailed)), false)
        else
          StoreField(published, at, Pointer(base, |data|), push, t)
  }

  /** The set trap on a schema field at absolute offset `at`. */
  function SetField(rg: Regions, db: Db, at: nat, typ: FieldType, v: JsValue, notify: int, push: int): (r: Assigned)
    requires Mapped(rg, db.mem) && at + Width(typ) <= |db.mem| && typ != Unknown
    ensures |r.db.mem| == |db.mem|
  {
    if typ == Str then
      if v.String? then SetText(rg, db, at, v.text, notify, push) else Assigned(db, Threw(NotAString), false)
    else
      match ScalarBytes(typ, v)
      case Rejects(fault) => Assigned(db, Threw(fault), false)
      case Bytes8(data) => StoreField(db, at, data, push, [])
  }

  // ----- assignment loops

  /** One `Object.entries` pair; None is `undefined`, the codes are the engine's answers. */
  datatype Entry = Entry(name: Text, value: Option<JsValue>, notify: int, push: int)

  datatype Filled = Filled(db: Db, outcome: Outcome, applied: nat)

  ghost predicate ProxyFits(rg: Regions, db: Db, s: Schema, base: nat) {
    Mapped(rg, db.mem) && WellLaid(s) && base + s.totalSize <= |db.mem|
  }

  /** One pass of the loop body; undefined and off-schema entries touch nothing. */
  function AssignEntry(rg: Regions, db: Db, s: Schema, base: nat, e: Entry): (r: Assigned)
    requires ProxyFits(rg, db, s, base)
    ensures |r.db.mem| == |db.mem| && r.db.index == db.index
  {
    if e.value.None? || e.name !in s.fields then
      Assigned(db, Done, true)
    else
      var f := s.fields[e.name];
      assert FieldFits(f, s.totalSize);
      SetField(rg, db, base + f.offset, f.typ, e.value.value, e.notify, e.push)
  }

  /** The whole loop: it stops at the first assignment that throws. */
  function Fill(rg: Regions, db: Db, s: Schema, base: nat, data: seq<Entry>): (r: Filled)
    requires ProxyFits(rg, db, s, base)
    ensures |r.db.mem| == |db.mem| && r.db.index == db.index && r.applied <= |data|
    ensures r.outcome == Done ==> r.applied == |data|
    decreases |data|
  {
    if data == [] then Filled(db, Done, 0)
    else
      var a := AssignEntry(rg, db, s, base, data[0]);
      if a.outcome.Threw? then Filled(a.db, a.outcome, if a.took then 1 else 0)
      else
        var rest := Fill(rg, a.db, s, base, data[1..]);
        rest.(applied := rest.applied + 1)
  }

  // ----- collections

  datatype Collection = Collection(name: Text, schema: Schema)

  const COLON: Scalar := 0x3A

  function KeyInvalid(key: Text): bool {
    key == [] || Utf16Length(key) > MAX_KEY_LEN || 0 in key || |Encode(key)| > MAX_KEY_LEN
  }

  function Namespaced(name: Text, key: Text): Buffer {
    Encode(name + [COLON] + key)
  }

  datatype Lookup = Absent | Rejected | OutOfRegion | Record(offset: nat)

  function Find(rg: Regions, db: Db, c: Collection, key: Text): Lookup {
    var k := Namespaced(c.name, key);
    if KeyInvalid(key) then Absent
    else if |k| > MAX_KEY_LEN then Rejected
    else if k !in db.index || db.index[k] >= RESERVED_OFFSETS then Absent
    else if db.index[k] + c.schema.totalSize > rg.RecordEnd() then OutOfRegion
    else Record(db.index[k])
  }

  /**
   What a call reports: how it ended, the record whose fields it assigned, and
   whether it created or removed a binding; `applied` counts the leading entries
   whose effect is in memory.
   */
  datatype Report = Report(outcome: Outcome, record: Option<nat>, created: bool, removed: bool, applied: nat)

  function Failed(fault: Fault): Report {
    Report(Threw(fault), None, false, false, 0)
  }

  function Insert(rg: Regions, db: Db, c: Collection, key: Text, data: seq<Entry>, indexRc: int): (Db, Report)
    requires Mapped(rg, db.mem) && WellLaid(c.schema)
  {
    if KeyInvalid(key) then (db, Failed(InvalidKey))
    else
      var stride := AlignUp(c.schema.totalSize, RECORD_ALIGNMENT);
      var base := RecordBase(rg, db.mem);
      var taken := db.(mem := TakeRecord(rg, db.mem, stride));
      var k := Namespaced(c.name, key);
      if base + stride > rg.RecordEnd() then (taken, Failed(OutOfRecords))
      else if |k| > MAX_KEY_LEN then (taken, Failed(KeyTooLong))
      else if indexRc != 0 then (taken, Failed(RefusalOf(indexRc, IndexBackpressure, IndexFailed)))
      else
        var bound := taken.(index := taken.index[k := base]);
        var f := Fill(rg, bound, c.schema, base, data);
        (f.db, Report(f.outcome, Some(base), true, false, f.applied))
  }

  function Update(rg: Regions, db: Db, c: Collection, key: Text, data: seq<Entry>): (Db, Report)
    requires Mapped(rg, db.mem) && WellLaid(c.schema)
  {
    match Find(rg, db, c, key)
    case Absent => (db, Report(Done, None, false, false, 0))
    case Rejected => (db, Failed(KeyTooLong))
    case OutOfRegion => (db, Failed(RecordOutOfRegion))
    case Record(base) =>
      var f := Fill(rg, db, c.schema, base, data);
      (f.db, Report(f.outcome, Some(base), false, false, f.applied))
  }

  function Upsert(rg: Regions, db: Db, c: Collection, key: Text, data: seq<Entry>, indexRc: int): (Db, Report)
    requires Mapped(rg, db.mem) && WellLaid(c.schema)
  {
    if Find(rg, db, c, key) == Absent then Insert(rg, db, c, key, data, indexRc) else Update(rg, db, c, key, data)
  }

  /** `fails` is a bridge error; otherwise the engine reports whether the key was there. */
  function Delete(db: Db, c: Collection, key: Text, fails: bool): (Db, Report) {
    var k := Namespaced(c.name, key);
    if KeyInvalid(key) then (db, Failed(InvalidKey))
    else if |k| > MAX_KEY_LEN then (db, Failed(KeyTooLong))
    else if fails then (db, Failed(RemoveFailed))
    else (db.(index := db.index - {k}), Report(Done, None, false, k in db.index, 0))
  }

  // ----- the catalog store, on the same string bump word

  const CATALOG_PREFIX: Text := Ascii("__catalog__:")

  function CatalogKey(table: Text): Buffer {
    Encode(CATALOG_PREFIX + table)
  }

  /** Table names `catalogRecordKey` and the engine's index accept. */
  predicate TableNameOk(table: Text) {
    1 <= Utf16Length(table) <= 64 && 0 !in table
  }

  /** Its limit is the end of the mapping, not of the string region. */
  function SaveCatalog(rg: Regions, db: Db, table: Text, cols: seq<Catalog.Column>, notify: int, indexRc: int)
    : (Db, Report)
    requires Mapped(rg, db.mem)
  {
    match Catalog.EncodeCatalog(table, cols)
    case Err(e) => (db, Failed(CatalogRefused(e)))
    case Ok(payload) =>
      var base := StringBase(rg, db.mem);
      var taken := db.(mem := TakeString(rg, db.mem, |payload|));
      if base + |payload| > rg.arenaBytes then (taken, Failed(OutOfStrings))
      else
        var published := Publish(taken, base, payload, notify);
        if notify != 0 then (published, Failed(AnnounceFailed))
        else if |CatalogKey(table)| > MAX_KEY_LEN || !TableNameOk(table) then (published, Failed(InvalidKey))
        else if indexRc != 0 then (published, Failed(RefusalOf(indexRc, IndexBackpressure, IndexFailed)))
        else (published.(index := published.index[CatalogKey(table) := base]), Report(Done, Some(base), true, false, 0))
  }

  datatype Loaded =
    | BadName
    | NoRecord
    | BadRecord
    | Loads(columns: seq<Catalog.DecodedColumn>)

  function LoadCatalog(db: Db, table: Text): Loaded {
    var k := CatalogKey(table);
    if !TableNameOk(table) then BadName
    else if k !in db.index || db.index[k] >= RESERVED_OFFSETS then NoRecord
    else
      var off := db.index[k];
      if off + Catalog.HEADER_LEN > |db.mem| then BadRecord
      else if U32At(db.mem, off) != Catalog.CATALOG_REC_MAGIC then BadRecord
      else if U16At(db.mem, off + 4) != Catalog.CATALOG_REC_VERSION then BadRecord
      else
        var total := Catalog.EncodedLen(U16At(db.mem, off + 6));
        if off + total > |db.mem| then BadRecord
        else
          match Catalog.DecodeCatalog(db.mem[off..off + total])
          case Err(_) => BadRecord
          case Ok(d) => if d.table == Some(table) then Loads(d.columns) else BadRecord
  }

  // ----- calls and runs

  /** `Foreign` is any other holder of the string bump word: another client, or the engine itself. */
  datatype Call =
    | CallInsert(c: Collection, key: Text, data: seq<Entry>, indexRc: int)
    | CallUpdate(c: Collection, key: Text, data: seq<Entry>)
    | CallUpsert(c: Collection, key: Text, data: seq<Entry>, indexRc: int)
    | CallDelete(c: Collection, key: Text, fails: bool)
    | CallSave(table: Text, cols: seq<Catalog.Column>, notify: int, indexRc: int)
    | Foreign(payload: Buffer, rc: int)

  ghost predicate CallFits(call: Call) {
    (call.CallInsert? || call.CallUpdate? || call.CallUpsert?) ==> WellLaid(call.c.schema)
  }

  function ForeignWrite(rg: Regions, db: Db, payload: Buffer, rc: int): (Db, Report)
    requires Mapped(rg, db.mem)
  {
    var base := StringBase(rg, db.mem);
    var taken := db.(mem := TakeString(rg, db.mem, |payload|));
    if base + |payload| > rg.StringEnd() then (taken, Failed(OutOfStrings))
    else (Publish(taken, base, payload, rc), Report(Done, None, false, false, 0))
  }

  function Step(rg: Regions, db: Db, call: Call): (r: (Db, Report))
    requires Mapped(rg, db.mem) && CallFits(call)
    ensures |r.0.mem| == |db.mem|
  {
    match call
    case CallInsert(c, key, data, rc) => Insert(rg, db, c, key, data, rc)
    case CallUpdate(c, key, data) => Update(rg, db, c, key, data)
    case CallUpsert(c, key, data, rc) => Upsert(rg, db, c, key, data, rc)
    case CallDelete(c, key, fails) => Delete(db, c, key, fails)
    case CallSave(table, cols, notify, rc) => SaveCatalog(rg, db, table, cols, notify, rc)
    case Foreign(payload, rc) => ForeignWrite(rg, db, payload, rc)
  }

  function Run(rg: Regions, db: Db, calls: seq<Call>): (r: Db)
    requires Mapped(rg, db.mem) && forall i :: 0 <= i < |calls| ==> CallFits(calls[i])
    ensures |r.mem| == |db.mem|
    decreases |calls|
  {
    if calls == [] then db else Run(rg, Step(rg, db, calls[0]).0, calls[1..])
  }
}
