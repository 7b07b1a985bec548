/**
 The client as it runs: one mapped byte array written in place, bump words moved
 by compare-exchange then add, messages offered in order. Each method leaves the
 arena exactly where the corresponding function of `ArenaModel` says.
 */
module ArenaStore {
  import opened Bytes
  import opened Options
  import opened Utf8
  import opened Layout
  import opened RecordSchema
  import opened ArenaModel

  class Store {
    const rg: Regions
    const mem: array<byte>
    var index: map<Buffer, nat>
    var sent: seq<Attempt>

    ghost function State(): Db
      reads this, mem
    {
      Db(mem[..], index, sent)
    }

    ghost predicate Ready()
      reads this, mem
    {
      Ordered(rg) && mem.Length == rg.arenaBytes
    }

    /** Attaches to a mapping whose header was read and accepted. */
    constructor (buffer: array<byte>, regions: Regions)
      requires ReadRegions(buffer[..]) == Table(regions) && ValidateRegions(regions, buffer.Length) == Accepted
      ensures Ready() && mem == buffer && rg == regions
      ensures State() == Db(buffer[..], map[], [])
    {
      ValidIsOrdered(regions);
      rg, mem, index, sent := regions, buffer, map[], [];
    }

    method Poke(at: nat, data: Buffer)
      requires at + |data| <= mem.Length
      modifies mem
      ensures mem[..] == Put(old(mem[..]), at, data)
    {
      forall i | 0 <= i < |data| {
        mem[at + i] := data[i];
      }
    }

    method OfferMessage(msg: Msg, ok: bool, text: Text)
      modifies this`sent
      ensures sent == old(sent) + [Attempt(msg, ok, text)]
    {
      sent := sent + [Attempt(msg, ok, text)];
    }

    // ----- the shared bump words

    /** `Atomics.compareExchange(word, 0, 0, seed)`. */
    method SeedWord(word: nat, seed: nat)
      requires word + 4 <= mem.Length && seed < U32_LIMIT
      modifies mem
      ensures mem[..] == if U32At(old(mem[..]), word) == 0
          then Put(old(mem[..]), word, U32Bytes(seed)) else old(mem[..])
    {
      if U32At(mem[..], word) == 0 {
        Poke(word, U32Bytes(seed));
      }
    }

    /** `Atomics.add(word, 0, n)`: the old value, and a word that wraps. */
    method AddWord(word: nat, n: nat) returns (was: nat)
      requires word + 4 <= mem.Length
      modifies mem
      ensures was == U32At(old(mem[..]), word)
      ensures mem[..] == Put(old(mem[..]), word, U32Bytes(was + n))
    {
      was := U32At(mem[..], word);
      Poke(word, U32Bytes(was + n));
    }

    method Bump(word: nat, seed: nat, n: nat) returns (base: nat)
      requires word + 4 <= mem.Length && 0 < seed < U32_LIMIT
      modifies mem
      ensures base == BumpBase(old(mem[..]), word, seed)
      ensures mem[..] == BumpAdd(old(mem[..]), word, seed, n)
    {
      ghost var was := mem[..];
      SeedWord(word, seed);
      PutU32(was, word, seed);
      base := AddWord(word, n);
    }

    method AllocateRecordOffset(size: nat) returns (r: Option<nat>)
      requires Ready()
      modifies mem
      ensures mem[..] == TakeRecord(rg, old(mem[..]), AlignUp(size, RECORD_ALIGNMENT))
      ensures r == if RecordBase(rg, old(mem[..])) + AlignUp(size, RECORD_ALIGNMENT) > rg.RecordEnd() then None
                   else Some(RecordBase(rg, old(mem[..])))
    {
      var stride := AlignUp(size, RECORD_ALIGNMENT);
      var base := Bump(rg.RecordBump(), rg.recordStart, stride);
      r := if base + stride > rg.RecordEnd() then None else Some(base);
    }

    // ----- the set trap

    /** Copies a payload into its extent, then announces it. */
    method PublishPayload(at: nat, data: Buffer, rc: int)
      requires at + |data| <= mem.Length
      modifies mem, this`sent
      ensures State() == Publish(old(State()), at, data, rc)
    {
      Poke(at, data);
      OfferMessage(Arena(at, |data|), AnnounceCode(|data|, rc) == 0, []);
    }

    /** Writes the field's bytes, then pushes them. */
    method WriteField(at: nat, data: Buffer, rc: int, text: Text) returns (outcome: Outcome)
      requires at + |data| <= mem.Length
      modifies mem, this`sent
      ensures Assigned(State(), outcome, true) == StoreField(old(State()), at, data, rc, text)
    {
      Poke(at, data);
      OfferMessage(Inline(at, data), rc == 0, text);
      outcome := if rc == 0 then Done else Threw(RefusalOf(rc, PushBackpressure, PushFailed));
    }

    method WriteText(at: nat, t: Text, notify: int, push: int) returns (outcome: Outcome, took: bool)
      requires Ready() && at + 8 <= mem.Length
      modifies mem, this`sent
      ensures Assigned(State(), outcome, took) == SetText(rg, old(State()), at, t, notify, push)
    {
      var data := Encode(t);
      if rg.StringDataStart() >= rg.arenaBytes {
        return Threw(ArenaTooSmall), false;
      }
      var base := Bump(rg.stringStart, rg.StringDataStart(), |data|);
      if base + |data| > rg.StringEnd() {
        return Threw(OutOfStrings), false;
      }
      PublishPayload(base, data, notify);
      var rc := AnnounceCode(|data|, notify);
      if rc != 0 {
        return Threw(RefusalOf(rc, AnnounceBackpressure, AnnounceFailed)), false;
      }
      outcome := WriteField(at, Pointer(base, |data|), push, t);
      took := true;
    }

    method Assign(at: nat, typ: FieldType, v: JsValue, notify: int, push: int) returns (outcome: Outcome, took: bool)
      requires Ready() && at + Width(typ) <= mem.Length && typ != Unknown
      modifies mem, this`sent
      ensures Assigned(State(), outcome, took) == SetField(rg, old(State()), at, typ, v, notify, push)
    {
      if typ == Str {
        if !v.String? {
          return Threw(NotAString), false;
        }
        outcome, took := WriteText(at, v.text, notify, push);
      } else {
        var s := ScalarBytes(typ, v);
        if s.Rejects? {
          return Threw(s.fault), false;
        }
        outcome := WriteField(at, s.data, push, []);
        took := true;
      }
    }

    // ----- the assignment loop

    method FillRecord(s: Schema, base: nat, data: seq<Entry>) returns (outcome: Outcome, applied: nat)
      requires Ready() && WellLaid(s) && base + s.totalSize <= mem.Length
      modifies mem, this`sent
      ensures Filled(State(), outcome, applied) == Fill(rg, old(State()), s, base, data)
    {
      hide WellLaid, SetField;
      ghost var start := State();
      applied := 0;
      while applied < |data|
        invariant 0 <= applied <= |data| && index == old(index)
        invariant ProxyFits(rg, State(), s, base)
        invariant var rest := Fill(rg, State(), s, base, data[applied..]);
                  Fill(rg, start, s, base, data) == rest.(applied := applied + rest.applied)
      {
        var e := data[applied];
        assert data[applied..][1..] == data[applied + 1..];
        if e.value.Some? && e.name in s.fields {
          var f := s.fields[e.name];
          FieldWithin(s, e.name);
          var took: bool;
          outcome, took := Assign(base + f.offset, f.typ, e.value.value, e.notify, e.push);
          if outcome.Threw? {
            applied := if took then applied + 1 else applied;
            return;
          }
        }
        applied := applied + 1;
      }
      assert data[applied..] == [];
      outcome := Done;
    }

    // ----- collections

    method Search(c: Collection, key: Text) returns (r: Lookup)
      ensures r == Find(rg, State(), c, key)
    {
      if KeyInvalid(key) {
        return Absent;
      }
      var k := Namespaced(c.name, key);
      if |k| > MAX_KEY_LEN {
        return Rejected;
      }
      if k !in index || index[k] >= RESERVED_OFFSETS {
        return Absent;
      }
      if index[k] + c.schema.totalSize > rg.RecordEnd() {
        return OutOfRegion;
      }
      return Record(index[k]);
    }

    method InsertRow(c: Collection, key: Text, data: seq<Entry>, indexRc: int) returns (rep: Report)
      requires Ready() && WellLaid(c.schema)
      modifies this, mem
      ensures (State(), rep) == Insert(rg, old(State()), c, key, data, indexRc)
    {
      hide WellLaid, Fill;
      if KeyInvalid(key) {
        return Failed(InvalidKey);
      }
      var offset := AllocateRecordOffset(c.schema.totalSize);
      if offset.None? {
        return Failed(OutOfRecords);
      }
      var k := Namespaced(c.name, key);
      if |k| > MAX_KEY_LEN {
        return Failed(KeyTooLong);
      }
      if indexRc != 0 {
        return Failed(RefusalOf(indexRc, IndexBackpressure, IndexFailed));
      }
      index := index[k := offset.value];
      var outcome, applied := FillRecord(c.schema, offset.value, data);
      rep := Report(outcome, offset, true, false, applied);
    }

    method UpdateRow(c: Collection, key: Text, data: seq<Entry>) returns (rep: Report)
      requires Ready() && WellLaid(c.schema)
      modifies this, mem
      ensures (State(), rep) == Update(rg, old(State()), c, key, data)
    {
      hide WellLaid, Fill;
      var found := Search(c, key);
      match found
      case Absent => rep := Report(Done, None, false, false, 0);
      case Rejected => rep := Failed(KeyTooLong);
      case OutOfRegion => rep := Failed(RecordOutOfRegion);
      case Record(base) =>
        var outcome, applied := FillRecord(c.schema, base, data);
        rep := Report(outcome, Some(base), false, false, applied);
    }

    method UpsertRow(c: Collection, key: Text, data: seq<Entry>, indexRc: int) returns (rep: Report)
      requires Ready() && WellLaid(c.schema)
      modifies this, mem
      ensures (State(), rep) == Upsert(rg, old(State()), c, key, data, indexRc)
    {
      hide WellLaid, Insert, Update, Find;
      var found := Search(c, key);
      if found == Absent {
        rep := InsertRow(c, key, data, indexRc);
      } else {
        rep := UpdateRow(c, key, data);
      }
    }

    method DeleteRow(c: Collection, key: Text, fails: bool) returns (rep: Report)
      modifies this`index
      ensures (State(), rep) == Delete(old(State()), c, key, fails)
    {
      if KeyInvalid(key) {
        return Failed(InvalidKey);
      }
      var k := Namespaced(c.name, key);
      if |k| > MAX_KEY_LEN {
        return Failed(KeyTooLong);
      }
      if fails {
        return Failed(RemoveFailed);
      }
      rep := Report(Done, None, false, k in index, 0);
      index := index - {k};
    }

    // ----- the catalog store

    method Save(table: Text, cols: seq<Catalog.Column>, notify: int, indexRc: int) returns (rep: Report)
      requires Ready()
      modifies this, mem
      ensures (State(), rep) == SaveCatalog(rg, old(State()), table, cols, notify, indexRc)
    {
      hide Catalog.EncodeCatalog;
      var encoded := Catalog.EncodeCatalogRecord(table, cols);
      if encoded.Err? {
        return Failed(CatalogRefused(encoded.error));
      }
      var payload := encoded.value[..];
      assert Catalog.EncodeCatalog(table, cols) == Catalog.Ok(payload);
      var base := Bump(rg.stringStart, rg.StringDataStart(), |payload|);
      if base + |payload| > rg.arenaBytes {
        return Failed(OutOfStrings);
      }
      PublishPayload(base, payload, notify);
      if notify != 0 {
        return Failed(AnnounceFailed);
      }
      if |CatalogKey(table)| > MAX_KEY_LEN || !TableNameOk(table) {
        return Failed(InvalidKey);
      }
      if indexRc != 0 {
        return Failed(RefusalOf(indexRc, IndexBackpressure, IndexFailed));
      }
      index := index[CatalogKey(table) := base];
      rep := Report(Done, Some(base), true, false, 0);
    }

    method Load(table: Text) returns (r: Loaded)
      requires Ready()
      ensures r == LoadCatalog(State(), table)
    {
      hide Catalog.DecodeCatalog, U32At, U16At;
      if !TableNameOk(table) {
        return BadName;
      }
      var k := CatalogKey(table);
      if k !in index || index[k] >= RESERVED_OFFSETS {
        return NoRecord;
      }
      var off := index[k];
      if off + Catalog.HEADER_LEN > mem.Length {
        return BadRecord;
      }
      if U32At(mem[..], off) != Catalog.CATALOG_REC_MAGIC || U16At(mem[..], off + 4) != Catalog.CATALOG_REC_VERSION {
        return BadRecord;
      }
      var total := Catalog.EncodedLen(U16At(mem[..], off + 6));
      if off + total > mem.Length {
        return BadRecord;
      }
      var decoded := Catalog.DecodeCatalogRecord(mem[..][off..off + total]);
      r := if decoded.Ok? && decoded.value.table == Some(table) then Loads(decoded.value.columns) else BadRecord;
    }
  }

  lemma FieldWithin(s: Schema, n: Text)
    requires WellLaid(s) && n in s.fields
    ensures FieldFits(s.fields[n], s.totalSize)
  {
  }
}
