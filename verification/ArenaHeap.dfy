/**
 The bytes of the arena as a heap of typed records: what has to hold of memory
 and the two bump words for every record to read as its cells, and how each kind
 of write keeps it.
 */
module ArenaHeap {
  import opened Bytes
  import opened Utf8
  import opened Layout
  import opened RecordSchema
  import opened ArenaModel

  /** A record as its owner sees it: one cell per schema field. */
  datatype Rec = Rec(schema: Schema, cells: map<Text, Cell>)
  type Heap = map<nat, Rec>

  ghost predicate Agree(m: Buffer, m': Buffer, a: int, b: int) {
    |m| == |m'| && forall x {:trigger m[x]} {:trigger m'[x]} :: a <= x < b && 0 <= x < |m| ==> m[x] == m'[x]
  }

  lemma AgreeSlice(m: Buffer, m': Buffer, a: int, b: int, at: nat, n: nat)
    requires Agree(m, m', a, b) && a <= at && at + n <= b && at + n <= |m|
    ensures m[at..at + n] == m'[at..at + n]
  {
  }

  lemma PutAgrees(m: Buffer, at: nat, data: Buffer, a: int, b: int)
    requires at + |data| <= |m| && (b <= at || at + |data| <= a)
    ensures Agree(m, Put(m, at, data), a, b)
  {
  }

  // ----- the heap invariant

  /** A string pointer is null or names an extent below the string bump. */
  predicate PointerOk(rg: Regions, mem: Buffer, s: nat, at: nat)
    requires at + 8 <= |mem|
  {
    var p, n := U32At(mem, at), U32At(mem, at + 4);
    (p == 0 && n == 0) || (rg.StringDataStart() <= p && p + n <= s && p + n <= rg.StringEnd())
  }

  ghost predicate CellOk(rg: Regions, mem: Buffer, s: nat, at: nat, typ: FieldType, cell: Cell) {
    && at + Width(typ) <= |mem|
    && CellAt(mem, at, typ) == cell
    && (typ == Str ==> PointerOk(rg, mem, s, at))
  }

  ghost predicate RecPlaced(rg: Regions, r: nat, o: nat, rec: Rec) {
    && WellLaid(rec.schema)
    && rec.cells.Keys == rec.schema.fields.Keys
    && rg.recordStart <= o && o + rec.schema.totalSize <= r && o + rec.schema.totalSize <= rg.RecordEnd()
  }

  ghost predicate CellsOk(rg: Regions, mem: Buffer, s: nat, o: nat, rec: Rec)
    requires rec.cells.Keys == rec.schema.fields.Keys
  {
    forall n :: n in rec.schema.fields ==>
      CellOk(rg, mem, s, o + rec.schema.fields[n].offset, rec.schema.fields[n].typ, rec.cells[n])
  }

  ghost predicate Apart(heap: Heap) {
    forall o, q :: o in heap && q in heap && o != q
      ==> Disjoint(o, heap[o].schema.totalSize, q, heap[q].schema.totalSize)
  }

  /** `r` and `s` are where the next record and the next string payload go. */
  ghost predicate HeapOk(rg: Regions, mem: Buffer, r: nat, s: nat, heap: Heap) {
    && Mapped(rg, mem)
    && rg.recordStart <= r && rg.StringDataStart() <= s
    && (forall o :: o in heap ==> RecPlaced(rg, r, o, heap[o]))
    && (forall o :: o in heap ==> CellsOk(rg, mem, s, o, heap[o]))
    && Apart(heap)
    && (forall x :: r <= x < rg.RecordEnd() && x < |mem| ==> mem[x] == 0)
  }

  ghost predicate ArenaOk(rg: Regions, mem: Buffer, heap: Heap) {
    Mapped(rg, mem) && HeapOk(rg, mem, RecordBase(rg, mem), StringBase(rg, mem), heap)
  }

  // ----- writes that miss every record and every taken payload

  lemma CellFrame(rg: Regions, mem: Buffer, mem': Buffer, s: nat, s': nat, at: nat, typ: FieldType, cell: Cell)
    requires Mapped(rg, mem) && CellOk(rg, mem, s, at, typ, cell) && s <= s'
    requires Agree(mem, mem', at, at + Width(typ)) && Agree(mem, mem', rg.StringDataStart(), s)
    ensures CellOk(rg, mem', s', at, typ, cell)
  {
    match typ
    case UInt8 =>
    case UInt32 => AgreeSlice(mem, mem', at, at + 4, at, 4);
    case Float64 => AgreeSlice(mem, mem', at, at + 8, at, 8);
    case Unknown =>
    case Str =>
      AgreeSlice(mem, mem', at, at + 8, at, 4);
      AgreeSlice(mem, mem', at, at + 8, at + 4, 4);
      var p, n := U32At(mem, at), U32At(mem, at + 4);
      if !(p == 0 && n == 0) {
        AgreeSlice(mem, mem', rg.StringDataStart(), s, p, n);
      }
  }

  lemma CellsFrame(rg: Regions, mem: Buffer, mem': Buffer, s: nat, s': nat, o: nat, rec: Rec)
    requires Mapped(rg, mem) && WellLaid(rec.schema) && rec.cells.Keys == rec.schema.fields.Keys
    requires CellsOk(rg, mem, s, o, rec) && s <= s'
    requires Agree(mem, mem', o, o + rec.schema.totalSize) && Agree(mem, mem', rg.StringDataStart(), s)
    ensures CellsOk(rg, mem', s', o, rec)
  {
    hide CellOk;
    forall n | n in rec.schema.fields
      ensures CellOk(rg, mem', s', o + rec.schema.fields[n].offset, rec.schema.fields[n].typ, rec.cells[n])
    {
      var f := rec.schema.fields[n];
      assert FieldFits(f, rec.schema.totalSize);
      CellFrame(rg, mem, mem', s, s', o + f.offset, f.typ, rec.cells[n]);
    }
  }

  lemma HeapFrame(rg: Regions, mem: Buffer, mem': Buffer, r: nat, r': nat, s: nat, s': nat, heap: Heap)
    requires HeapOk(rg, mem, r, s, heap) && r <= r' && s <= s'
    requires Agree(mem, mem', rg.recordStart, rg.RecordEnd()) && Agree(mem, mem', rg.StringDataStart(), s)
    ensures HeapOk(rg, mem', r', s', heap)
  {
    hide CellsOk;
    forall o | o in heap
      ensures RecPlaced(rg, r', o, heap[o]) && CellsOk(rg, mem', s', o, heap[o])
    {
      CellsFrame(rg, mem, mem', s, s', o, heap[o]);
    }
  }

  // ----- the bump words

  lemma BumpMoves(mem: Buffer, word: nat, seed: nat, n: nat)
    requires word + 4 <= |mem| && 0 < seed && BumpBase(mem, word, seed) + n < U32_LIMIT
    ensures BumpBase(BumpAdd(mem, word, seed, n), word, seed) == BumpBase(mem, word, seed) + n
  {
    PutU32(mem, word, BumpBase(mem, word, seed) + n);
  }

  lemma BumpFrame(mem: Buffer, at: nat, data: Buffer, word: nat, seed: nat)
    requires at + |data| <= |mem| && word + 4 <= |mem| && (word + 4 <= at || at + |data| <= word)
    ensures BumpBase(Put(mem, at, data), word, seed) == BumpBase(mem, word, seed)
  {
    PutFrame(mem, at, data, word, 4);
  }

  /** Taking record space moves the record bump and nothing a reader can see. */
  lemma TakeRecordOk(rg: Regions, mem: Buffer, stride: nat, heap: Heap)
    requires ArenaOk(rg, mem, heap) && RecordBase(rg, mem) + stride < U32_LIMIT
    ensures ArenaOk(rg, TakeRecord(rg, mem, stride), heap)
    ensures RecordBase(rg, TakeRecord(rg, mem, stride)) == RecordBase(rg, mem) + stride
    ensures StringBase(rg, TakeRecord(rg, mem, stride)) == StringBase(rg, mem)
    ensures Agree(mem, TakeRecord(rg, mem, stride), rg.recordStart, rg.arenaBytes)
  {
    var data := U32Bytes(RecordBase(rg, mem) + stride);
    var mem' := TakeRecord(rg, mem, stride);
    BumpMoves(mem, rg.RecordBump(), rg.recordStart, stride);
    BumpFrame(mem, rg.RecordBump(), data, rg.stringStart, rg.StringDataStart());
    PutAgrees(mem, rg.RecordBump(), data, rg.recordStart, rg.arenaBytes);
    HeapFrame(rg, mem, mem', RecordBase(rg, mem), RecordBase(rg, mem'), StringBase(rg, mem), StringBase(rg, mem'),
      heap);
  }

  /** Taking string space moves the string bump and nothing a reader can see. */
  lemma TakeStringOk(rg: Regions, mem: Buffer, n: nat, heap: Heap)
    requires ArenaOk(rg, mem, heap) && StringBase(rg, mem) + n < U32_LIMIT
    ensures ArenaOk(rg, TakeString(rg, mem, n), heap)
    ensures StringBase(rg, TakeString(rg, mem, n)) == StringBase(rg, mem) + n
    ensures RecordBase(rg, TakeString(rg, mem, n)) == RecordBase(rg, mem)
    ensures Agree(mem, TakeString(rg, mem, n), rg.recordStart, rg.RecordEnd())
    ensures Agree(mem, TakeString(rg, mem, n), rg.StringDataStart(), rg.arenaBytes)
  {
    var data := U32Bytes(StringBase(rg, mem) + n);
    var mem' := TakeString(rg, mem, n);
    BumpMoves(mem, rg.stringStart, rg.StringDataStart(), n);
    BumpFrame(mem, rg.stringStart, data, rg.RecordBump(), rg.recordStart);
    PutAgrees(mem, rg.stringStart, data, rg.recordStart, rg.RecordEnd());
    PutAgrees(mem, rg.stringStart, data, rg.StringDataStart(), rg.arenaBytes);
    HeapFrame(rg, mem, mem', RecordBase(rg, mem), RecordBase(rg, mem'), StringBase(rg, mem), StringBase(rg, mem'),
      heap);
  }

  /** Filling an extent between an old and the current string bump disturbs nothing else. */
  lemma PayloadOk(rg: Regions, mem: Buffer, taken: Buffer, n: nat, data: Buffer, heap: Heap)
    requires ArenaOk(rg, mem, heap) && StringBase(rg, mem) + n < U32_LIMIT && |data| <= n
    requires taken == TakeString(rg, mem, n) && StringBase(rg, mem) + |data| <= |mem|
    ensures ArenaOk(rg, Put(taken, StringBase(rg, mem), data), heap)
    ensures StringBase(rg, Put(taken, StringBase(rg, mem), data)) == StringBase(rg, mem) + n
    ensures RecordBase(rg, Put(taken, StringBase(rg, mem), data)) == RecordBase(rg, mem)
    ensures Agree(mem, Put(taken, StringBase(rg, mem), data), rg.recordStart, rg.RecordEnd())
    ensures Agree(mem, Put(taken, StringBase(rg, mem), data), rg.StringDataStart(), StringBase(rg, mem))
  {
    TakeStringOk(rg, mem, n, heap);
    var at := StringBase(rg, mem);
    var mem' := Put(taken, at, data);
    BumpFrame(taken, at, data, rg.stringStart, rg.StringDataStart());
    BumpFrame(taken, at, data, rg.RecordBump(), rg.recordStart);
    PutAgrees(taken, at, data, rg.recordStart, rg.RecordEnd());
    PutAgrees(taken, at, data, rg.StringDataStart(), at);
    assert HeapOk(rg, taken, RecordBase(rg, mem), at, heap) by {
      HeapFrame(rg, mem, taken, RecordBase(rg, mem), RecordBase(rg, mem), at, at, heap);
    }
    HeapFrame(rg, taken, mem', RecordBase(rg, mem), RecordBase(rg, mem), at, at + n, heap);
  }

  // ----- writing one field

  lemma FieldsApart(s: Schema, n: Text, k: Text)
    requires WellLaid(s) && n in s.fields && k in s.fields && n != k
    ensures Disjoint(s.fields[n].offset, s.fields[n].size, s.fields[k].offset, s.fields[k].size)
  {
  }

  lemma OtherRecord(rg: Regions, mem: Buffer, r: nat, s: nat, at: nat, data: Buffer, q: nat, rec: Rec)
    requires Mapped(rg, mem) && RecPlaced(rg, r, q, rec) && CellsOk(rg, mem, s, q, rec)
    requires at + |data| <= rg.RecordEnd() && Disjoint(at, |data|, q, rec.schema.totalSize)
    ensures at + |data| <= |mem| && CellsOk(rg, Put(mem, at, data), s, q, rec)
  {
    PutAgrees(mem, at, data, q, q + rec.schema.totalSize);
    PutAgrees(mem, at, data, rg.StringDataStart(), s);
    CellsFrame(rg, mem, Put(mem, at, data), s, s, q, rec);
  }

  lemma SameRecord(rg: Regions, mem: Buffer, s: nat, o: nat, rec: Rec, n: Text, data: Buffer, cell: Cell)
    requires Mapped(rg, mem) && WellLaid(rec.schema) && rec.cells.Keys == rec.schema.fields.Keys && n in rec.cells
    requires o + rec.schema.totalSize <= rg.RecordEnd() && CellsOk(rg, mem, s, o, rec)
    requires |data| == rec.schema.fields[n].size && o + rec.schema.fields[n].offset + |data| <= |mem|
    requires var f := rec.schema.fields[n];
             CellOk(rg, Put(mem, o + f.offset, data), s, o + f.offset, f.typ, cell)
    ensures CellsOk(rg, Put(mem, o + rec.schema.fields[n].offset, data), s, o, rec.(cells := rec.cells[n := cell]))
  {
    hide CellOk;
    var at := o + rec.schema.fields[n].offset;
    var mem' := Put(mem, at, data);
    PutAgrees(mem, at, data, rg.StringDataStart(), s);
    forall k | k in rec.schema.fields && k != n
      ensures CellOk(rg, mem', s, o + rec.schema.fields[k].offset, rec.schema.fields[k].typ, rec.cells[k])
    {
      FieldsApart(rec.schema, n, k);
      var f := rec.schema.fields[k];
      assert FieldFits(f, rec.schema.totalSize);
      PutAgrees(mem, at, data, o + f.offset, o + f.offset + f.size);
      CellFrame(rg, mem, mem', s, s, o + f.offset, f.typ, rec.cells[k]);
    }
  }

  function WithCell(heap: Heap, o: nat, n: Text, cell: Cell): Heap
    requires o in heap
  {
    heap[o := heap[o].(cells := heap[o].cells[n := cell])]
  }

  /** Where field `n` of the record at `o` lies, and that it lies in the record region. */
  function FieldStart(heap: Heap, o: nat, n: Text): nat
    requires o in heap && n in heap[o].schema.fields
  {
    o + heap[o].schema.fields[n].offset
  }

  lemma FieldInRegion(rg: Regions, mem: Buffer, r: nat, s: nat, heap: Heap, o: nat, n: Text)
    requires HeapOk(rg, mem, r, s, heap) && o in heap && n in heap[o].schema.fields
    ensures var f := heap[o].schema.fields[n];
            FieldFits(f, heap[o].schema.totalSize) && n in heap[o].cells
            && rg.recordStart <= o <= FieldStart(heap, o, n)
            && FieldStart(heap, o, n) + f.size <= o + heap[o].schema.totalSize <= r
            && o + heap[o].schema.totalSize <= rg.RecordEnd()
  {
    assert RecPlaced(rg, r, o, heap[o]);
  }

  lemma OtherAfterWrite(rg: Regions, mem: Buffer, r: nat, s: nat, heap: Heap, o: nat, n: Text, data: Buffer, q: nat)
    requires HeapOk(rg, mem, r, s, heap) && o in heap && n in heap[o].schema.fields && q in heap && q != o
    requires |data| == heap[o].schema.fields[n].size && FieldStart(heap, o, n) + |data| <= |mem|
    ensures RecPlaced(rg, r, q, heap[q]) && CellsOk(rg, Put(mem, FieldStart(heap, o, n), data), s, q, heap[q])
  {
    hide CellsOk;
    FieldInRegion(rg, mem, r, s, heap, o, n);
    assert Disjoint(o, heap[o].schema.totalSize, q, heap[q].schema.totalSize);
    assert RecPlaced(rg, r, q, heap[q]) && CellsOk(rg, mem, s, q, heap[q]);
    OtherRecord(rg, mem, r, s, FieldStart(heap, o, n), data, q, heap[q]);
  }

  lemma OwnAfterWrite(rg: Regions, mem: Buffer, r: nat, s: nat, heap: Heap, o: nat, n: Text, data: Buffer, cell: Cell)
    requires HeapOk(rg, mem, r, s, heap) && o in heap && n in heap[o].schema.fields
    requires |data| == heap[o].schema.fields[n].size && FieldStart(heap, o, n) + |data| <= |mem|
    requires CellOk(rg, Put(mem, FieldStart(heap, o, n), data), s,
                    FieldStart(heap, o, n), heap[o].schema.fields[n].typ, cell)
    ensures n in heap[o].cells
    ensures var rec := heap[o].(cells := heap[o].cells[n := cell]);
            RecPlaced(rg, r, o, rec) && CellsOk(rg, Put(mem, FieldStart(heap, o, n), data), s, o, rec)
  {
    hide CellOk, CellsOk;
    FieldInRegion(rg, mem, r, s, heap, o, n);
    assert RecPlaced(rg, r, o, heap[o]) && CellsOk(rg, mem, s, o, heap[o]);
    SameRecord(rg, mem, s, o, heap[o], n, data, cell);
  }

  lemma HeapWrite(rg: Regions, mem: Buffer, r: nat, s: nat, heap: Heap, o: nat, n: Text, data: Buffer, cell: Cell)
    requires HeapOk(rg, mem, r, s, heap) && o in heap && n in heap[o].schema.fields
    requires |data| == heap[o].schema.fields[n].size && FieldStart(heap, o, n) + |data| <= |mem|
    requires CellOk(rg, Put(mem, FieldStart(heap, o, n), data), s,
                    FieldStart(heap, o, n), heap[o].schema.fields[n].typ, cell)
    ensures HeapOk(rg, Put(mem, FieldStart(heap, o, n), data), r, s, WithCell(heap, o, n, cell))
  {
    hide CellOk;
    var mem' := Put(mem, FieldStart(heap, o, n), data);
    var heap' := WithCell(heap, o, n, cell);
    forall q | q in heap'
      ensures RecPlaced(rg, r, q, heap'[q]) && CellsOk(rg, mem', s, q, heap'[q])
    {
      if q == o {
        OwnAfterWrite(rg, mem, r, s, heap, o, n, data, cell);
      } else {
        OtherAfterWrite(rg, mem, r, s, heap, o, n, data, q);
      }
    }
    FieldInRegion(rg, mem, r, s, heap, o, n);
    PutAgrees(mem, FieldStart(heap, o, n), data, r, rg.RecordEnd());
    ApartAfterWrite(heap, o, n, cell);
  }

  lemma ApartAfterWrite(heap: Heap, o: nat, n: Text, cell: Cell)
    requires Apart(heap) && o in heap
    ensures Apart(WithCell(heap, o, n, cell))
  {
  }

  /** Writing one field changes that cell of that record and no other cell anywhere. */
  lemma FieldWriteOk(rg: Regions, mem: Buffer, heap: Heap, o: nat, n: Text, data: Buffer, cell: Cell)
    requires ArenaOk(rg, mem, heap) && o in heap && n in heap[o].schema.fields
    requires |data| == heap[o].schema.fields[n].size && FieldStart(heap, o, n) + |data| <= |mem|
    requires CellOk(rg, Put(mem, FieldStart(heap, o, n), data), StringBase(rg, mem),
                    FieldStart(heap, o, n), heap[o].schema.fields[n].typ, cell)
    ensures var mem' := Put(mem, FieldStart(heap, o, n), data);
            ArenaOk(rg, mem', WithCell(heap, o, n, cell))
            && RecordBase(rg, mem') == RecordBase(rg, mem) && StringBase(rg, mem') == StringBase(rg, mem)
            && Agree(mem, mem', rg.StringDataStart(), rg.arenaBytes)
  {
    hide CellOk, HeapOk;
    var r, s := RecordBase(rg, mem), StringBase(rg, mem);
    var at := FieldStart(heap, o, n);
    FieldInRegion(rg, mem, r, s, heap, o, n);
    BumpFrame(mem, at, data, rg.RecordBump(), rg.recordStart);
    BumpFrame(mem, at, data, rg.stringStart, rg.StringDataStart());
    PutAgrees(mem, at, data, rg.StringDataStart(), rg.arenaBytes);
    HeapWrite(rg, mem, r, s, heap, o, n, data, cell);
  }

  // ----- a fresh record

  function ZeroCell(typ: FieldType): Cell {
    match typ
    case UInt8 => Byte(0)
    case UInt32 => Word32(0)
    case Float64 => Float(Zeros(8))
    case Str => Txt([])
    case Unknown => CorruptPointer
  }

  function ZeroCells(s: Schema): (cells: map<Text, Cell>)
    ensures cells.Keys == s.fields.Keys
  {
    map n | n in s.fields :: ZeroCell(s.fields[n].typ)
  }

  lemma ZeroBytesRead(rg: Regions, mem: Buffer, s: nat, at: nat, typ: FieldType)
    requires at + Width(typ) <= |mem| && forall x :: at <= x < at + Width(typ) ==> mem[x] == 0
    ensures CellOk(rg, mem, s, at, typ, ZeroCell(typ))
  {
    if typ == UInt32 || typ == Str {
      NumberOfZeros(mem[at..at + 4]);
    }
    if typ == Str {
      NumberOfZeros(mem[at + 4..at + 8]);
    }
    if typ == Float64 {
      assert mem[at..at + 8] == Zeros(8);
    }
  }

  lemma ZeroCellsOk(rg: Regions, mem: Buffer, b: nat, r0: nat, s: Schema)
    requires WellLaid(s) && r0 + s.totalSize <= |mem|
    requires forall x :: r0 <= x < r0 + s.totalSize ==> mem[x] == 0
    ensures CellsOk(rg, mem, b, r0, Rec(s, ZeroCells(s)))
  {
    forall n | n in s.fields
      ensures CellOk(rg, mem, b, r0 + s.fields[n].offset, s.fields[n].typ, ZeroCells(s)[n])
    {
      assert FieldFits(s.fields[n], s.totalSize);
      ZeroBytesRead(rg, mem, b, r0 + s.fields[n].offset, s.fields[n].typ);
    }
  }

  /** A record carved out of untouched memory reads as all zeros and empty strings. */
  lemma FreshRecordOk(rg: Regions, mem: Buffer, r0: nat, heap: Heap, s: Schema)
    requires ArenaOk(rg, mem, heap) && WellLaid(s)
    requires rg.recordStart <= r0 && r0 + s.totalSize <= RecordBase(rg, mem) && r0 + s.totalSize <= rg.RecordEnd()
    requires forall o :: o in heap ==> o + heap[o].schema.totalSize <= r0
    requires forall x :: r0 <= x < rg.RecordEnd() && x < |mem| ==> mem[x] == 0
    ensures r0 !in heap
    ensures ArenaOk(rg, mem, heap[r0 := Rec(s, ZeroCells(s))])
  {
    var r, b := RecordBase(rg, mem), StringBase(rg, mem);
    ZeroCellsOk(rg, mem, b, r0, s);
    forall o | o in heap
      ensures o < r0
    {
      assert RecPlaced(rg, r, o, heap[o]);
    }
    var heap' := heap[r0 := Rec(s, ZeroCells(s))];
    forall o | o in heap'
      ensures RecPlaced(rg, r, o, heap'[o]) && CellsOk(rg, mem, b, o, heap'[o])
    {
      if o != r0 { assert RecPlaced(rg, r, o, heap[o]) && CellsOk(rg, mem, b, o, heap[o]); }
    }
    AddApart(heap, r0, Rec(s, ZeroCells(s)));
  }

  lemma AddApart(heap: Heap, r0: nat, rec: Rec)
    requires Apart(heap) && forall o :: o in heap ==> o + heap[o].schema.totalSize <= r0
    ensures Apart(heap[r0 := rec])
  {
  }

  // ----- one field assignment

  /** What a field reads after it took a value. */
  function Stored(typ: FieldType, v: JsValue): Cell {
    match typ
    case UInt8 => if v.Number? && v.integer.Some? && v.integer.value >= 0 then Byte(v.integer.value) else CorruptPointer
    case UInt32 =>
      if v.Number? && v.integer.Some? && v.integer.value >= 0 then Word32(v.integer.value) else CorruptPointer
    case Float64 => if v.Number? then Float(v.bits) else CorruptPointer
    case Str => if v.String? then Txt(StripBom(v.text)) else CorruptPointer
    case Unknown => CorruptPointer
  }

  function StringNeed(v: JsValue): nat {
    if v.String? then |Encode(v.text)| else 0
  }

  lemma ScalarReads(rg: Regions, mem: Buffer, s: nat, at: nat, typ: FieldType, v: JsValue)
    requires typ != Str && typ != Unknown && at + Width(typ) <= |mem|
    requires ScalarBytes(typ, v).Bytes8?
    ensures CellOk(rg, Put(mem, at, ScalarBytes(typ, v).data), s, at, typ, Stored(typ, v))
  {
    PutRead(mem, at, ScalarBytes(typ, v).data);
    if typ == UInt32 {
      PutU32(mem, at, v.integer.value);
    }
  }

  lemma PointerReads(mem: Buffer, at: nat, p: nat, n: nat)
    requires at + 8 <= |mem| && p < U32_LIMIT && n < U32_LIMIT
    ensures U32At(Put(mem, at, Pointer(p, n)), at) == p && U32At(Put(mem, at, Pointer(p, n)), at + 4) == n
  {
    var m' := Put(mem, at, Pointer(p, n));
    PutReadPart(mem, at, Pointer(p, n), 0, 4);
    PutReadPart(mem, at, Pointer(p, n), 4, 4);
    assert m'[at..at + 4] == U32Bytes(p) && m'[at + 4..at + 8] == U32Bytes(n);
    WordRoundTrip(p);
    WordRoundTrip(n);
  }

  lemma TextReads(rg: Regions, mem: Buffer, s: nat, at: nat, p: nat, t: Text)
    requires Mapped(rg, mem) && at + 8 <= rg.RecordEnd() && s < U32_LIMIT
    requires rg.StringDataStart() <= p && p + |Encode(t)| <= s && p + |Encode(t)| <= rg.StringEnd()
    requires mem[p..p + |Encode(t)|] == Encode(t)
    ensures at + 8 <= |mem|
    ensures CellOk(rg, Put(mem, at, Pointer(p, |Encode(t)|)), s, at, Str, Txt(StripBom(t)))
  {
    var n := |Encode(t)|;
    var mem' := Put(mem, at, Pointer(p, n));
    PointerReads(mem, at, p, n);
    PutFrame(mem, at, Pointer(p, n), p, n);
    EncodedTextReads(mem', p, t);
  }

  lemma EncodedTextReads(mem: Buffer, p: nat, t: Text)
    requires 0 < p && p + |Encode(t)| <= |mem| && mem[p..p + |Encode(t)|] == Encode(t)
    ensures TextAt(mem, p, |Encode(t)|) == Txt(StripBom(t))
  {
    HostRoundTrip(t);
  }

  /** What an assignment through a proxy guarantees, whichever way it ends. */
  ghost predicate AssignedOk(rg: Regions, db: Db, a: Assigned, heap: Heap, heap': Heap, need: nat)
    requires Mapped(rg, db.mem)
  {
    && ArenaOk(rg, a.db.mem, heap')
    && RecordBase(rg, a.db.mem) == RecordBase(rg, db.mem)
    && StringBase(rg, db.mem) <= StringBase(rg, a.db.mem) <= StringBase(rg, db.mem) + need
    && a.db.index == db.index
    && Agree(db.mem, a.db.mem, rg.StringDataStart(), StringBase(rg, db.mem))
    && (a.outcome == Done ==> a.took)
  }

  /** The pointer write that ends a string assignment, over memory that already holds the payload. */
  lemma PointerWriteOk(rg: Regions, mem: Buffer, heap: Heap, o: nat, n: Text, base: nat, t: Text)
    requires ArenaOk(rg, mem, heap) && o in heap && n in heap[o].schema.fields && heap[o].schema.fields[n].typ == Str
    requires rg.StringDataStart() <= base && base + |Encode(t)| <= StringBase(rg, mem)
    requires base + |Encode(t)| <= rg.StringEnd()
    requires mem[base..base + |Encode(t)|] == Encode(t)
    ensures FieldStart(heap, o, n) + 8 <= |mem|
    ensures var mem' := Put(mem, FieldStart(heap, o, n), Pointer(base, |Encode(t)|));
            ArenaOk(rg, mem', WithCell(heap, o, n, Txt(StripBom(t))))
            && RecordBase(rg, mem') == RecordBase(rg, mem) && StringBase(rg, mem') == StringBase(rg, mem)
            && Agree(mem, mem', rg.StringDataStart(), rg.arenaBytes)
  {
    FieldInRegion(rg, mem, RecordBase(rg, mem), StringBase(rg, mem), heap, o, n);
    TextReads(rg, mem, StringBase(rg, mem), FieldStart(heap, o, n), base, t);
    FieldWriteOk(rg, mem, heap, o, n, Pointer(base, |Encode(t)|), Txt(StripBom(t)));
  }

  lemma SetTextOk(rg: Regions, db: Db, heap: Heap, o: nat, n: Text, t: Text, notify: int, push: int)
    requires ArenaOk(rg, db.mem, heap) && o in heap && n in heap[o].schema.fields && heap[o].schema.fields[n].typ == Str
    requires StringBase(rg, db.mem) + |Encode(t)| < U32_LIMIT
    ensures FieldStart(heap, o, n) + 8 <= |db.mem|
    ensures var a := SetText(rg, db, FieldStart(heap, o, n), t, notify, push);
            AssignedOk(rg, db, a, heap, if a.took then WithCell(heap, o, n, Txt(StripBom(t))) else heap, |Encode(t)|)
  {
    FieldInRegion(rg, db.mem, RecordBase(rg, db.mem), StringBase(rg, db.mem), heap, o, n);
    var at := FieldStart(heap, o, n);
    var data := Encode(t);
    var base := StringBase(rg, db.mem);
    var a := SetText(rg, db, at, t, notify, push);
    if rg.StringDataStart() < rg.arenaBytes {
      var taken := TakeString(rg, db.mem, |data|);
      TakeStringOk(rg, db.mem, |data|, heap);
      if base + |data| > rg.StringEnd() {
        assert a.db.mem == taken && !a.took;
      } else {
        var filled := Put(taken, base, data);
        PayloadOk(rg, db.mem, taken, |data|, data, heap);
        if AnnounceCode(|data|, notify) != 0 {
          assert a.db.mem == filled && !a.took;
        } else {
          assert a.db.mem == Put(filled, at, Pointer(base, |data|)) && a.took;
          PutRead(taken, base, data);
          PointerWriteOk(rg, filled, heap, o, n, base, t);
          assert Agree(filled, a.db.mem, rg.StringDataStart(), base);
        }
      }
    }
  }

  /**
   One assignment through a proxy: when it takes, that cell alone becomes what was
   assigned (less a leading byte-order mark); when it does not, no cell changes.
   */
  lemma SetFieldOk(rg: Regions, db: Db, heap: Heap, o: nat, n: Text, v: JsValue, notify: int, push: int)
    requires ArenaOk(rg, db.mem, heap) && o in heap && n in heap[o].schema.fields
    requires StringBase(rg, db.mem) + StringNeed(v) < U32_LIMIT
    ensures var f := heap[o].schema.fields[n];
            FieldStart(heap, o, n) + Width(f.typ) <= |db.mem| && f.typ != Unknown
    ensures var f := heap[o].schema.fields[n];
            var a := SetField(rg, db, FieldStart(heap, o, n), f.typ, v, notify, push);
            AssignedOk(rg, db, a, heap, if a.took then WithCell(heap, o, n, Stored(f.typ, v)) else heap, StringNeed(v))
  {
    FieldInRegion(rg, db.mem, RecordBase(rg, db.mem), StringBase(rg, db.mem), heap, o, n);
    var f := heap[o].schema.fields[n];
    if f.typ == Str {
      if v.String? {
        SetTextOk(rg, db, heap, o, n, v.text, notify, push);
      }
    } else if ScalarBytes(f.typ, v).Bytes8? {
      ScalarReads(rg, db.mem, StringBase(rg, db.mem), FieldStart(heap, o, n), f.typ, v);
      FieldWriteOk(rg, db.mem, heap, o, n, ScalarBytes(f.typ, v).data, Stored(f.typ, v));
    }
  }
}
