/**
 What the log can rebuild. Replaying the accepted messages over the starting
 arena gives back memory wherever nothing was refused, and every prefix of the
 message sequence replays to an arena whose string pointers resolve.
 */
module ArenaLog {
  import opened Bytes
  import opened Utf8
  import opened Layout
  import opened RecordSchema
  import opened ArenaModel
  import opened ArenaHeap
  import opened ArenaRefinement
  import opened PlainStore

  // ----- replay

  function Length(msg: Msg): nat {
    match msg
    case Inline(_, data) => |data|
    case Arena(_, len) => len
  }

  predicate Fits(msg: Msg, n: nat) {
    msg.at + Length(msg) <= n
  }

  predicate AllFit(sent: seq<Attempt>, n: nat) {
    forall i :: 0 <= i < |sent| ==> Fits(sent[i].msg, n)
  }

  /** The bytes a message writes; an arena message carries whatever `src` holds when it is drained. */
  function Payload(msg: Msg, src: Buffer): (d: Buffer)
    requires Fits(msg, |src|)
    ensures |d| == Length(msg)
  {
    match msg
    case Inline(_, data) => data
    case Arena(at, len) => src[at..at + len]
  }

  /** The accepted messages, in order, over `m0`. */
  function Replay(m0: Buffer, sent: seq<Attempt>, src: Buffer): (r: Buffer)
    requires AllFit(sent, |m0|) && |src| == |m0|
    ensures |r| == |m0|
  {
    if sent == [] then m0
    else
      var front := Replay(m0, sent[..|sent| - 1], src);
      var last := sent[|sent| - 1];
      if last.accepted then Put(front, last.msg.at, Payload(last.msg, src)) else front
  }

  predicate Covers(msg: Msg, x: nat) {
    msg.at <= x < msg.at + Length(msg)
  }

  /** Address `x` was written by a refused message and not logged again since. */
  predicate Unlogged(sent: seq<Attempt>, x: nat) {
    if sent == [] then false
    else
      var last := sent[|sent| - 1];
      if Covers(last.msg, x) then !last.accepted else Unlogged(sent[..|sent| - 1], x)
  }

  predicate InRegions(rg: Regions, x: nat) {
    rg.recordStart <= x < rg.RecordEnd() || rg.StringDataStart() <= x < rg.arenaBytes
  }

  // ----- the log invariant

  /** Announced extents lie among the string payloads already handed out. */
  ghost predicate ArenasBelow(rg: Regions, s: nat, sent: seq<Attempt>) {
    forall i :: 0 <= i < |sent| && sent[i].msg.Arena? ==>
        rg.StringDataStart() <= sent[i].msg.at && sent[i].msg.at + sent[i].msg.len <= s
  }

  /** Memory and replay agree wherever the log is not behind. */
  ghost predicate CleanOk(rg: Regions, m0: Buffer, mem: Buffer, sent: seq<Attempt>)
    requires AllFit(sent, |m0|) && |mem| == |m0|
  {
    forall x {:trigger mem[x]} :: 0 <= x < |mem| && InRegions(rg, x) && !Unlogged(sent, x) ==>
        Replay(m0, sent, mem)[x] == mem[x]
  }

  /** The bytes at `at` are field `n` of the record at `o`. */
  ghost predicate SiteIs(heap: Heap, o: nat, n: Text, at: nat, len: nat) {
    o in heap && n in heap[o].schema.fields && at == o + heap[o].schema.fields[n].offset
        && len == heap[o].schema.fields[n].size
  }

  /** An accepted announcement before message `i` covers exactly the payload its pointer names. */
  ghost predicate Backed(mem: Buffer, sent: seq<Attempt>, i: nat, j: nat)
    requires i < |sent| && sent[i].msg.Inline?
  {
    && j < i && sent[j].accepted && sent[j].msg.Arena? && Fits(sent[j].msg, |mem|)
    && sent[j].msg.at + sent[j].msg.len < U32_LIMIT && 0 < sent[j].msg.at
    && sent[i].msg.data == Pointer(sent[j].msg.at, sent[j].msg.len)
    && Payload(sent[j].msg, mem) == Encode(sent[i].text)
  }

  ghost predicate ShapeOk(mem: Buffer, sent: seq<Attempt>, heap: Heap, i: nat)
    requires i < |sent|
  {
    sent[i].msg.Inline? ==>
      exists o, n :: SiteIs(heap, o, n, sent[i].msg.at, |sent[i].msg.data|)
        && (heap[o].schema.fields[n].typ == Str ==> exists j: nat :: Backed(mem, sent, i, j))
  }

  ghost predicate ShapesOk(mem: Buffer, sent: seq<Attempt>, heap: Heap) {
    forall i :: 0 <= i < |sent| ==> ShapeOk(mem, sent, heap, i)
  }

  ghost predicate LogOk(rg: Regions, m0: Buffer, mem: Buffer, s: nat, sent: seq<Attempt>, heap: Heap) {
    && Ordered(rg) && |m0| == |mem| == rg.arenaBytes
    && AllFit(sent, |m0|)
    && ArenasBelow(rg, s, sent)
    && CleanOk(rg, m0, mem, sent)
    && ShapesOk(mem, sent, heap)
  }

  // ----- replay does not depend on when announced bytes are copied

  lemma {:induction false} ReplayStable(rg: Regions, m0: Buffer, sent: seq<Attempt>, mem: Buffer, mem': Buffer, s: nat)
    requires AllFit(sent, |m0|) && |mem| == |m0| && ArenasBelow(rg, s, sent)
    requires Agree(mem, mem', rg.StringDataStart(), s)
    ensures Replay(m0, sent, mem) == Replay(m0, sent, mem')
  {
    if sent != [] {
      var front := sent[..|sent| - 1];
      ReplayStable(rg, m0, front, mem, mem', s);
      var last := sent[|sent| - 1];
      if last.msg.Arena? {
        AgreeSlice(mem, mem', rg.StringDataStart(), s, last.msg.at, last.msg.len);
      }
    }
  }

  /** Shapes survive any change that leaves taken payloads alone, and a growing heap. */
  lemma ShapesFrame(rg: Regions, mem: Buffer, mem': Buffer, s: nat, sent: seq<Attempt>, heap: Heap, heap': Heap)
    requires ArenasBelow(rg, s, sent) && Agree(mem, mem', rg.StringDataStart(), s) && ShapesOk(mem, sent, heap)
    requires Grows(heap, heap')
    ensures ShapesOk(mem', sent, heap')
  {
    hide Encode, Pointer;
    forall i | 0 <= i < |sent|
      ensures ShapeOk(mem', sent, heap', i)
    {
      assert ShapeOk(mem, sent, heap, i);
      if sent[i].msg.Inline? {
        var o, n :| SiteIs(heap, o, n, sent[i].msg.at, |sent[i].msg.data|)
          && (heap[o].schema.fields[n].typ == Str ==> exists j: nat :: Backed(mem, sent, i, j));
        assert SiteIs(heap', o, n, sent[i].msg.at, |sent[i].msg.data|);
        if heap[o].schema.fields[n].typ == Str {
          var j: nat :| Backed(mem, sent, i, j);
          AgreeSlice(mem, mem', rg.StringDataStart(), s, sent[j].msg.at, sent[j].msg.len);
          assert Backed(mem', sent, i, j);
        }
      }
    }
  }

  /** A change to neither region: the bump words. */
  lemma LogQuiet(rg: Regions, m0: Buffer, mem: Buffer, mem': Buffer, s: nat, s': nat, sent: seq<Attempt>, heap: Heap,
                 heap': Heap)
    requires LogOk(rg, m0, mem, s, sent, heap) && s <= s'
    requires Agree(mem, mem', rg.recordStart, rg.RecordEnd()) && Agree(mem, mem', rg.StringDataStart(), rg.arenaBytes)
    requires s <= rg.arenaBytes || Agree(mem, mem', rg.StringDataStart(), s)
    requires Grows(heap, heap')
    ensures LogOk(rg, m0, mem', s', sent, heap')
  {
    hide ShapesOk, Unlogged, Replay;
    AgreeShrinks(mem, mem', rg.StringDataStart(), rg.arenaBytes, s);
    ReplayStable(rg, m0, sent, mem, mem', s);
    ShapesFrame(rg, mem, mem', s, sent, heap, heap');
  }

  // ----- a write and the message that describes it

  lemma AppendShapes(rg: Regions, mem: Buffer, mem': Buffer, s: nat, sent: seq<Attempt>, a: Attempt, heap: Heap)
    requires ArenasBelow(rg, s, sent) && Agree(mem, mem', rg.StringDataStart(), s) && ShapesOk(mem, sent, heap)
    requires ShapeOk(mem', sent + [a], heap, |sent|)
    ensures ShapesOk(mem', sent + [a], heap)
  {
    hide Encode, Pointer;
    ShapesFrame(rg, mem, mem', s, sent, heap, heap);
    var sent' := sent + [a];
    forall i | 0 <= i < |sent'|
      ensures ShapeOk(mem', sent', heap, i)
    {
      if i < |sent| {
        assert ShapeOk(mem', sent, heap, i) && sent'[i] == sent[i];
        if sent[i].msg.Inline? {
          var o, n :| SiteIs(heap, o, n, sent[i].msg.at, |sent[i].msg.data|)
            && (heap[o].schema.fields[n].typ == Str ==> exists j: nat :: Backed(mem', sent, i, j));
          if heap[o].schema.fields[n].typ == Str {
            var j: nat :| Backed(mem', sent, i, j);
            assert sent'[j] == sent[j] && Backed(mem', sent', i, j);
          }
        }
      }
    }
  }

  /**
   Writing an extent and offering the message for it: whether or not the ring
   takes it, memory and replay differ only where something is unlogged.
   */
  lemma CleanAfterWrite(rg: Regions, m0: Buffer, mem: Buffer, s: nat, sent: seq<Attempt>, a: Attempt, data: Buffer)
    requires AllFit(sent, |m0|) && |mem| == |m0| && ArenasBelow(rg, s, sent) && CleanOk(rg, m0, mem, sent)
    requires Fits(a.msg, |m0|) && |data| == Length(a.msg)
    requires a.msg.Inline? ==> a.msg.data == data
    requires a.msg.at + |data| <= rg.StringDataStart() || s <= a.msg.at
    ensures AllFit(sent + [a], |m0|) && CleanOk(rg, m0, Put(mem, a.msg.at, data), sent + [a])
  {
    hide InRegions;
    var mem' := Put(mem, a.msg.at, data);
    var sent' := sent + [a];
    assert sent'[..|sent'| - 1] == sent;
    PutAgrees(mem, a.msg.at, data, rg.StringDataStart(), s);
    ReplayStable(rg, m0, sent, mem, mem', s);
    PutRead(mem, a.msg.at, data);
    assert Payload(a.msg, mem') == data;
    forall x: nat | x < |mem'| && InRegions(rg, x) && !Unlogged(sent', x)
      ensures Replay(m0, sent', mem')[x] == mem'[x]
    {
      if Covers(a.msg, x) {
        assert a.accepted;
      } else {
        assert mem'[x] == mem[x];
      }
    }
  }

  lemma StoreFieldLog(rg: Regions, m0: Buffer, db: Db, s: nat, heap: Heap, o: nat, n: Text, data: Buffer, rc: int,
                      text: Text)
    requires LogOk(rg, m0, db.mem, s, db.sent, heap)
    requires o in heap && n in heap[o].schema.fields && |data| == heap[o].schema.fields[n].size
    requires FieldStart(heap, o, n) + |data| <= rg.RecordEnd()
    requires var a := Attempt(Inline(FieldStart(heap, o, n), data), rc == 0, text);
             heap[o].schema.fields[n].typ == Str ==> exists j: nat :: Backed(db.mem, db.sent + [a], |db.sent|, j)
    ensures FieldStart(heap, o, n) + |data| <= |db.mem|
    ensures var a := StoreField(db, FieldStart(heap, o, n), data, rc, text);
            LogOk(rg, m0, a.db.mem, s, a.db.sent, heap)
  {
    hide ShapesOk, CleanOk, Encode, Pointer;
    var at := FieldStart(heap, o, n);
    var a := Attempt(Inline(at, data), rc == 0, text);
    var mem' := Put(db.mem, at, data);
    assert SiteIs(heap, o, n, at, |data|);
    CleanAfterWrite(rg, m0, db.mem, s, db.sent, a, data);
    PutAgrees(db.mem, at, data, rg.StringDataStart(), s);
    ShapeOfStore(rg, db.mem, mem', s, db.sent, a, heap, o, n);
    AppendShapes(rg, db.mem, mem', s, db.sent, a, heap);
  }

  lemma ShapeOfStore(rg: Regions, mem: Buffer, mem': Buffer, s: nat, sent: seq<Attempt>, a: Attempt, heap: Heap, o: nat,
                     n: Text)
    requires a.msg.Inline? && SiteIs(heap, o, n, a.msg.at, |a.msg.data|)
    requires ArenasBelow(rg, s, sent) && Agree(mem, mem', rg.StringDataStart(), s)
    requires heap[o].schema.fields[n].typ == Str ==> exists j: nat :: Backed(mem, sent + [a], |sent|, j)
    ensures ShapeOk(mem', sent + [a], heap, |sent|)
  {
    hide Encode, Pointer;
    if heap[o].schema.fields[n].typ == Str {
      var j: nat :| Backed(mem, sent + [a], |sent|, j);
      assert (sent + [a])[j] == sent[j];
      AgreeSlice(mem, mem', rg.StringDataStart(), s, sent[j].msg.at, sent[j].msg.len);
      assert Backed(mem', sent + [a], |sent|, j);
    }
  }

  lemma PublishLog(rg: Regions, m0: Buffer, db: Db, s: nat, heap: Heap, payload: Buffer, rc: int)
    requires LogOk(rg, m0, db.mem, s, db.sent, heap)
    requires rg.StringDataStart() <= s && s + |payload| <= |db.mem|
    ensures var p := Publish(db, s, payload, rc); LogOk(rg, m0, p.mem, s + |payload|, p.sent, heap)
  {
    hide ShapesOk, CleanOk;
    var a := Attempt(Arena(s, |payload|), AnnounceCode(|payload|, rc) == 0, []);
    CleanAfterWrite(rg, m0, db.mem, s, db.sent, a, payload);
    PutAgrees(db.mem, s, payload, rg.StringDataStart(), s);
    AppendShapes(rg, db.mem, Put(db.mem, s, payload), s, db.sent, a, heap);
  }

  // ----- one assignment

  /** The log invariant at the arena's own string bump. */
  ghost predicate Logged(rg: Regions, m0: Buffer, db: Db, heap: Heap) {
    ArenaOk(rg, db.mem, heap) && LogOk(rg, m0, db.mem, StringBase(rg, db.mem), db.sent, heap)
  }

  lemma TakeStringLog(rg: Regions, m0: Buffer, db: Db, heap: Heap, n: nat)
    requires Logged(rg, m0, db, heap) && StringBase(rg, db.mem) + n < U32_LIMIT
    ensures var taken := db.(mem := TakeString(rg, db.mem, n));
            Logged(rg, m0, taken, heap) && LogOk(rg, m0, taken.mem, StringBase(rg, db.mem), taken.sent, heap)
  {
    hide HeapOk, ShapesOk, CleanOk, StringBase, RecordBase, TakeString;
    TakeStringOk(rg, db.mem, n, heap);
    var mem' := TakeString(rg, db.mem, n);
    var s := StringBase(rg, db.mem);
    AgreeShrinks(db.mem, mem', rg.StringDataStart(), rg.arenaBytes, s);
    LogQuiet(rg, m0, db.mem, mem', s, s, db.sent, heap, heap);
    LogQuiet(rg, m0, db.mem, mem', s, StringBase(rg, mem'), db.sent, heap, heap);
  }

  /** Pushing the pointer to a payload announced a moment ago. */
  lemma PointerLog(rg: Regions, m0: Buffer, taken: Db, base: nat, heap: Heap, o: nat, n: Text, t: Text, notify: int,
                   push: int)
    requires LogOk(rg, m0, taken.mem, base, taken.sent, heap)
    requires o in heap && n in heap[o].schema.fields && heap[o].schema.fields[n].size == 8
    requires FieldStart(heap, o, n) + 8 <= rg.RecordEnd()
    requires rg.StringDataStart() <= base && base + |Encode(t)| <= |taken.mem| && AnnounceCode(|Encode(t)|, notify) == 0
    ensures FieldStart(heap, o, n) + 8 <= |taken.mem|
    ensures var published := Publish(taken, base, Encode(t), notify);
            var a := StoreField(published, FieldStart(heap, o, n), Pointer(base, |Encode(t)|), push, t);
            LogOk(rg, m0, a.db.mem, base + |Encode(t)|, a.db.sent, heap)
  {
    hide ShapesOk, CleanOk, ArenasBelow, Encode, Pointer;
    var data := Encode(t);
    PublishLog(rg, m0, taken, base, heap, data, notify);
    JustPublished(taken, base, data, notify, FieldStart(heap, o, n), push, t);
    StoreFieldLog(rg, m0, Publish(taken, base, data, notify), base + |data|, heap, o, n, Pointer(base, |data|), push,
      t);
  }

  lemma SetTextLog(rg: Regions, m0: Buffer, db: Db, heap: Heap, o: nat, n: Text, t: Text, notify: int, push: int)
    requires Logged(rg, m0, db, heap) && o in heap && n in heap[o].schema.fields && heap[o].schema.fields[n].typ == Str
    requires StringBase(rg, db.mem) + |Encode(t)| < U32_LIMIT
    ensures FieldStart(heap, o, n) + 8 <= |db.mem|
    ensures var a := SetText(rg, db, FieldStart(heap, o, n), t, notify, push);
            LogOk(rg, m0, a.db.mem, StringBase(rg, a.db.mem), a.db.sent, heap)
  {
    hide HeapOk, LogOk, RecordBase, StringBase, TakeString, WellLaid, Encode, Pointer;
    FieldInRegion(rg, db.mem, RecordBase(rg, db.mem), StringBase(rg, db.mem), heap, o, n);
    var at := FieldStart(heap, o, n);
    var data := Encode(t);
    var base := StringBase(rg, db.mem);
    var a := SetText(rg, db, at, t, notify, push);
    if rg.StringDataStart() < rg.arenaBytes {
      var taken := db.(mem := TakeString(rg, db.mem, |data|));
      TakeStringLog(rg, m0, db, heap, |data|);
      ArenaBounds(rg, db.mem, heap);
      if base + |data| > rg.StringEnd() {
        assert a.db == taken;
      } else {
        PayloadOk(rg, db.mem, taken.mem, |data|, data, heap);
        if AnnounceCode(|data|, notify) != 0 {
          PublishLog(rg, m0, taken, base, heap, data, notify);
          assert a.db == Publish(taken, base, data, notify);
        } else {
          PointerLog(rg, m0, taken, base, heap, o, n, t, notify, push);
          BumpAfterPointer(rg, db, heap, o, n, t, notify, push);
        }
      }
    }
  }

  lemma BumpAfterPointer(rg: Regions, db: Db, heap: Heap, o: nat, n: Text, t: Text, notify: int, push: int)
    requires ArenaOk(rg, db.mem, heap) && o in heap && n in heap[o].schema.fields && heap[o].schema.fields[n].typ == Str
    requires StringBase(rg, db.mem) + |Encode(t)| < U32_LIMIT && StringBase(rg, db.mem) + |Encode(t)| <= rg.StringEnd()
    requires rg.StringDataStart() < rg.arenaBytes && AnnounceCode(|Encode(t)|, notify) == 0
    ensures FieldStart(heap, o, n) + 8 <= |db.mem|
    ensures StringBase(rg, SetText(rg, db, FieldStart(heap, o, n), t, notify, push).db.mem)
        == StringBase(rg, db.mem) + |Encode(t)|
  {
    hide HeapOk, RecordBase, StringBase, TakeString, WellLaid, Encode, Pointer;
    FieldInRegion(rg, db.mem, RecordBase(rg, db.mem), StringBase(rg, db.mem), heap, o, n);
    ArenaBounds(rg, db.mem, heap);
    var data, base := Encode(t), StringBase(rg, db.mem);
    var taken := TakeString(rg, db.mem, |data|);
    PayloadOk(rg, db.mem, taken, |data|, data, heap);
    PutRead(taken, base, data);
    PointerWriteOk(rg, Put(taken, base, data), heap, o, n, base, t);
  }

  /** The announcement just accepted backs the pointer about to be pushed. */
  lemma JustPublished(taken: Db, base: nat, data: Buffer, notify: int, at: nat, push: int, t: Text)
    requires 0 < base && base + |data| <= |taken.mem| && base + |data| < U32_LIMIT && data == Encode(t)
    requires AnnounceCode(|data|, notify) == 0
    ensures var p := Publish(taken, base, data, notify);
            var a := Attempt(Inline(at, Pointer(base, |data|)), push == 0, t);
            exists j: nat :: Backed(p.mem, p.sent + [a], |p.sent|, j)
  {
    hide Encode, Pointer;
    var p := Publish(taken, base, data, notify);
    var a := Attempt(Inline(at, Pointer(base, |data|)), push == 0, t);
    PutRead(taken.mem, base, data);
    assert Backed(p.mem, p.sent + [a], |p.sent|, |taken.sent|);
  }

  lemma SetFieldLog(rg: Regions, m0: Buffer, db: Db, heap: Heap, o: nat, n: Text, v: JsValue, notify: int, push: int)
    requires Logged(rg, m0, db, heap) && o in heap && n in heap[o].schema.fields
    requires StringBase(rg, db.mem) + StringNeed(v) < U32_LIMIT
    ensures var f := heap[o].schema.fields[n];
            FieldStart(heap, o, n) + Width(f.typ) <= |db.mem| && f.typ != Unknown
    ensures var f := heap[o].schema.fields[n];
            var a := SetField(rg, db, FieldStart(heap, o, n), f.typ, v, notify, push);
            LogOk(rg, m0, a.db.mem, StringBase(rg, a.db.mem), a.db.sent, heap)
  {
    hide HeapOk, LogOk, RecordBase, StringBase, WellLaid, SetText;
    FieldInRegion(rg, db.mem, RecordBase(rg, db.mem), StringBase(rg, db.mem), heap, o, n);
    var f := heap[o].schema.fields[n];
    if f.typ == Str {
      if v.String? {
        SetTextLog(rg, m0, db, heap, o, n, v.text, notify, push);
      }
    } else if ScalarBytes(f.typ, v).Bytes8? {
      var data := ScalarBytes(f.typ, v).data;
      StoreFieldLog(rg, m0, db, StringBase(rg, db.mem), heap, o, n, data, push, []);
      ScalarReads(rg, db.mem, StringBase(rg, db.mem), FieldStart(heap, o, n), f.typ, v);
      FieldWriteOk(rg, db.mem, heap, o, n, data, Stored(f.typ, v));
    }
  }

  // ----- one call

  lemma AssignEntryLog(rg: Regions, m0: Buffer, db: Db, heap: Heap, o: nat, e: Entry)
    requires Logged(rg, m0, db, heap) && o in heap
    requires StringBase(rg, db.mem) + EntriesNeed([e]) < U32_LIMIT
    ensures ProxyFits(rg, db, heap[o].schema, o)
    ensures var a := AssignEntry(rg, db, heap[o].schema, o, e);
            LogOk(rg, m0, a.db.mem, StringBase(rg, a.db.mem), a.db.sent, heap)
  {
    hide ArenaOk, LogOk, WellLaid, StringBase;
    RecordInHeap(rg, db.mem, heap, o);
    if e.value.Some? && e.name in heap[o].schema.fields {
      SetFieldLog(rg, m0, db, heap, o, e.name, e.value.value, e.notify, e.push);
    }
  }

  lemma {:induction false} FillLog(rg: Regions, m0: Buffer, db: Db, heap: Heap, o: nat, data: seq<Entry>)
    requires Logged(rg, m0, db, heap) && o in heap
    requires StringBase(rg, db.mem) + EntriesNeed(data) < U32_LIMIT
    ensures ProxyFits(rg, db, heap[o].schema, o)
    ensures var f := Fill(rg, db, heap[o].schema, o, data);
            LogOk(rg, m0, f.db.mem, StringBase(rg, f.db.mem), f.db.sent, heap)
    decreases |data|
  {
    hide HeapOk, LogOk, WellLaid, StringBase, AssignEntry;
    RecordInHeap(rg, db.mem, heap, o);
    if data != [] {
      assert [data[0]][1..] == [];
      AssignEntryLog(rg, m0, db, heap, o, data[0]);
      AssignEntryOk(rg, db, heap, o, data[0]);
      var a := AssignEntry(rg, db, heap[o].schema, o, data[0]);
      if a.outcome == Done {
        var heap' := WithCells(heap, o, EntryCells(heap[o].schema, heap[o].cells, data[0]));
        LogGrows(rg, m0, a.db.mem, StringBase(rg, a.db.mem), a.db.sent, heap, heap');
        FillLog(rg, m0, a.db, heap', o, data[1..]);
        LogGrows(rg, m0, Fill(rg, a.db, heap[o].schema, o, data[1..]).db.mem,
                 StringBase(rg, Fill(rg, a.db, heap[o].schema, o, data[1..]).db.mem),
                 Fill(rg, a.db, heap[o].schema, o, data[1..]).db.sent, heap', heap);
      }
    }
  }

  lemma LogGrows(rg: Regions, m0: Buffer, mem: Buffer, s: nat, sent: seq<Attempt>, heap: Heap, heap': Heap)
    requires LogOk(rg, m0, mem, s, sent, heap) && Grows(heap, heap')
    ensures LogOk(rg, m0, mem, s, sent, heap')
  {
    hide CleanOk, ShapesOk;
    ShapesFrame(rg, mem, mem, s, sent, heap, heap');
  }

  lemma TakeRecordLog(rg: Regions, m0: Buffer, db: Db, heap: Heap, stride: nat)
    requires Logged(rg, m0, db, heap) && RecordBase(rg, db.mem) + stride < U32_LIMIT
    ensures Logged(rg, m0, db.(mem := TakeRecord(rg, db.mem, stride)), heap)
  {
    hide HeapOk, ShapesOk, CleanOk, StringBase, RecordBase, TakeRecord;
    TakeRecordOk(rg, db.mem, stride, heap);
    var mem' := TakeRecord(rg, db.mem, stride);
    AgreeShrinks(db.mem, mem', rg.recordStart, rg.arenaBytes, rg.RecordEnd());
    AgreeNarrows(db.mem, mem', rg.recordStart, rg.StringDataStart(), rg.arenaBytes);
    AgreeShrinks(db.mem, mem', rg.StringDataStart(), rg.arenaBytes, StringBase(rg, db.mem));
    LogQuiet(rg, m0, db.mem, mem', StringBase(rg, db.mem), StringBase(rg, mem'), db.sent, heap, heap);
  }

  lemma AgreeNarrows(m: Buffer, m': Buffer, a: int, b: int, c: int)
    requires Agree(m, m', a, c) && a <= b
    ensures Agree(m, m', b, c)
  {
  }

  lemma InsertLog(rg: Regions, schemas: map<Text, Schema>, m0: Buffer, db: Db, w: World, call: Call, heap': Heap)
    requires WorldOk(rg, schemas, db, w) && Logged(rg, m0, db, w.heap) && call.CallInsert? && CallOk(schemas, call)
    requires RecordBase(rg, db.mem) + RecordNeed(call) < U32_LIMIT
    requires StringBase(rg, db.mem) + StringSpace(call) < U32_LIMIT
    requires Grows(w.heap, heap')
    requires var (_, rep) := Step(rg, db, call); rep.record.Some? ==> Holds(heap', rep.record.value, call.c.schema)
    ensures var (db', _) := Step(rg, db, call);
            LogOk(rg, m0, db'.mem, StringBase(rg, db'.mem), db'.sent, heap')
  {
    hide WorldOk, LogOk, HeapOk, KeyInvalid, Namespaced, StringBase, RecordBase, TakeRecord, Fill, EntriesNeed,
      WellLaid;
    var c, key, data := call.c, call.key, call.data;
    var stride := AlignUp(c.schema.totalSize, RECORD_ALIGNMENT);
    var base := RecordBase(rg, db.mem);
    LogGrows(rg, m0, db.mem, StringBase(rg, db.mem), db.sent, w.heap, heap');
    if !KeyInvalid(key) {
      TakeRecordLog(rg, m0, db, w.heap, stride);
      var taken := db.(mem := TakeRecord(rg, db.mem, stride));
      LogGrows(rg, m0, taken.mem, StringBase(rg, taken.mem), taken.sent, w.heap, heap');
      if base + stride <= rg.RecordEnd() && |Namespaced(c.name, key)| <= MAX_KEY_LEN && call.indexRc == 0 {
        var w1 := BindRowOk(rg, schemas, db, w, taken, c, key);
        var bound := taken.(index := taken.index[Namespaced(c.name, key) := base]);
        WorldIsArena(rg, schemas, bound, w1);
        TakenIsQuiet(rg, schemas, db, w, stride);
        LogGrows(rg, m0, taken.mem, StringBase(rg, taken.mem), taken.sent, w.heap, w1.heap);
        FillLog(rg, m0, bound, w1.heap, base, data);
        var f := Fill(rg, bound, c.schema, base, data);
        LogGrows(rg, m0, f.db.mem, StringBase(rg, f.db.mem), f.db.sent, w1.heap, heap');
      }
    }
  }

  lemma UpdateLog(rg: Regions, schemas: map<Text, Schema>, m0: Buffer, db: Db, w: World, call: Call)
    requires WorldOk(rg, schemas, db, w) && Logged(rg, m0, db, w.heap) && call.CallUpdate? && CallOk(schemas, call)
    requires StringBase(rg, db.mem) + StringSpace(call) < U32_LIMIT
    ensures var (db', _) := Step(rg, db, call);
            LogOk(rg, m0, db'.mem, StringBase(rg, db'.mem), db'.sent, w.heap)
  {
    hide WorldOk, LogOk, HeapOk, KeyInvalid, Namespaced, StringBase, RecordBase, Fill, EntriesNeed, WellLaid, Find;
    FindHits(rg, schemas, db, w, call.c, call.key);
    if Find(rg, db, call.c, call.key).Record? {
      FillLog(rg, m0, db, w.heap, Find(rg, db, call.c, call.key).offset, call.data);
    }
  }

  /** Publishing at the string bump, for catalog records and for other holders of the word. */
  lemma PublishedLog(rg: Regions, m0: Buffer, db: Db, heap: Heap, payload: Buffer, rc: int)
    requires Logged(rg, m0, db, heap) && StringBase(rg, db.mem) + |payload| < U32_LIMIT
    ensures var taken := db.(mem := TakeString(rg, db.mem, |payload|));
            LogOk(rg, m0, taken.mem, StringBase(rg, taken.mem), taken.sent, heap)
    ensures StringBase(rg, db.mem) + |payload| <= |db.mem| ==>
            var p := Publish(db.(mem := TakeString(rg, db.mem, |payload|)), StringBase(rg, db.mem), payload, rc);
            LogOk(rg, m0, p.mem, StringBase(rg, p.mem), p.sent, heap)
  {
    hide HeapOk, LogOk, StringBase, RecordBase, TakeString;
    var taken := db.(mem := TakeString(rg, db.mem, |payload|));
    TakeStringLog(rg, m0, db, heap, |payload|);
    ArenaBounds(rg, db.mem, heap);
    if StringBase(rg, db.mem) + |payload| <= |db.mem| {
      PayloadOk(rg, db.mem, taken.mem, |payload|, payload, heap);
      PublishLog(rg, m0, taken, StringBase(rg, db.mem), heap, payload, rc);
    }
  }

  lemma SaveLog(rg: Regions, m0: Buffer, db: Db, heap: Heap, call: Call)
    requires Logged(rg, m0, db, heap) && call.CallSave? && StringBase(rg, db.mem) + StringSpace(call) < U32_LIMIT
    ensures var (db', _) := Step(rg, db, call);
            LogOk(rg, m0, db'.mem, StringBase(rg, db'.mem), db'.sent, heap)
  {
    hide HeapOk, LogOk, StringBase, RecordBase, TakeString, Publish, CatalogKey, Catalog.EncodeCatalog;
    if Catalog.EncodeCatalog(call.table, call.cols).Ok? {
      PublishedLog(rg, m0, db, heap, Catalog.EncodeCatalog(call.table, call.cols).value, call.notify);
    }
  }

  /** One call, however it ends, keeps both invariants. */
  lemma StepLogged(rg: Regions, schemas: map<Text, Schema>, m0: Buffer, db: Db, w: World, call: Call)
    returns (w': World)
    requires WorldOk(rg, schemas, db, w) && Logged(rg, m0, db, w.heap) && CallOk(schemas, call)
    requires RecordBase(rg, db.mem) + RecordNeed(call) < U32_LIMIT
    requires StringBase(rg, db.mem) + StringSpace(call) < U32_LIMIT
    ensures var (db', rep) := Step(rg, db, call);
            WorldOk(rg, schemas, db', w') && Logged(rg, m0, db', w'.heap) && Grows(w.heap, w'.heap)
            && BumpsWithin(rg, db, db', RecordNeed(call), StringSpace(call))
  {
    hide WorldOk, LogOk, HeapOk, StringBase, RecordBase, Insert, Update, SaveCatalog, KeyInvalid, Namespaced, WellLaid,
      TakeString, Publish, Find;
    w' := StepOk(rg, schemas, db, w, call);
    var db' := Step(rg, db, call).0;
    match call {
      case CallInsert(_, _, _, _) =>
        InsertLog(rg, schemas, m0, db, w, call, w'.heap);
      case CallUpdate(_, _, _) =>
        UpdateLog(rg, schemas, m0, db, w, call);
        LogGrows(rg, m0, db'.mem, StringBase(rg, db'.mem), db'.sent, w.heap, w'.heap);
      case CallUpsert(c, key, data, rc) =>
        if Find(rg, db, c, key) == Absent {
          InsertLog(rg, schemas, m0, db, w, CallInsert(c, key, data, rc), w'.heap);
        } else {
          UpdateLog(rg, schemas, m0, db, w, CallUpdate(c, key, data));
          LogGrows(rg, m0, db'.mem, StringBase(rg, db'.mem), db'.sent, w.heap, w'.heap);
        }
      case CallDelete(_, _, _) =>
        LogGrows(rg, m0, db'.mem, StringBase(rg, db'.mem), db'.sent, w.heap, w'.heap);
      case CallSave(_, _, _, _) =>
        SaveLog(rg, m0, db, w.heap, call);
        LogGrows(rg, m0, db'.mem, StringBase(rg, db'.mem), db'.sent, w.heap, w'.heap);
      case Foreign(payload, rc) =>
        PublishedLog(rg, m0, db, w.heap, payload, rc);
        LogGrows(rg, m0, db'.mem, StringBase(rg, db'.mem), db'.sent, w.heap, w'.heap);
    }
    WorldIsArena(rg, schemas, db', w');
  }

  // ----- runs

  lemma {:induction false} RunLogged(rg: Regions, schemas: map<Text, Schema>, m0: Buffer, db: Db, w: World,
                                     calls: seq<Call>) returns (w': World)
    requires WorldOk(rg, schemas, db, w) && Logged(rg, m0, db, w.heap) && RunOk(schemas, calls) && NoWrap(rg, db, calls)
    ensures WorldOk(rg, schemas, Run(rg, db, calls), w') && Logged(rg, m0, Run(rg, db, calls), w'.heap)
    ensures Grows(w.heap, w'.heap)
    ensures Agree(db.mem, Run(rg, db, calls).mem, rg.StringDataStart(), StringBase(rg, db.mem))
    ensures StringBase(rg, db.mem) <= StringBase(rg, Run(rg, db, calls).mem)
    decreases |calls|
  {
    hide WorldOk, LogOk, HeapOk, StringBase, RecordBase, Step, CallFits, RecordNeed, StringSpace;
    if calls == [] {
      w' := w;
    } else {
      assert CallOk(schemas, calls[0]);
      var db1 := Step(rg, db, calls[0]).0;
      var w1 := StepLogged(rg, schemas, m0, db, w, calls[0]);
      w' := RunLogged(rg, schemas, m0, db1, w1, calls[1..]);
      AgreeChain(db.mem, db1.mem, Run(rg, db, calls).mem, rg.StringDataStart(), StringBase(rg, db.mem),
        StringBase(rg, db1.mem));
    }
  }

  lemma UntouchedLogged(rg: Regions, schemas: map<Text, Schema>, db: Db)
    requires Untouched(rg, db) && SchemasOk(schemas)
    ensures WorldOk(rg, schemas, db, World(map[], map[], map[])) && Logged(rg, db.mem, db, map[])
  {
    hide StringBase, RecordBase, HeapOk;
    UntouchedOk(rg, schemas, db);
    WorldIsArena(rg, schemas, db, World(map[], map[], map[]));
  }

  /**
   The log and memory, whatever was refused: after any run the log holds exactly
   the messages the calls make with the engine's answers, and every record or
   string byte that replaying the accepted ones gets wrong was last written by a
   message the engine refused.
   */
  lemma ReplayDiffersOnlyWhereRefused(rg: Regions, schemas: map<Text, Schema>, db: Db, calls: seq<Call>, x: nat)
    requires Untouched(rg, db) && SchemasOk(schemas) && RunOk(schemas, calls)
    requires NoWrap(rg, db, calls)
    requires InRegions(rg, x)
    ensures Mapped(rg, db.mem)
    ensures var db', sent := Run(rg, db, calls), OfferAll(rg, Empty(rg, db.mem), calls);
            db'.sent == sent && x < |db'.mem| && AllFit(sent, |db.mem|)
            && (Replay(db.mem, sent, db'.mem)[x] != db'.mem[x] ==> Unlogged(sent, x))
  {
    hide WorldOk, Run, TotalRecords, TotalStrings, StringBase, RecordBase, CallFits, Untouched, HeapOk, Replay,
      Unlogged, OfferAll;
    UntouchedLogged(rg, schemas, db);
    StoreIsPlain(rg, schemas, db, calls);
    var w := RunLogged(rg, schemas, db.mem, db, World(map[], map[], map[]), calls);
    assert CleanOk(rg, db.mem, Run(rg, db, calls).mem, Run(rg, db, calls).sent);
  }

  /** With no refusal on record, nothing is unlogged. */
  lemma {:induction false} AllAcceptedAllLogged(sent: seq<Attempt>, x: nat)
    requires forall i :: 0 <= i < |sent| ==> sent[i].accepted
    ensures !Unlogged(sent, x)
  {
    if sent != [] { AllAcceptedAllLogged(sent[..|sent| - 1], x); }
  }

  /** `Unlogged` is about the last message over an address: it was refused, and none came after. */
  lemma {:induction false} UnloggedIff(sent: seq<Attempt>, x: nat)
    ensures Unlogged(sent, x) <==>
      exists i :: 0 <= i < |sent| && !sent[i].accepted && Covers(sent[i].msg, x)
        && forall j :: i < j < |sent| ==> !Covers(sent[j].msg, x)
  {
    if sent != [] {
      var front, last := sent[..|sent| - 1], sent[|sent| - 1];
      UnloggedIff(front, x);
      if Covers(last.msg, x) {
        assert sent[|sent| - 1] == last;
      } else if Unlogged(front, x) {
        var i :| 0 <= i < |front| && !front[i].accepted && Covers(front[i].msg, x)
          && forall j :: i < j < |front| ==> !Covers(front[j].msg, x);
        assert !sent[i].accepted && Covers(sent[i].msg, x);
      } else {
        forall i | 0 <= i < |sent| && !sent[i].accepted && Covers(sent[i].msg, x)
          ensures exists j :: i < j < |sent| && Covers(sent[j].msg, x)
        {
          assert sent[i] == if i < |front| then front[i] else last;
          var j :| i < j < |front| && Covers(front[j].msg, x);
          assert Covers(sent[j].msg, x);
        }
      }
    }
  }

  /** The engine takes every message the call makes, and none announces an empty text. */
  predicate Answered(call: Call) {
    match call
    case CallInsert(_, _, data, _) => EntriesAnswered(data)
    case CallUpdate(_, _, data) => EntriesAnswered(data)
    case CallUpsert(_, _, data, _) => EntriesAnswered(data)
    case CallDelete(_, _, _) => true
    case CallSave(_, _, notify, _) => notify == 0
    case Foreign(payload, rc) => payload != [] && rc == 0
  }

  predicate EntriesAnswered(data: seq<Entry>) {
    forall i :: 0 <= i < |data| && data[i].value.Some? ==>
        data[i].push == 0
        && (data[i].value.value.String? ==> data[i].value.value.text != [] && data[i].notify == 0)
  }

  predicate AllAccepted(sent: seq<Attempt>) {
    forall i :: 0 <= i < |sent| ==> sent[i].accepted
  }

  lemma {:induction false} EntriesAccepted(rg: Regions, s: Schema, base: nat, sb: nat, data: seq<Entry>)
    requires EntriesAnswered(data)
    ensures AllAccepted(Assignments(rg, s, base, sb, data).offers)
    decreases |data|
  {
    hide U32Bytes, Encode;
    if data != [] {
      var e := data[0];
      if e.value.Some? && e.value.value.String? { Catalog.EncodeLengthBound(e.value.value.text); }
      EntriesAccepted(rg, s, base, EntryEffect(rg, s, base, sb, e).strings, data[1..]);
    }
  }

  lemma CallAccepted(rg: Regions, p: Plain, call: Call)
    requires Answered(call)
    ensures AllAccepted(Tell(rg, p, call).offers)
  {
    hide Assignments, KeyAdmitted, KeyFits, AlignUp, Catalog.EncodeRefusal;
    if AssignsFields(call) {
      EntriesAccepted(rg, call.c.schema, p.records, p.strings, call.data);
      if (call.c.name, call.key) in p.at {
        EntriesAccepted(rg, call.c.schema, p.at[(call.c.name, call.key)], p.strings, call.data);
      }
    }
  }

  lemma {:induction false} RunAccepted(rg: Regions, p: Plain, calls: seq<Call>)
    requires forall i :: 0 <= i < |calls| ==> Answered(calls[i])
    ensures AllAccepted(OfferAll(rg, p, calls))
    decreases |calls|
  {
    hide Tell, PlainStep, Answered;
    if calls != [] {
      CallAccepted(rg, p, calls[0]);
      RunAccepted(rg, PlainStep(rg, p, calls[0]), calls[1..]);
    }
  }

  /** When the engine takes every message of a run, replay rebuilds every record and string byte. */
  lemma ReplayRebuildsMemory(rg: Regions, schemas: map<Text, Schema>, db: Db, calls: seq<Call>, x: nat)
    requires Untouched(rg, db) && SchemasOk(schemas) && RunOk(schemas, calls)
    requires NoWrap(rg, db, calls)
    requires forall i :: 0 <= i < |calls| ==> Answered(calls[i])
    requires InRegions(rg, x)
    ensures Mapped(rg, db.mem)
    ensures var db' := Run(rg, db, calls);
            x < |db'.mem| && AllFit(db'.sent, |db.mem|) && Replay(db.mem, db'.sent, db'.mem)[x] == db'.mem[x]
  {
    hide Run, TotalRecords, TotalStrings, Replay, Unlogged, CallFits, Untouched, OfferAll, Answered;
    ReplayDiffersOnlyWhereRefused(rg, schemas, db, calls, x);
    RunAccepted(rg, Empty(rg, db.mem), calls);
    AllAcceptedAllLogged(Run(rg, db, calls).sent, x);
  }

  /**
   Announced payloads are never rewritten: every extent announced by the end of
   `calls` holds the same bytes after any further calls, so it does not matter
   when the log copies it.
   */
  lemma AnnouncedNeverRewritten(rg: Regions, schemas: map<Text, Schema>, db: Db, calls: seq<Call>, more: seq<Call>)
    requires Untouched(rg, db) && SchemasOk(schemas) && RunOk(schemas, calls) && RunOk(schemas, more)
    requires RecordBase(rg, db.mem) + TotalRecords(calls) + TotalRecords(more) < U32_LIMIT
    requires StringBase(rg, db.mem) + TotalStrings(calls) + TotalStrings(more) < U32_LIMIT
    ensures Mapped(rg, db.mem)
    ensures var early := Run(rg, db, calls);
            var late := Run(rg, early, more);
            AllFit(early.sent, |db.mem|)
            && (forall i :: 0 <= i < |early.sent| ==>
                Payload(early.sent[i].msg, early.mem) == Payload(early.sent[i].msg, late.mem))
            && Replay(db.mem, early.sent, early.mem) == Replay(db.mem, early.sent, late.mem)
  {
    hide WorldOk, Run, TotalRecords, TotalStrings, StringBase, RecordBase, CallFits, Untouched, HeapOk, Replay, CleanOk,
      ShapesOk;
    UntouchedLogged(rg, schemas, db);
    var w := RunLogged(rg, schemas, db.mem, db, World(map[], map[], map[]), calls);
    RunBounds(rg, schemas, db, World(map[], map[], map[]), calls);
    var early := Run(rg, db, calls);
    var late := Run(rg, early, more);
    var w' := RunLogged(rg, schemas, db.mem, early, w, more);
    var s := StringBase(rg, early.mem);
    forall i | 0 <= i < |early.sent|
      ensures Payload(early.sent[i].msg, early.mem) == Payload(early.sent[i].msg, late.mem)
    {
      if early.sent[i].msg.Arena? {
        AgreeSlice(early.mem, late.mem, rg.StringDataStart(), s, early.sent[i].msg.at, early.sent[i].msg.len);
      }
    }
    ReplayStable(rg, db.mem, early.sent, early.mem, late.mem, s);
  }

  lemma {:induction false} RunBounds(rg: Regions, schemas: map<Text, Schema>, db: Db, w: World, calls: seq<Call>)
    requires WorldOk(rg, schemas, db, w) && RunOk(schemas, calls)
    requires Mapped(rg, db.mem) && NoWrap(rg, db, calls)
    ensures RecordBase(rg, Run(rg, db, calls).mem) <= RecordBase(rg, db.mem) + TotalRecords(calls)
    ensures StringBase(rg, Run(rg, db, calls).mem) <= StringBase(rg, db.mem) + TotalStrings(calls)
    decreases |calls|
  {
    hide WorldOk, StringBase, RecordBase, Step, CallFits, RecordNeed, StringSpace;
    if calls != [] {
      assert CallOk(schemas, calls[0]);
      var w1 := StepOk(rg, schemas, db, w, calls[0]);
      RunBounds(rg, schemas, Step(rg, db, calls[0]).0, w1, calls[1..]);
    }
  }

  // ----- every prefix of the log resolves

  /** Announced extents read in the replay as they do in memory. */
  lemma {:induction false} AnnouncedInReplay(rg: Regions, m0: Buffer, mem: Buffer, s: nat, sent: seq<Attempt>,
                                             heap: Heap, n: nat, j: nat)
    requires LogOk(rg, m0, mem, s, sent, heap) && n <= |sent| && j < n
    requires forall i :: 0 <= i < |sent| && sent[i].msg.Inline? ==>
        sent[i].msg.at + |sent[i].msg.data| <= rg.RecordEnd()
    requires sent[j].accepted && sent[j].msg.Arena?
    ensures AllFit(sent[..n], |m0|)
    ensures Payload(sent[j].msg, Replay(m0, sent[..n], mem)) == Payload(sent[j].msg, mem)
  {
    hide CleanOk, ShapesOk;
    assert sent[..n][..n - 1] == sent[..n - 1] && sent[..n][n - 1] == sent[n - 1];
    var front := Replay(m0, sent[..n - 1], mem);
    var e, last := sent[j].msg, sent[n - 1];
    if j < n - 1 {
      AnnouncedInReplay(rg, m0, mem, s, sent, heap, n - 1, j);
    }
    if last.accepted {
      OverlayKeeps(front, mem, last.msg, e, j < n - 1);
    }
  }

  /** Laying a message over an arena: an announced extent it touches gets memory's bytes, or is the one written. */
  lemma OverlayKeeps(front: Buffer, mem: Buffer, msg: Msg, e: Msg, before: bool)
    requires |front| == |mem| && Fits(msg, |mem|) && Fits(e, |mem|) && e.Arena?
    requires if before then Payload(e, front) == Payload(e, mem) else msg == e
    requires msg.Inline? ==> msg.at + |msg.data| <= e.at
    ensures Payload(e, Put(front, msg.at, Payload(msg, mem))) == Payload(e, mem)
  {
    var r := Put(front, msg.at, Payload(msg, mem));
    forall x | e.at <= x < e.at + e.len
      ensures r[x] == mem[x]
    {
      if before {
        assert front[x] == Payload(e, front)[x - e.at] && mem[x] == Payload(e, mem)[x - e.at];
      }
    }
  }

  /** The eight bytes of a string field, after replaying a prefix: still zero, or some accepted pointer push to it. */
  ghost predicate PointerFrom(m: Buffer, sent: seq<Attempt>, n: nat, at: nat)
    requires at + 8 <= |m| && n <= |sent|
  {
    (forall x :: at <= x < at + 8 ==> m[x] == 0)
    || exists i :: 0 <= i < n && sent[i].accepted && sent[i].msg.Inline? && sent[i].msg.at == at
                   && |sent[i].msg.data| == 8 && m[at..at + 8] == sent[i].msg.data
  }

  lemma {:induction false} PointersInReplay(rg: Regions, m0: Buffer, mem: Buffer, s: nat, sent: seq<Attempt>,
                                            heap: Heap, n: nat, o: nat, k: Text)
    requires Mapped(rg, mem) && LogOk(rg, m0, mem, s, sent, heap) && n <= |sent|
    requires HeapOk(rg, mem, RecordBase(rg, mem), s, heap)
    requires o in heap && k in heap[o].schema.fields && heap[o].schema.fields[k].typ == Str
    requires FieldStart(heap, o, k) + 8 <= |m0|
    requires forall x :: FieldStart(heap, o, k) <= x < FieldStart(heap, o, k) + 8 ==> m0[x] == 0
    ensures AllFit(sent[..n], |m0|)
    ensures PointerFrom(Replay(m0, sent[..n], mem), sent, n, FieldStart(heap, o, k))
  {
    hide CleanOk, HeapOk, RecordBase, Encode, Pointer;
    var at := FieldStart(heap, o, k);
    if n > 0 {
      PointersInReplay(rg, m0, mem, s, sent, heap, n - 1, o, k);
      assert sent[..n][..n - 1] == sent[..n - 1] && sent[..n][n - 1] == sent[n - 1];
      var front := Replay(m0, sent[..n - 1], mem);
      var last := sent[n - 1];
      if last.accepted {
        var r := Put(front, last.msg.at, Payload(last.msg, mem));
        SitesMeetOrMatch(rg, mem, s, sent, heap, n - 1, o, k);
        if last.msg.Inline? && last.msg.at == at && |last.msg.data| == 8 {
          PutRead(front, at, last.msg.data);
          assert r[at..at + 8] == last.msg.data;
        } else {
          PutFrame(front, last.msg.at, Payload(last.msg, mem), at, 8);
          SamePointer(front, r, sent, n, at);
        }
      } else {
        SamePointer(front, front, sent, n, at);
      }
    }
  }

  lemma SamePointer(front: Buffer, r: Buffer, sent: seq<Attempt>, n: nat, at: nat)
    requires 0 < n <= |sent| && at + 8 <= |front| == |r| && front[at..at + 8] == r[at..at + 8]
    requires PointerFrom(front, sent, n - 1, at)
    ensures PointerFrom(r, sent, n, at)
  {
    if forall x :: at <= x < at + 8 ==> front[x] == 0 {
      forall x | at <= x < at + 8
        ensures r[x] == 0
      {
        assert r[x] == r[at..at + 8][x - at] == front[at..at + 8][x - at] == front[x];
      }
    }
  }

  /** A message either is a write of this very field or does not meet its bytes. */
  lemma SitesMeetOrMatch(rg: Regions, mem: Buffer, s: nat, sent: seq<Attempt>, heap: Heap, i: nat, o: nat, k: Text)
    requires i < |sent| && Mapped(rg, mem) && HeapOk(rg, mem, RecordBase(rg, mem), s, heap)
    requires ArenasBelow(rg, s, sent) && ShapesOk(mem, sent, heap)
    requires o in heap && k in heap[o].schema.fields && heap[o].schema.fields[k].typ == Str
    ensures var at := FieldStart(heap, o, k);
            var msg := sent[i].msg;
            (msg.Inline? && msg.at == at && |msg.data| == 8 && exists j: nat :: Backed(mem, sent, i, j))
            || Disjoint(msg.at, Length(msg), at, 8)
  {
    hide Encode, Pointer, RecordBase, CellsOk;
    assert RecPlaced(rg, RecordBase(rg, mem), o, heap[o]);
    assert FieldFits(heap[o].schema.fields[k], heap[o].schema.totalSize);
    if sent[i].msg.Inline? {
      assert ShapeOk(mem, sent, heap, i);
      var q, n :| SiteIs(heap, q, n, sent[i].msg.at, |sent[i].msg.data|)
        && (heap[q].schema.fields[n].typ == Str ==> exists j: nat :: Backed(mem, sent, i, j));
      assert RecPlaced(rg, RecordBase(rg, mem), q, heap[q]);
      assert FieldFits(heap[q].schema.fields[n], heap[q].schema.totalSize);
      if q != o {
        assert Disjoint(q, heap[q].schema.totalSize, o, heap[o].schema.totalSize);
      } else if n != k {
        FieldsApart(heap[o].schema, n, k);
      }
    }
  }

  /**
   What a string field reads in the replay of the first `n` messages: nothing yet,
   or the value some accepted pointer push among them assigned to it, whose bytes
   an announcement before that push covers.
   */
  ghost predicate Resolves(m: Buffer, sent: seq<Attempt>, n: nat, at: nat)
    requires at + 8 <= |m| && n <= |sent|
  {
    CellAt(m, at, Str) == Txt([])
    || exists i, j :: 0 <= j < i < n
         && sent[i].accepted && sent[i].msg.Inline? && sent[i].msg.at == at
         && sent[j].accepted && sent[j].msg.Arena? && sent[i].msg.data == Pointer(sent[j].msg.at, sent[j].msg.len)
         && CellAt(m, at, Str) == Txt(StripBom(sent[i].text))
  }

  lemma PointerInPlace(m: Buffer, at: nat, p: nat, n: nat)
    requires at + 8 <= |m| && p < U32_LIMIT && n < U32_LIMIT && m[at..at + 8] == Pointer(p, n)
    ensures U32At(m, at) == p && U32At(m, at + 4) == n
  {
    hide Bytes.Number, Bytes.Digits;
    assert m[at..at + 4] == m[at..at + 8][..4] == U32Bytes(p);
    assert m[at + 4..at + 8] == m[at..at + 8][4..] == U32Bytes(n);
    WordRoundTrip(p);
    WordRoundTrip(n);
  }

  /** A pointer push among the first `n` messages resolves in their replay. */
  lemma PushedPointerResolves(rg: Regions, m0: Buffer, mem: Buffer, s: nat, sent: seq<Attempt>, heap: Heap, n: nat,
                              i: nat, j: nat, at: nat)
    requires LogOk(rg, m0, mem, s, sent, heap) && i < n <= |sent|
    requires forall k :: 0 <= k < |sent| && sent[k].msg.Inline? ==>
        sent[k].msg.at + |sent[k].msg.data| <= rg.RecordEnd()
    requires sent[i].accepted && sent[i].msg.Inline? && sent[i].msg.at == at && Backed(mem, sent, i, j)
    requires AllFit(sent[..n], |m0|) && at + 8 <= |m0|
    requires Replay(m0, sent[..n], mem)[at..at + 8] == sent[i].msg.data
    ensures Resolves(Replay(m0, sent[..n], mem), sent, n, at)
  {
    hide CleanOk, ShapesOk, Encode, Pointer, Replay, HostDecode;
    var m := Replay(m0, sent[..n], mem);
    AnnouncedInReplay(rg, m0, mem, s, sent, heap, n, j);
    PointerInPlace(m, at, sent[j].msg.at, sent[j].msg.len);
    EncodedTextReads(m, sent[j].msg.at, sent[i].text);
    assert CellAt(m, at, Str) == Txt(StripBom(sent[i].text));
  }

  lemma ZerosResolve(m: Buffer, sent: seq<Attempt>, n: nat, at: nat)
    requires at + 8 <= |m| && n <= |sent|
    requires forall x :: at <= x < at + 8 ==> m[x] == 0
    ensures Resolves(m, sent, n, at)
  {
    NumberOfZeros(m[at..at + 4]);
    NumberOfZeros(m[at + 4..at + 8]);
  }

  lemma PrefixResolves(rg: Regions, m0: Buffer, db: Db, heap: Heap, n: nat, o: nat, k: Text)
    requires Logged(rg, m0, db, heap) && n <= |db.sent|
    requires o in heap && k in heap[o].schema.fields && heap[o].schema.fields[k].typ == Str
    requires forall x :: rg.recordStart <= x < rg.RecordEnd() && x < |m0| ==> m0[x] == 0
    ensures AllFit(db.sent[..n], |m0|) && FieldStart(heap, o, k) + 8 <= |m0|
    ensures Resolves(Replay(m0, db.sent[..n], db.mem), db.sent, n, FieldStart(heap, o, k))
  {
    hide CleanOk, HeapOk, RecordBase, StringBase, Encode, Pointer, Replay, CellAt, Resolves, Backed, ShapesOk,
      ArenasBelow, CellsOk;
    var s, sent, at := StringBase(rg, db.mem), db.sent, FieldStart(heap, o, k);
    FieldInRegion(rg, db.mem, RecordBase(rg, db.mem), s, heap, o, k);
    PointersInReplay(rg, m0, db.mem, s, sent, heap, n, o, k);
    var m := Replay(m0, sent[..n], db.mem);
    if forall x :: at <= x < at + 8 ==> m[x] == 0 {
      ZerosResolve(m, sent, n, at);
    } else {
      var i :| 0 <= i < n && sent[i].accepted && sent[i].msg.Inline? && sent[i].msg.at == at
            && |sent[i].msg.data| == 8 && m[at..at + 8] == sent[i].msg.data;
      SitesMeetOrMatch(rg, db.mem, s, sent, heap, i, o, k);
      var j: nat :| Backed(db.mem, sent, i, j);
      InlinesInRecords(rg, db.mem, s, sent, heap);
      PushedPointerResolves(rg, m0, db.mem, s, sent, heap, n, i, j, at);
    }
  }

  lemma InlinesInRecords(rg: Regions, mem: Buffer, s: nat, sent: seq<Attempt>, heap: Heap)
    requires Mapped(rg, mem) && HeapOk(rg, mem, RecordBase(rg, mem), s, heap) && ShapesOk(mem, sent, heap)
    ensures forall i :: 0 <= i < |sent| && sent[i].msg.Inline? ==> sent[i].msg.at + |sent[i].msg.data| <= rg.RecordEnd()
  {
    hide HeapOk, RecordBase, Encode, Pointer, WellLaid;
    forall i | 0 <= i < |sent| && sent[i].msg.Inline?
      ensures sent[i].msg.at + |sent[i].msg.data| <= rg.RecordEnd()
    {
      assert ShapeOk(mem, sent, heap, i);
      var o, n :| SiteIs(heap, o, n, sent[i].msg.at, |sent[i].msg.data|);
      FieldInRegion(rg, mem, RecordBase(rg, mem), s, heap, o, n);
    }
  }

  /**
   Crash consistency of strings. Stop the log after any number of messages, copy
   announced bytes whenever you like: in the replayed arena every string field of
   every record reads as empty, or as a value that was once assigned to it and
   whose bytes were announced before the pointer.
   */
  lemma EveryPrefixResolves(rg: Regions, schemas: map<Text, Schema>, db: Db, calls: seq<Call>) returns (w: World)
    requires Untouched(rg, db) && SchemasOk(schemas) && RunOk(schemas, calls)
    requires NoWrap(rg, db, calls)
    ensures Mapped(rg, db.mem) && WorldOk(rg, schemas, Run(rg, db, calls), w)
    ensures var db' := Run(rg, db, calls);
            forall n: nat, o, k ::
              n <= |db'.sent| && o in w.heap && k in w.heap[o].schema.fields && w.heap[o].schema.fields[k].typ == Str
              ==> AllFit(db'.sent[..n], |db.mem|) && FieldStart(w.heap, o, k) + 8 <= |db.mem|
                  && Resolves(Replay(db.mem, db'.sent[..n], db'.mem), db'.sent, n, FieldStart(w.heap, o, k))
  {
    hide WorldOk, Run, TotalRecords, TotalStrings, StringBase, RecordBase, CallFits, HeapOk, Replay, Resolves, LogOk,
      AllFit;
    UntouchedLogged(rg, schemas, db);
    w := RunLogged(rg, schemas, db.mem, db, World(map[], map[], map[]), calls);
    var db' := Run(rg, db, calls);
    forall n: nat, o, k | n <= |db'.sent| && o in w.heap && k in w.heap[o].schema.fields
        && w.heap[o].schema.fields[k].typ == Str
      ensures AllFit(db'.sent[..n], |db.mem|) && FieldStart(w.heap, o, k) + 8 <= |db.mem|
        && Resolves(Replay(db.mem, db'.sent[..n], db'.mem), db'.sent, n, FieldStart(w.heap, o, k))
    {
      PrefixResolves(rg, db.mem, db', w.heap, n, o, k);
    }
  }
}
