/**
 Several secondary indexes on the engine's one shared index: over any run of adds
 and removes, interleaved with index writes that are nobody's entries, each keeps
 representing its own mapping, and every answer is the one its mapping gives.
 */
module IndexRuns {
  import opened Bytes
  import opened Utf8
  import opened IndexKeys

  datatype IndexId = IndexId(table: Text, column: Text)

  function PrefixOf(id: IndexId): Text {
    IndexPrefix(id.table, id.column)
  }

  type Contents = map<IndexId, Content>

  /** `OtherBind` and `OtherUnbind` are index writes of row keys, catalog records and the like. */
  datatype IndexCall =
    | AddCall(id: IndexId, value: Text, pk: Text, offset: nat, rc: int)
    | RemoveCall(id: IndexId, value: Text, pk: Text, fails: bool)
    | OtherBind(key: Buffer, offset: nat)
    | OtherUnbind(key: Buffer)

  datatype Answer = ToAdd(outcome: Added) | ToRemove(present: bool) | Threw | Silent

  // ----- what the calls do to the engine's index

  function Step(idx: Index, uniques: set<IndexId>, call: IndexCall): (Index, Answer) {
    match call
    case AddCall(id, value, pk, offset, rc) =>
      var outcome := AddOutcome(idx, PrefixOf(id), id in uniques, value, pk, rc);
      (if outcome == Stored then Bind(idx, EntryKey(PrefixOf(id), value, pk), offset) else idx, ToAdd(outcome))
    case RemoveCall(id, value, pk, fails) =>
      var key := EntryKey(PrefixOf(id), value, pk);
      if fails || !KeyOk(key) then (idx, Threw) else (Unbind(idx, key), ToRemove(Present(idx, key)))
    case OtherBind(key, offset) => (Bind(idx, key, offset), Silent)
    case OtherUnbind(key) => (Unbind(idx, key), Silent)
  }

  /** The index after a run, and every answer given on the way. */
  function Run(idx: Index, uniques: set<IndexId>, calls: seq<IndexCall>): (Index, seq<Answer>)
    decreases |calls|
  {
    if calls == [] then (idx, [])
    else
      var (idx1, answer) := Step(idx, uniques, calls[0]);
      var (idx', answers) := Run(idx1, uniques, calls[1..]);
      (idx', [answer] + answers)
  }

  // ----- what they mean on the mappings

  predicate Holds(content: Content, value: Text) {
    exists vk :: vk in content && vk.0 == value
  }

  function MeantOutcome(content: Content, p: Text, unique: bool, value: Text, pk: Text, rc: int): Added {
    if unique && !KeyOk(Encode(p + (value + [SEP]))) then KeyRejected
    else if unique && Holds(content, value) then UniqueViolation
    else if !KeyOk(EntryKey(p, value, pk)) then KeyRejected
    else if rc != 0 then IndexRefused
    else Stored
  }

  function With(content: Content, value: Text, pk: Text, offset: nat): Content {
    content[(value, pk) := offset]
  }

  function Meant(contents: Contents, uniques: set<IndexId>, call: IndexCall): (Contents, Answer) {
    match call
    case AddCall(id, value, pk, offset, rc) =>
      if id !in contents then (contents, Silent)
      else
        var outcome := MeantOutcome(contents[id], PrefixOf(id), id in uniques, value, pk, rc);
        (if outcome == Stored then contents[id := With(contents[id], value, pk, offset)] else contents, ToAdd(outcome))
    case RemoveCall(id, value, pk, fails) =>
      if id !in contents then (contents, Silent)
      else if fails || !KeyOk(EntryKey(PrefixOf(id), value, pk)) then (contents, Threw)
      else (contents[id := contents[id] - {(value, pk)}], ToRemove((value, pk) in contents[id]))
    case OtherBind(_, _) => (contents, Silent)
    case OtherUnbind(_) => (contents, Silent)
  }

  function MeantRun(contents: Contents, uniques: set<IndexId>, calls: seq<IndexCall>): (Contents, seq<Answer>)
    decreases |calls|
  {
    if calls == [] then (contents, [])
    else
      var (contents1, answer) := Meant(contents, uniques, calls[0]);
      var (contents', answers) := MeantRun(contents1, uniques, calls[1..]);
      (contents', [answer] + answers)
  }

  // ----- the relation

  /** Table and column names, which the schema keeps free of colons. */
  predicate IdOk(id: IndexId) {
    Free(id.table, COLON) && Free(id.column, COLON)
  }

  ghost predicate AllRepresented(idx: Index, contents: Contents) {
    forall id :: id in contents ==> IdOk(id) && Represents(idx, PrefixOf(id), contents[id])
  }

  ghost predicate UniquesHold(contents: Contents, uniques: set<IndexId>) {
    forall id :: id in contents && id in uniques ==> OnePerValue(contents[id])
  }

  /** Values above the separator, and foreign keys that are no index's entries. */
  ghost predicate CallOk(ids: set<IndexId>, call: IndexCall) {
    match call
    case AddCall(id, value, _, _, _) => id in ids && Plain(value)
    case RemoveCall(id, value, _, _) => id in ids && Plain(value)
    case OtherBind(key, _) => forall id :: id in ids ==> !StartsWith(key, Encode(PrefixOf(id)))
    case OtherUnbind(key) => forall id :: id in ids ==> !StartsWith(key, Encode(PrefixOf(id)))
  }

  /** Another index's entry leaves this one alone. */
  lemma OtherEntry(idx: Index, id: IndexId, content: Content, other: IndexId, value: Text, pk: Text, offset: nat)
    requires IdOk(id) && IdOk(other) && id != other && Represents(idx, PrefixOf(id), content)
    ensures Represents(Bind(idx, EntryKey(PrefixOf(other), value, pk), offset), PrefixOf(id), content)
    ensures Represents(Unbind(idx, EntryKey(PrefixOf(other), value, pk)), PrefixOf(id), content)
  {
    hide Represents, EntryKey, StartsWith, Bind, Unbind, IndexPrefix, Free;
    IndexesApart(id.table, id.column, other.table, other.column, value, pk);
    OtherEntriesIrrelevant(idx, PrefixOf(id), content, EntryKey(PrefixOf(other), value, pk), offset);
  }

  lemma AddMeans(idx: Index, contents: Contents, uniques: set<IndexId>, call: IndexCall)
    requires AllRepresented(idx, contents) && UniquesHold(contents, uniques) && CallOk(contents.Keys, call)
    requires call.AddCall?
    ensures var (idx', answer), (contents', meant) := Step(idx, uniques, call), Meant(contents, uniques, call);
            answer == meant && contents'.Keys == contents.Keys && AllRepresented(idx', contents')
                && UniquesHold(contents', uniques)
  {
    hide Represents, EntryKey, Plain, Bind, Unbind, IndexPrefix, Free, KeyOk, OnePerValue, ValueScan;
    var AddCall(id, value, pk, offset, rc) := call;
    if id in uniques {
      UniqueKept(idx, PrefixOf(id), contents[id], value, pk, offset);
    }
    var (idx', _) := Step(idx, uniques, call);
    var (contents', _) := Meant(contents, uniques, call);
    if AddOutcome(idx, PrefixOf(id), id in uniques, value, pk, rc) == Stored {
      forall q | q in contents'
        ensures IdOk(q) && Represents(idx', PrefixOf(q), contents'[q])
      {
        if q == id {
          BindRepresents(idx, PrefixOf(id), contents[id], value, pk, offset);
        } else {
          OtherEntry(idx, q, contents[q], id, value, pk, offset);
        }
      }
    }
  }

  lemma RemoveMeans(idx: Index, contents: Contents, uniques: set<IndexId>, call: IndexCall)
    requires AllRepresented(idx, contents) && UniquesHold(contents, uniques) && CallOk(contents.Keys, call)
    requires call.RemoveCall?
    ensures var (idx', answer), (contents', meant) := Step(idx, uniques, call), Meant(contents, uniques, call);
            answer == meant && contents'.Keys == contents.Keys && AllRepresented(idx', contents')
                && UniquesHold(contents', uniques)
  {
    hide Represents, EntryKey, Plain, Bind, Unbind, IndexPrefix, Free, KeyOk;
    var RemoveCall(id, value, pk, fails) := call;
    UnbindRepresents(idx, PrefixOf(id), contents[id], value, pk);
    var (idx', _) := Step(idx, uniques, call);
    var (contents', _) := Meant(contents, uniques, call);
    if !fails && KeyOk(EntryKey(PrefixOf(id), value, pk)) {
      forall q | q in contents'
        ensures IdOk(q) && Represents(idx', PrefixOf(q), contents'[q])
      {
        if q != id { OtherEntry(idx, q, contents[q], id, value, pk, 0); }
      }
    }
  }

  lemma OtherMeans(idx: Index, contents: Contents, uniques: set<IndexId>, call: IndexCall)
    requires AllRepresented(idx, contents) && UniquesHold(contents, uniques) && CallOk(contents.Keys, call)
    requires call.OtherBind? || call.OtherUnbind?
    ensures var (idx', answer), (contents', meant) := Step(idx, uniques, call), Meant(contents, uniques, call);
            answer == meant && contents'.Keys == contents.Keys && AllRepresented(idx', contents')
                && UniquesHold(contents', uniques)
  {
    hide Represents, StartsWith, Bind, Unbind, IndexPrefix, Free, UniquesHold;
    var (idx', _) := Step(idx, uniques, call);
    forall q | q in contents
      ensures Represents(idx', PrefixOf(q), contents[q])
    {
      OtherEntriesIrrelevant(idx, PrefixOf(q), contents[q], call.key, if call.OtherBind? then call.offset else 0);
    }
  }

  /**
   Every run on the shared index: each answer is the one the mappings give, each
   index still represents its mapping, and unique indexes still hold one primary
   key per value.
   */
  lemma {:induction false} RunMeans(idx: Index, contents: Contents, uniques: set<IndexId>, calls: seq<IndexCall>)
    requires AllRepresented(idx, contents) && UniquesHold(contents, uniques)
    requires forall i :: 0 <= i < |calls| ==> CallOk(contents.Keys, calls[i])
    ensures var (idx', answers), (contents', meant) := Run(idx, uniques, calls), MeantRun(contents, uniques, calls);
            answers == meant && contents'.Keys == contents.Keys && AllRepresented(idx', contents')
                && UniquesHold(contents', uniques)
    decreases |calls|
  {
    hide AllRepresented, UniquesHold, Step, Meant, CallOk;
    if calls != [] {
      assert CallOk(contents.Keys, calls[0]);
      match calls[0] {
        case AddCall(_, _, _, _, _) => AddMeans(idx, contents, uniques, calls[0]);
        case RemoveCall(_, _, _, _) => RemoveMeans(idx, contents, uniques, calls[0]);
        case OtherBind(_, _) => OtherMeans(idx, contents, uniques, calls[0]);
        case OtherUnbind(_) => OtherMeans(idx, contents, uniques, calls[0]);
      }
      var contents1 := Meant(contents, uniques, calls[0]).0;
      forall i | 0 <= i < |calls[1..]|
        ensures CallOk(contents1.Keys, calls[1..][i])
      {
        assert calls[1..][i] == calls[i + 1];
      }
      RunMeans(Step(idx, uniques, calls[0]).0, contents1, uniques, calls[1..]);
    }
  }

  /** After any run from an empty index, a range lookup on any index lists precisely its in-range pairs. */
  lemma RangeAfterRun(ids: set<IndexId>, uniques: set<IndexId>, calls: seq<IndexCall>, id: IndexId, lo: Text, hi: Text,
                      max: nat)
    returns (items: seq<(Text, Text)>)
    requires id in ids && (forall q :: q in ids ==> IdOk(q)) && Plain(lo) && Plain(hi)
    requires forall i :: 0 <= i < |calls| ==> CallOk(ids, calls[i])
    ensures var content := MeantRun(map q | q in ids :: map[], uniques, calls).0;
            id in content && Lists(items, content[id], (v, pk) => InRange(v, pk, lo, hi))
            && Capped(RangeScan(Run([], uniques, calls).0, PrefixOf(id), lo, hi), max)
                 == OffsetsOf(if |items| <= max then items else items[..max], content[id])
  {
    hide Lists, RangeScan, InRange, Plain, IndexPrefix, CallOk, Capped, OffsetsOf, MeantRun, Run;
    var start: Contents := map q | q in ids :: map[];
    EmptyRepresents(start);
    assert start.Keys == ids;
    RunMeans([], start, uniques, calls);
    var idx, content := Run([], uniques, calls).0, MeantRun(start, uniques, calls).0;
    items := RangeIsExact(idx, PrefixOf(id), content[id], lo, hi, max);
  }

  lemma EmptyRepresents(start: Contents)
    requires forall q :: q in start ==> IdOk(q) && start[q] == map[]
    ensures AllRepresented([], start) && forall uniques :: UniquesHold(start, uniques)
  {
    hide IndexPrefix, Free;
  }

  /**
   When an add is stored: the engine takes it, the key is short enough and has no
   NUL, and in a unique index no entry has the value.
   */
  lemma StoredIff(content: Content, id: IndexId, unique: bool, value: Text, pk: Text, rc: int)
    ensures MeantOutcome(content, PrefixOf(id), unique, value, pk, rc) == Stored <==>
              && |Encode(KeyText(id.table, id.column, value, pk))| <= 256
              && 0 !in KeyText(id.table, id.column, value, pk)
              && (unique ==> !Holds(content, value)) && rc == 0
  {
    hide KeyOk, Holds, IndexPrefix;
    EntryKeyOkIff(id.table, id.column, value, pk);
    if KeyOk(EntryKey(PrefixOf(id), value, pk)) { PrefixKeyOk(PrefixOf(id), value, pk); }
  }

  /** A key that is accepted has an accepted lookup prefix. */
  lemma PrefixKeyOk(p: Text, value: Text, pk: Text)
    requires KeyOk(EntryKey(p, value, pk))
    ensures KeyOk(Encode(p + (value + [SEP])))
  {
    var t := p + (value + [SEP]);
    assert p + Suffix(value, pk) == t + pk;
    EncodeConcat(t, pk);
    EncodeNonEmpty(t);
    assert 0 in Encode(t) ==> 0 in Encode(t) + Encode(pk);
  }
}
