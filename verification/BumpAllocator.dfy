/**
 The two shared bump words under any interleaving. Each worker seeds the word by
 compare-exchange, adds atomically, then checks its limit, as three separate
 steps; other workers may run between any two of them.
 */
module BumpAllocator {
  import opened Bytes
  import opened Layout
  import opened RecordSchema
  import ArenaModel

  datatype Space = Records | Strings

  /** Records, string payloads and catalog records differ in their limit. */
  datatype Kind = ForRecord | ForText | ForCatalog

  datatype Request = Request(kind: Kind, size: nat)

  /** Where a worker is inside one allocation. */
  datatype Pc = Idle | Seeded(req: Request) | Added(req: Request, base: nat)

  datatype Grant = Grant(req: Request, at: nat)

  datatype Shared = Shared(records: nat, strings: nat, pcs: map<nat, Pc>, grants: seq<Grant>)

  datatype Action =
    | Seed(worker: nat, req: Request)
    | Add(worker: nat, req: Request)
    | Check(worker: nat)

  function SpaceOf(k: Kind): Space {
    if k == ForRecord then Records else Strings
  }

  /** Records are taken in whole alignment units. */
  function Taken(r: Request): nat {
    if r.kind == ForRecord then AlignUp(r.size, RECORD_ALIGNMENT) else r.size
  }

  function Word(s: Shared, p: Space): nat {
    if p == Records then s.records else s.strings
  }

  function WithWord(s: Shared, p: Space, w: nat): Shared {
    if p == Records then s.(records := w) else s.(strings := w)
  }

  function SeedOf(rg: Regions, p: Space): nat
    requires Ordered(rg)
  {
    if p == Records then rg.recordStart else rg.StringDataStart()
  }

  function Limit(rg: Regions, k: Kind): int {
    match k
    case ForRecord => rg.RecordEnd()
    case ForText => rg.StringEnd()
    case ForCatalog => rg.arenaBytes
  }

  function PcOf(s: Shared, w: nat): Pc {
    if w in s.pcs then s.pcs[w] else Idle
  }

  predicate Enabled(s: Shared, a: Action) {
    match a
    case Seed(w, _) => PcOf(s, w).Idle?
    case Add(w, req) => PcOf(s, w) == Seeded(req)
    case Check(w) => PcOf(s, w).Added?
  }

  function Do(rg: Regions, s: Shared, a: Action): Shared
    requires Ordered(rg) && Enabled(s, a)
  {
    match a
    case Seed(w, req) =>
      var p := SpaceOf(req.kind);
      var seeded := if Word(s, p) == 0 then WithWord(s, p, SeedOf(rg, p)) else s;
      seeded.(pcs := s.pcs[w := Seeded(req)])
    case Add(w, req) =>
      var p := SpaceOf(req.kind);
      WithWord(s, p, (Word(s, p) + Taken(req)) % U32_LIMIT).(pcs := s.pcs[w := Added(req, Word(s, p))])
    case Check(w) =>
      var pc := PcOf(s, w);
      var idle := s.(pcs := s.pcs[w := Idle]);
      if pc.base + Taken(pc.req) <= Limit(rg, pc.req.kind) then idle.(grants := s.grants + [Grant(pc.req, pc.base)])
      else idle
  }

  // ----- the invariant

  predicate ClaimOk(rg: Regions, s: Shared, req: Request, at: nat)
    requires Ordered(rg)
  {
    SeedOf(rg, SpaceOf(req.kind)) <= at && at + Taken(req) <= Word(s, SpaceOf(req.kind))
  }

  predicate Meet(r: Request, a: nat, q: Request, b: nat) {
    SpaceOf(r.kind) == SpaceOf(q.kind) && !Disjoint(a, Taken(r), b, Taken(q))
  }

  ghost predicate WordOk(rg: Regions, s: Shared, p: Space)
    requires Ordered(rg)
  {
    Word(s, p) == 0 || SeedOf(rg, p) <= Word(s, p) < U32_LIMIT
  }

  /** Every extent handed out or about to be checked is its owner's alone. */
  ghost predicate Inv(rg: Regions, s: Shared)
    requires Ordered(rg)
  {
    && (forall p :: WordOk(rg, s, p))
    && (forall w :: w in s.pcs && s.pcs[w].Seeded? ==>
        SeedOf(rg, SpaceOf(s.pcs[w].req.kind)) <= Word(s, SpaceOf(s.pcs[w].req.kind)))
    && (forall w :: w in s.pcs && s.pcs[w].Added? ==> ClaimOk(rg, s, s.pcs[w].req, s.pcs[w].base))
    && (forall i :: 0 <= i < |s.grants| ==>
          ClaimOk(rg, s, s.grants[i].req, s.grants[i].at)
              && s.grants[i].at + Taken(s.grants[i].req) <= Limit(rg, s.grants[i].req.kind))
    && (forall v, w :: v in s.pcs && w in s.pcs && v != w && s.pcs[v].Added? && s.pcs[w].Added?
          ==> !Meet(s.pcs[v].req, s.pcs[v].base, s.pcs[w].req, s.pcs[w].base))
    && (forall i, w :: 0 <= i < |s.grants| && w in s.pcs && s.pcs[w].Added?
          ==> !Meet(s.grants[i].req, s.grants[i].at, s.pcs[w].req, s.pcs[w].base))
    && (forall i, j :: 0 <= i < j < |s.grants|
          ==> !Meet(s.grants[i].req, s.grants[i].at, s.grants[j].req, s.grants[j].at))
  }

  /** Words, record claims and record grants stay on the record alignment. */
  ghost predicate Aligned(rg: Regions, s: Shared) {
    && s.records % RECORD_ALIGNMENT == 0
    && (forall w :: w in s.pcs && s.pcs[w].Added? && s.pcs[w].req.kind == ForRecord ==>
        s.pcs[w].base % RECORD_ALIGNMENT == 0)
    && (forall i :: 0 <= i < |s.grants| && s.grants[i].req.kind == ForRecord ==> s.grants[i].at % RECORD_ALIGNMENT == 0)
  }

  lemma SeedKeeps(rg: Regions, s: Shared, a: Action)
    requires Ordered(rg) && Inv(rg, s) && Enabled(s, a) && a.Seed?
    ensures Inv(rg, Do(rg, s, a))
  {
    var p := SpaceOf(a.req.kind);
    assert WordOk(rg, s, p);
    var s' := Do(rg, s, a);
    forall q
      ensures WordOk(rg, s', q)
    {
      assert WordOk(rg, s, q);
    }
  }

  lemma AddKeeps(rg: Regions, s: Shared, a: Action)
    requires Ordered(rg) && Inv(rg, s) && Enabled(s, a) && a.Add?
    requires Word(s, SpaceOf(a.req.kind)) + Taken(a.req) < U32_LIMIT
    ensures Inv(rg, Do(rg, s, a))
  {
    hide Disjoint, AlignUp, Meet, Taken, SeedOf, Limit;
    var p, w := SpaceOf(a.req.kind), a.worker;
    var s' := Do(rg, s, a);
    assert s.pcs[w] == Seeded(a.req);
    forall q
      ensures WordOk(rg, s', q)
    {
      assert WordOk(rg, s, q);
    }
    forall v | v in s.pcs && v != w && s.pcs[v].Added?
      ensures !Meet(s.pcs[v].req, s.pcs[v].base, a.req, Word(s, p))
      ensures !Meet(a.req, Word(s, p), s.pcs[v].req, s.pcs[v].base)
    {
      NewClaimApart(rg, s, s.pcs[v].req, s.pcs[v].base, a.req);
    }
    forall i | 0 <= i < |s.grants|
      ensures !Meet(s.grants[i].req, s.grants[i].at, a.req, Word(s, p))
    {
      NewClaimApart(rg, s, s.grants[i].req, s.grants[i].at, a.req);
    }
  }

  /** A claim at the bump word is above everything claimed before. */
  lemma NewClaimApart(rg: Regions, s: Shared, r: Request, at: nat, req: Request)
    requires Ordered(rg) && ClaimOk(rg, s, r, at)
    ensures !Meet(r, at, req, Word(s, SpaceOf(req.kind))) && !Meet(req, Word(s, SpaceOf(req.kind)), r, at)
  {
  }

  lemma CheckKeeps(rg: Regions, s: Shared, a: Action)
    requires Ordered(rg) && Inv(rg, s) && Enabled(s, a) && a.Check?
    ensures Inv(rg, Do(rg, s, a))
  {
    hide Disjoint, AlignUp;
    var s' := Do(rg, s, a);
    forall q
      ensures WordOk(rg, s', q)
    {
      assert WordOk(rg, s, q);
    }
    forall v | v in s'.pcs && s'.pcs[v].Added?
      ensures v != a.worker && v in s.pcs && s.pcs[v] == s'.pcs[v]
    {
    }
    MeetSymmetric(s.pcs[a.worker].req, s.pcs[a.worker].base, s);
  }

  lemma MeetSymmetric(r: Request, at: nat, s: Shared)
    ensures forall w :: w in s.pcs && s.pcs[w].Added? ==>
        Meet(r, at, s.pcs[w].req, s.pcs[w].base) == Meet(s.pcs[w].req, s.pcs[w].base, r, at)
  {
  }

  lemma StepAligned(rg: Regions, s: Shared, a: Action)
    requires Ordered(rg) && Inv(rg, s) && Enabled(s, a) && Aligned(rg, s) && rg.recordStart % RECORD_ALIGNMENT == 0
    requires a.Add? ==> Word(s, SpaceOf(a.req.kind)) + Taken(a.req) < U32_LIMIT
    ensures Aligned(rg, Do(rg, s, a))
  {
    hide Meet, Disjoint, AlignUp;
    if a.Check? {
      assert PcOf(s, a.worker) == s.pcs[a.worker];
    }
    if a.Add? {
      AlignedSum(s.records, a.req);
    }
  }

  lemma AlignedSum(base: nat, r: Request)
    requires base % RECORD_ALIGNMENT == 0
    ensures r.kind == ForRecord ==> (base + Taken(r)) % RECORD_ALIGNMENT == 0
  {
  }

  // ----- whole interleavings

  predicate Schedule(rg: Regions, s: Shared, actions: seq<Action>)
    requires Ordered(rg)
    decreases |actions|
  {
    actions == [] || (Enabled(s, actions[0]) && Schedule(rg, Do(rg, s, actions[0]), actions[1..]))
  }

  function Final(rg: Regions, s: Shared, actions: seq<Action>): Shared
    requires Ordered(rg) && Schedule(rg, s, actions)
    decreases |actions|
  {
    if actions == [] then s else Final(rg, Do(rg, s, actions[0]), actions[1..])
  }

  /** Everything the schedule asks of one word. */
  function Asked(actions: seq<Action>, p: Space): nat {
    if actions == [] then 0 else AskedBy(actions[0], p) + Asked(actions[1..], p)
  }

  function AskedBy(a: Action, p: Space): nat {
    if a.Add? && SpaceOf(a.req.kind) == p then Taken(a.req) else 0
  }

  /** The word as the next request would see it. */
  function Next(rg: Regions, s: Shared, p: Space): nat
    requires Ordered(rg)
  {
    if Word(s, p) == 0 then SeedOf(rg, p) else Word(s, p)
  }

  lemma StepKeeps(rg: Regions, s: Shared, a: Action)
    requires Ordered(rg) && Inv(rg, s) && Enabled(s, a)
    requires forall p :: Next(rg, s, p) + AskedBy(a, p) < U32_LIMIT
    ensures Inv(rg, Do(rg, s, a))
    ensures forall p :: Next(rg, Do(rg, s, a), p) <= Next(rg, s, p) + AskedBy(a, p)
    ensures Aligned(rg, s) && rg.recordStart % RECORD_ALIGNMENT == 0 ==> Aligned(rg, Do(rg, s, a))
  {
    hide Inv, ClaimOk, Aligned;
    WordsOk(rg, s);
    assert a.Add? ==> Next(rg, s, SpaceOf(a.req.kind)) + AskedBy(a, SpaceOf(a.req.kind)) < U32_LIMIT;
    if Aligned(rg, s) && rg.recordStart % RECORD_ALIGNMENT == 0 { StepAligned(rg, s, a); }
    match a {
      case Seed(_, _) => SeedKeeps(rg, s, a);
      case Add(_, _) => AddKeeps(rg, s, a);
      case Check(_) => CheckKeeps(rg, s, a);
    }
  }

  lemma WordsOk(rg: Regions, s: Shared)
    requires Ordered(rg) && Inv(rg, s)
    ensures WordOk(rg, s, Records) && WordOk(rg, s, Strings)
    ensures forall w :: w in s.pcs && s.pcs[w].Seeded? ==>
        SeedOf(rg, SpaceOf(s.pcs[w].req.kind)) <= Word(s, SpaceOf(s.pcs[w].req.kind))
  {
  }

  lemma {:induction false} ScheduleKeeps(rg: Regions, s: Shared, actions: seq<Action>)
    requires Ordered(rg) && Inv(rg, s) && Schedule(rg, s, actions)
    requires Next(rg, s, Records) + Asked(actions, Records) < U32_LIMIT
    requires Next(rg, s, Strings) + Asked(actions, Strings) < U32_LIMIT
    ensures Inv(rg, Final(rg, s, actions))
    ensures Aligned(rg, s) && rg.recordStart % RECORD_ALIGNMENT == 0 ==> Aligned(rg, Final(rg, s, actions))
    decreases |actions|
  {
    hide Meet, ClaimOk, Aligned, AlignUp, Inv, Do, Next, AskedBy;
    if actions != [] {
      var a := actions[0];
      forall p
        ensures Next(rg, s, p) + AskedBy(a, p) < U32_LIMIT
      {
        assert p == Records || p == Strings;
      }
      StepKeeps(rg, s, a);
      ScheduleKeeps(rg, Do(rg, s, a), actions[1..]);
    }
  }

  /** No worker inside an allocation and nothing granted; each word zero, or at or above its seed. */
  ghost predicate Fresh(rg: Regions, s: Shared)
    requires Ordered(rg)
  {
    s.pcs == map[] && s.grants == [] && forall p :: WordOk(rg, s, p)
  }

  predicate InsideOneRegion(rg: Regions, g: Grant) {
    if g.req.kind == ForRecord then
      rg.RecordBump() + 8 <= g.at && g.at + Taken(g.req) <= rg.RecordEnd()
    else
      rg.stringStart + 8 <= g.at && g.at + Taken(g.req) <= rg.arenaBytes
  }

  /**
   Under every interleaving whose requests stay below the 32-bit wrap, all granted
   extents are pairwise disjoint, inside their region (so clear of header, ring,
   both bump words and the index), and records are aligned when the region and
   the record word are.
   */
  lemma GrantsAreSafe(rg: Regions, s: Shared, actions: seq<Action>)
    requires Ordered(rg) && Fresh(rg, s) && Schedule(rg, s, actions)
    requires forall p :: Next(rg, s, p) + Asked(actions, p) < U32_LIMIT
    ensures var gs := Final(rg, s, actions).grants;
            && (forall i, j :: 0 <= i < j < |gs| ==> Disjoint(gs[i].at, Taken(gs[i].req), gs[j].at, Taken(gs[j].req)))
            && (forall i :: 0 <= i < |gs| ==>
                InsideOneRegion(rg, gs[i]) && gs[i].at + Taken(gs[i].req) <= Limit(rg, gs[i].req.kind))
            && (rg.recordStart % RECORD_ALIGNMENT == 0 && s.records % RECORD_ALIGNMENT == 0 ==>
                  forall i :: 0 <= i < |gs| && gs[i].req.kind == ForRecord ==> gs[i].at % RECORD_ALIGNMENT == 0)
  {
    hide Schedule, Final, AlignUp;
    assert Inv(rg, s);
    assert s.records % RECORD_ALIGNMENT == 0 ==> Aligned(rg, s);
    assert forall p :: Next(rg, s, p) + Asked(actions, p) < U32_LIMIT;
    ScheduleKeeps(rg, s, actions);
    var t := Final(rg, s, actions);
    forall i, j | 0 <= i < j < |t.grants|
      ensures Disjoint(t.grants[i].at, Taken(t.grants[i].req), t.grants[j].at, Taken(t.grants[j].req))
    {
      assert !Meet(t.grants[i].req, t.grants[i].at, t.grants[j].req, t.grants[j].at);
      GrantInside(rg, t, i);
      GrantInside(rg, t, j);
    }
    forall i | 0 <= i < |t.grants|
      ensures InsideOneRegion(rg, t.grants[i])
      ensures t.grants[i].at + Taken(t.grants[i].req) <= Limit(rg, t.grants[i].req.kind)
    {
      GrantInside(rg, t, i);
    }
  }

  lemma GrantInside(rg: Regions, s: Shared, i: nat)
    requires Ordered(rg) && Inv(rg, s) && i < |s.grants|
    ensures InsideOneRegion(rg, s.grants[i])
    ensures s.grants[i].at + Taken(s.grants[i].req) <= Limit(rg, s.grants[i].req.kind)
  {
    hide Meet, AlignUp;
    assert ClaimOk(rg, s, s.grants[i].req, s.grants[i].at);
  }

  /**
   One worker running its three steps alone is the client's own allocation, for
   records, strings and catalog records alike: the same base, the same words, and
   a grant exactly where the request ends inside its region, or, for a catalog
   record, inside the mapping.
   */
  lemma AloneIsTheClient(rg: Regions, mem: Buffer, s: Shared, w: nat, req: Request)
    requires ArenaModel.Mapped(rg, mem) && PcOf(s, w).Idle?
    requires s.records == U32At(mem, rg.RecordBump()) && s.strings == U32At(mem, rg.stringStart)
    ensures var record := req.kind == ForRecord;
            var n := if record then AlignUp(req.size, 8) else req.size;
            var mem' := if record then ArenaModel.TakeRecord(rg, mem, n) else ArenaModel.TakeString(rg, mem, n);
            var base := if record then ArenaModel.RecordBase(rg, mem) else ArenaModel.StringBase(rg, mem);
            var s1 := Do(rg, s, Seed(w, req));
            var s2 := Do(rg, s1, Add(w, req));
            var s3 := Do(rg, s2, Check(w));
            && PcOf(s2, w) == Added(req, base)
            && s2.records == s3.records == U32At(mem', rg.RecordBump())
                && s2.strings == s3.strings == U32At(mem', rg.stringStart)
            && var end := match req.kind
                 case ForRecord => rg.recordStart + rg.recordBytes
                 case ForText => rg.stringStart + rg.stringBytes
                 case ForCatalog => rg.arenaBytes;
               s3.grants == if base + n <= end then s.grants + [Grant(req, base)] else s.grants
  {
    hide AlignUp, Bytes.Number, Bytes.Digits;
    var word := if req.kind == ForRecord then rg.RecordBump() else rg.stringStart;
    var other := if req.kind == ForRecord then rg.stringStart else rg.RecordBump();
    var base := if req.kind == ForRecord then ArenaModel.RecordBase(rg, mem) else ArenaModel.StringBase(rg, mem);
    PutU32(mem, word, base + Taken(req));
    PutFrame(mem, word, U32Bytes(base + Taken(req)), other, 4);
  }
}
