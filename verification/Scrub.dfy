/**
 Sealed record envelopes and the extent walker: what one walk reports on any
 buffer, and exactly where it locates truncation and damage.
 */
module Scrub {
  import opened Bytes
  import opened Crc32

  const REC_MAGIC: nat := 0x5452_4543
  const REC_VERSION: nat := 1
  const REC_HEADER_LEN: nat := 10
  const REC_OVERHEAD: nat := 14

  // ----- sealing and verifying

  function HeaderOf(len: nat): (h: Buffer)
    ensures |h| == REC_HEADER_LEN
  {
    U32Bytes(REC_MAGIC) + U16Bytes(REC_VERSION) + U32Bytes(len)
  }

  /** Header, checksum of header and payload, payload. */
  function Seal(payload: Buffer): (e: Buffer)
    ensures |e| == REC_OVERHEAD + |payload|
  {
    var header := HeaderOf(|payload|);
    header + U32Bytes(CrcWord(header + payload)) + payload
  }

  method Set(out: array<byte>, at: nat, data: Buffer)
    requires at + |data| <= out.Length
    modifies out
    ensures out[..] == Put(old(out[..]), at, data)
  {
    forall i | 0 <= i < |data| {
      out[at + i] := data[i];
    }
  }

  /** The sealer as written: a fresh buffer filled field by field. */
  method SealRecord(payload: Buffer) returns (out: array<byte>)
    ensures fresh(out) && out[..] == Seal(payload)
  {
    hide CrcWord, U32Bytes, U16Bytes;
    out := new byte[REC_OVERHEAD + |payload|](_ => 0);
    Set(out, 0, U32Bytes(REC_MAGIC));
    Set(out, 4, U16Bytes(REC_VERSION));
    Set(out, 6, U32Bytes(|payload|));
    assert out[..REC_HEADER_LEN] == HeaderOf(|payload|);
    var crc := Crc32Ieee(out[..REC_HEADER_LEN] + payload);
    Set(out, REC_HEADER_LEN, U32Bytes(crc));
    Set(out, REC_OVERHEAD, payload);
  }

  /** The payload length a header declares; None when it is not a header. */
  datatype Declared = NoHeader | Length(len: nat)

  function DeclaredLen(buf: Buffer): Declared {
    if |buf| < REC_HEADER_LEN then NoHeader
    else if U32At(buf, 0) != REC_MAGIC then NoHeader
    else if U16At(buf, 4) != REC_VERSION then NoHeader
    else Length(U32At(buf, 6))
  }

  predicate VerifyRecord(buf: Buffer) {
    if |buf| < REC_OVERHEAD then false
    else if U32At(buf, 0) != REC_MAGIC then false
    else if U16At(buf, 4) != REC_VERSION then false
    else
      var plen := U32At(buf, 6);
      |buf| >= REC_OVERHEAD + plen
      && U32At(buf, REC_HEADER_LEN) == CrcWord(buf[..REC_HEADER_LEN] + buf[REC_OVERHEAD..REC_OVERHEAD + plen])
  }

  /** One whole verified envelope and nothing after it. */
  predicate Envelope(e: Buffer) {
    VerifyRecord(e) && |e| == REC_OVERHEAD + U32At(e, 6)
  }

  // ----- the walk

  datatype Report = Report(ok: nat, corrupt: nat, bytes: nat, truncated: bool)

  predicate AllZero(buf: Buffer) {
    forall i :: 0 <= i < |buf| ==> buf[i] == 0
  }

  /** What stops the walk at the front of `buf`, if anything does. */
  datatype Stop = Clean | Corrupt | Truncated | Continue(len: nat)

  function Look(buf: Buffer): (s: Stop)
    requires buf != []
    ensures s.Continue? ==> REC_OVERHEAD <= s.len <= |buf|
  {
    match DeclaredLen(buf)
    case NoHeader => if AllZero(buf) then Clean else Corrupt
    case Length(n) =>
      if |buf| < REC_OVERHEAD + n then Truncated
      else if !VerifyRecord(buf[..REC_OVERHEAD + n]) then Corrupt
      else Continue(REC_OVERHEAD + n)
  }

  lemma PassedIsEnvelope(buf: Buffer)
    requires buf != [] && Look(buf).Continue?
    ensures Envelope(buf[..Look(buf).len])
  {
    hide U32At, U16At, CrcWord;
    SameLength(buf, Look(buf).len);
  }

  /** The declared length is read from the front, so a longer buffer declares the same. */
  lemma SameLength(buf: Buffer, k: nat)
    requires REC_OVERHEAD <= k <= |buf|
    ensures U32At(buf[..k], 0) == U32At(buf, 0) && U16At(buf[..k], 4) == U16At(buf, 4)
    ensures U32At(buf[..k], 6) == U32At(buf, 6)
  {
    assert buf[..k][0..4] == buf[0..4] && buf[..k][6..10] == buf[6..10];
  }

  function Walk(buf: Buffer): Report
    decreases |buf|
  {
    if buf == [] then Report(0, 0, 0, false)
    else
      match Look(buf)
      case Clean => Report(0, 0, 0, false)
      case Corrupt => Report(0, 1, 0, false)
      case Truncated => Report(0, 0, 0, true)
      case Continue(n) =>
        var rest := Walk(buf[n..]);
        Report(rest.ok + 1, rest.corrupt, rest.bytes + n, rest.truncated)
  }

  /** The walker as written: one loop over a moving offset. */
  method ScrubRecords(buf: Buffer) returns (r: Report)
    ensures r == Walk(buf)
  {
    hide CrcWord, U32At, U16At, VerifyRecord, AllZero;
    var ok, corrupt, bytes, truncated := 0, 0, 0, false;
    var off := 0;
    while off < |buf|
      invariant 0 <= off <= |buf| && bytes == off && corrupt == 0 && !truncated
      invariant var rest := Walk(buf[off..]);
                Walk(buf) == Report(ok + rest.ok, rest.corrupt, bytes + rest.bytes, rest.truncated)
    {
      var rest := buf[off..];
      var declared := DeclaredLen(rest);
      if declared.NoHeader? {
        return Report(ok, if AllZero(rest) then 0 else 1, bytes, false);
      }
      var size := REC_OVERHEAD + declared.len;
      if |rest| < size {
        return Report(ok, 0, bytes, true);
      }
      if !VerifyRecord(rest[..size]) {
        return Report(ok, 1, bytes, false);
      }
      assert rest[size..] == buf[off + size..];
      ok, bytes, off := ok + 1, bytes + size, off + size;
    }
    assert buf[off..] == [];
    r := Report(ok, corrupt, bytes, truncated);
  }

  // ----- every buffer: the unique maximal verified prefix

  function Concat(es: seq<Buffer>): Buffer {
    if es == [] then [] else es[0] + Concat(es[1..])
  }

  /** The envelopes a walk passes over. */
  function Found(buf: Buffer): (es: seq<Buffer>)
    decreases |buf|
  {
    if buf == [] || !Look(buf).Continue? then []
    else [buf[..Look(buf).len]] + Found(buf[Look(buf).len..])
  }

  predicate AllEnvelopes(es: seq<Buffer>) {
    forall i :: 0 <= i < |es| ==> Envelope(es[i])
  }

  predicate IsPrefix(p: Buffer, buf: Buffer) {
    |p| <= |buf| && buf[..|p|] == p
  }

  lemma {:induction false} FoundIsReported(buf: Buffer)
    ensures AllEnvelopes(Found(buf)) && |Found(buf)| == Walk(buf).ok
    ensures Walk(buf).bytes <= |buf| && Concat(Found(buf)) == buf[..Walk(buf).bytes]
    decreases |buf|
  {
    hide Envelope, DeclaredLen, VerifyRecord, AllZero;
    if buf != [] && Look(buf).Continue? {
      var n := Look(buf).len;
      PassedIsEnvelope(buf);
      FoundIsReported(buf[n..]);
      assert Found(buf)[1..] == Found(buf[n..]);
      assert buf[..n] + buf[n..][..Walk(buf[n..]).bytes] == buf[..Walk(buf).bytes];
    }
  }

  /** A buffer that starts with an envelope is walked over that very envelope. */
  lemma LookAtEnvelope(buf: Buffer, e: Buffer)
    requires Envelope(e) && IsPrefix(e, buf)
    ensures buf != [] && Look(buf) == Continue(|e|)
  {
    hide CrcWord, U32At, U16At;
    SameLength(buf, |e|);
  }

  /**
   Any way of reading verified envelopes off the front of a buffer reads the ones
   the walk found, and no more: the verified prefix is unique and maximal.
   */
  lemma {:induction false} FoundIsMaximal(buf: Buffer, es: seq<Buffer>)
    requires AllEnvelopes(es) && IsPrefix(Concat(es), buf)
    ensures es <= Found(buf)
    decreases |es|
  {
    hide Envelope, Look;
    if es != [] {
      var e, rest := es[0], Concat(es[1..]);
      assert buf[..|e|] == (e + rest)[..|e|] == e;
      LookAtEnvelope(buf, e);
      assert buf[|e|..][..|rest|] == buf[..|e + rest|][|e|..] == rest;
      FoundIsMaximal(buf[|e|..], es[1..]);
      assert es == [e] + es[1..];
    }
  }

  /**
   The report on any buffer: `bytes` and `ok` describe the unique maximal prefix of
   verified envelopes, and the flags say why the walk stopped there.
   */
  lemma {:induction false} ReportIsExact(buf: Buffer)
    ensures var r := Walk(buf);
            && r.bytes <= |buf|
            && var rest := buf[r.bytes..];
               && (r.truncated <==>
                   rest != [] && DeclaredLen(rest).Length? && |rest| < REC_OVERHEAD + DeclaredLen(rest).len)
               && (r.corrupt == 1 <==> rest != [] && Look(rest) == Corrupt)
               && (r.corrupt == 0 && !r.truncated <==> AllZero(rest))
               && r.corrupt <= 1 && !(r.corrupt == 1 && r.truncated)
    decreases |buf|
  {
    hide CrcWord, Envelope;
    if buf == [] {
    } else {
      if !Look(buf).Continue? {
        assert buf[0..] == buf;
        ZerosAreNoHeader(buf);
      } else {
        var n := Look(buf).len;
        ReportIsExact(buf[n..]);
        assert buf[n..][Walk(buf[n..]).bytes..] == buf[Walk(buf).bytes..];
      }
    }
  }

  lemma ZerosAreNoHeader(buf: Buffer)
    ensures AllZero(buf) ==> DeclaredLen(buf) == NoHeader
  {
    if AllZero(buf) && |buf| >= 4 {
      NumberOfZeros(buf[0..4]);
    }
  }

  // ----- sealed payloads

  function SealAll(ps: seq<Buffer>): Buffer {
    if ps == [] then [] else Seal(ps[0]) + SealAll(ps[1..])
  }

  /** Payload lengths that fit the 32-bit length field. */
  predicate Fit(ps: seq<Buffer>) {
    forall i :: 0 <= i < |ps| ==> |ps[i]| < U32_LIMIT
  }

  lemma SealParts(p: Buffer)
    ensures Seal(p)[..REC_HEADER_LEN] == HeaderOf(|p|)
    ensures Seal(p)[REC_HEADER_LEN..REC_OVERHEAD] == U32Bytes(CrcWord(HeaderOf(|p|) + p))
    ensures Seal(p)[REC_OVERHEAD..] == p
  {
    hide CrcWord, HeaderOf, U32Bytes;
  }

  lemma HeaderReads(buf: Buffer, len: nat)
    requires |buf| >= REC_HEADER_LEN && buf[..REC_HEADER_LEN] == HeaderOf(len) && len < U32_LIMIT
    ensures U32At(buf, 0) == REC_MAGIC && U16At(buf, 4) == REC_VERSION && U32At(buf, 6) == len
    ensures DeclaredLen(buf) == Length(len)
  {
    hide Number, Digits;
    var h := buf[..REC_HEADER_LEN];
    assert buf[0..4] == h[0..4] == U32Bytes(REC_MAGIC);
    assert buf[6..10] == h[6..10] == U32Bytes(len);
    assert buf[4] == h[4] && buf[5] == h[5];
    WordRoundTrip(REC_MAGIC);
    WordRoundTrip(len);
  }

  /** Sealing then verifying succeeds, for every payload the length field can describe. */
  lemma SealVerifies(p: Buffer)
    requires |p| < U32_LIMIT
    ensures Envelope(Seal(p))
  {
    hide CrcWord, HeaderOf, U32Bytes, Seal;
    var e := Seal(p);
    SealParts(p);
    HeaderReads(e, |p|);
    assert e[REC_OVERHEAD..REC_OVERHEAD + |p|] == e[REC_OVERHEAD..] == p;
    CrcReads(e, p);
  }

  lemma CrcReads(e: Buffer, p: Buffer)
    requires |e| >= REC_OVERHEAD && e[REC_HEADER_LEN..REC_OVERHEAD] == U32Bytes(CrcWord(HeaderOf(|p|) + p))
    ensures U32At(e, REC_HEADER_LEN) == CrcWord(HeaderOf(|p|) + p)
  {
    hide CrcWord, HeaderOf, U32Bytes;
    WordRoundTrip(CrcWord(HeaderOf(|p|) + p));
  }

  /** The bytes of an envelope: tag, version, length, checksum of header and payload, payload. */
  lemma SealBytes(p: Buffer)
    requires |p| < U32_LIMIT
    ensures var e := Seal(p);
            && |e| == 14 + |p| && e[..6] == [0x43, 0x45, 0x52, 0x54, 1, 0]
            && U32At(e, 6) == |p| && U32At(e, 10) == CrcWord(e[..10] + p) && e[14..] == p
  {
    hide CrcWord, Seal;
    SealParts(p);
    HeaderReads(Seal(p), |p|);
    CrcReads(Seal(p), p);
    VersionBytes();
    assert Seal(p)[..10] == HeaderOf(|p|);
    MagicBytes(|p|);
    assert Seal(p)[..6] == Seal(p)[..10][..6];
  }

  lemma MagicBytes(len: nat)
    ensures HeaderOf(len)[..6] == [0x43, 0x45, 0x52, 0x54, 1, 0]
  {
    LittleEndian(HeaderOf(len), 0);
    assert HeaderOf(len)[0..4] == U32Bytes(REC_MAGIC);
    WordRoundTrip(REC_MAGIC);
    NumberInjective(U32Bytes(REC_MAGIC), [0x43, 0x45, 0x52, 0x54]);
  }

  /** Verification accepts exactly the buffers that begin with a sealed payload. */
  lemma VerifiesIff(buf: Buffer)
    ensures VerifyRecord(buf) <==> exists p :: |p| < U32_LIMIT && IsPrefix(Seal(p), buf)
  {
    hide CrcWord, Seal, U32At, U16At;
    if p :| |p| < U32_LIMIT && IsPrefix(Seal(p), buf) {
      SealVerifies(p);
      VerifyPrefix(buf, |Seal(p)|);
    }
    if VerifyRecord(buf) {
      var p := buf[REC_OVERHEAD..REC_OVERHEAD + U32At(buf, 6)];
      VerifiedIsSeal(buf, p);
      assert IsPrefix(Seal(p), buf);
    }
  }

  lemma VerifyPrefix(buf: Buffer, n: nat)
    requires n <= |buf| && VerifyRecord(buf[..n])
    ensures VerifyRecord(buf)
  {
    hide CrcWord;
    var e := buf[..n];
    assert e[0..4] == buf[0..4] && e[6..10] == buf[6..10] && e[10..14] == buf[10..14];
    assert e[..REC_HEADER_LEN] == buf[..REC_HEADER_LEN];
    var plen := U32At(buf, 6);
    assert e[REC_OVERHEAD..REC_OVERHEAD + plen] == buf[REC_OVERHEAD..REC_OVERHEAD + plen];
  }

  lemma VerifiedIsSeal(buf: Buffer, p: Buffer)
    requires VerifyRecord(buf) && p == buf[REC_OVERHEAD..REC_OVERHEAD + U32At(buf, 6)]
    ensures |p| == U32At(buf, 6) && IsPrefix(Seal(p), buf)
  {
    hide CrcWord, U32At, U32Bytes;
    BytesOfWord(buf, 0);
    BytesOfWord(buf, 6);
    BytesOfWord(buf, 10);
    assert buf[..REC_HEADER_LEN] == buf[0..4] + [buf[4], buf[5]] + buf[6..10];
    assert buf[..REC_HEADER_LEN] == HeaderOf(|p|);
    assert buf[..REC_OVERHEAD + |p|] == buf[..REC_HEADER_LEN] + buf[10..14] + p;
  }

  /** The walk passes a whole sealed envelope. */
  lemma PassSealed(p: Buffer, tail: Buffer)
    requires |p| < U32_LIMIT
    ensures Walk(Seal(p) + tail) == var r := Walk(tail); Report(r.ok + 1, r.corrupt, r.bytes + |Seal(p)|, r.truncated)
  {
    hide Look, Seal, Envelope;
    SealVerifies(p);
    assert IsPrefix(Seal(p), Seal(p) + tail);
    LookAtEnvelope(Seal(p) + tail, Seal(p));
    assert (Seal(p) + tail)[|Seal(p)|..] == tail;
  }

  /** Whatever follows a run of sealed envelopes decides how the walk ends. */
  lemma {:induction false} PassAll(ps: seq<Buffer>, tail: Buffer)
    requires Fit(ps)
    ensures Walk(SealAll(ps) + tail) == var r := Walk(tail);
        Report(r.ok + |ps|, r.corrupt, r.bytes + |SealAll(ps)|, r.truncated)
    decreases |ps|
  {
    hide Seal, Walk;
    if ps == [] {
      assert SealAll(ps) + tail == tail;
    } else {
      PassAll(ps[1..], tail);
      PassSealed(ps[0], SealAll(ps[1..]) + tail);
      assert SealAll(ps) + tail == Seal(ps[0]) + (SealAll(ps[1..]) + tail);
    }
  }

  /** Sealed payloads followed by the arena's unwritten zeros: all of them, clean. */
  lemma SealedWalksClean(ps: seq<Buffer>, zeros: nat)
    requires Fit(ps)
    ensures Walk(SealAll(ps) + Zeros(zeros)) == Report(|ps|, 0, |SealAll(ps)|, false)
  {
    hide Seal, SealAll;
    PassAll(ps, Zeros(zeros));
    ZerosAreNoHeader(Zeros(zeros));
  }

  /**
   Cutting sealed payloads anywhere strictly inside an envelope is located at that
   envelope: inside its first ten bytes it reads as corruption, after them as
   truncation.
   */
  lemma CutLocated(ps: seq<Buffer>, p: Buffer, k: nat)
    requires Fit(ps) && |p| < U32_LIMIT && 0 < k < |Seal(p)|
    ensures Walk(SealAll(ps) + Seal(p)[..k])
         == Report(|ps|, if k < REC_HEADER_LEN then 1 else 0, |SealAll(ps)|, k >= REC_HEADER_LEN)
  {
    hide Seal, SealAll;
    var piece := Seal(p)[..k];
    PassAll(ps, piece);
    SealParts(p);
    if k < REC_HEADER_LEN {
      MagicIsNonzero(|p|);
      assert piece[0] == HeaderOf(|p|)[0];
    } else {
      assert piece[..REC_HEADER_LEN] == HeaderOf(|p|);
      HeaderReads(piece, |p|);
    }
  }

  lemma MagicIsNonzero(len: nat)
    ensures HeaderOf(len)[0] == 0x43 && HeaderOf(len)[1] == 0x45 && HeaderOf(len)[4] == 1
  {
    hide U16Bytes;
    assert U32Bytes(REC_MAGIC)[0] == 0x43;
    assert U32Bytes(REC_MAGIC)[1] == Digits(REC_MAGIC / 256, 3)[0] == 0x45;
    assert U16Bytes(REC_VERSION)[0] == 1 by { VersionBytes(); }
  }

  lemma VersionBytes()
    ensures U16Bytes(REC_VERSION) == [1, 0]
  {
  }

  // ----- damage

  /** An envelope damaged outside its length field, within what the format can see. */
  ghost predicate Damaged(p: Buffer, d: Buffer) {
    && |d| == |Seal(p)|
    && ( HeaderDamaged(p, d) || ChecksumDamaged(p, d) || PayloadDamaged(p, d) )
  }

  /** The magic or the version was changed in any way, whatever else was, and not everything is zero. */
  ghost predicate HeaderDamaged(p: Buffer, d: Buffer)
    requires |d| == |Seal(p)|
  {
    d[..6] != Seal(p)[..6] && !AllZero(d)
  }

  /** The stored checksum was changed in any way. */
  ghost predicate ChecksumDamaged(p: Buffer, d: Buffer)
    requires |d| == |Seal(p)|
  {
    && d[..REC_HEADER_LEN] == Seal(p)[..REC_HEADER_LEN] && d[REC_OVERHEAD..] == p
    && d[REC_HEADER_LEN..REC_OVERHEAD] != Seal(p)[REC_HEADER_LEN..REC_OVERHEAD]
  }

  /** The payload was changed inside one window of at most four bytes. */
  ghost predicate PayloadDamaged(p: Buffer, d: Buffer)
    requires |d| == |Seal(p)|
  {
    && d[..REC_OVERHEAD] == Seal(p)[..REC_OVERHEAD]
    && exists pre: Buffer, x: Buffer, y: Buffer, post: Buffer ::
         |x| == |y| <= 4 && x != y && p == pre + x + post && d[REC_OVERHEAD..] == pre + y + post
  }

  lemma PayloadDamageFails(p: Buffer, d: Buffer)
    requires |p| < U32_LIMIT && |d| == |Seal(p)| && PayloadDamaged(p, d)
    ensures DeclaredLen(d) == Length(|p|) && !VerifyRecord(d)
  {
    hide CrcWord, HeaderOf, U32Bytes, Seal;
    var pre, x, y, post :| |x| == |y| <= 4 && x != y && p == pre + x + post && d[REC_OVERHEAD..] == pre + y + post;
    SealParts(p);
    var h := HeaderOf(|p|);
    assert d[..REC_HEADER_LEN] == d[..REC_OVERHEAD][..REC_HEADER_LEN] == h;
    HeaderReads(d, |p|);
    assert d[REC_HEADER_LEN..REC_OVERHEAD]
        == d[..REC_OVERHEAD][REC_HEADER_LEN..] == Seal(p)[REC_HEADER_LEN..REC_OVERHEAD];
    CrcReads(d, p);
    BurstDetected(h + pre, x, y, post);
    assert h + pre + x + post == h + p && h + pre + y + post == h + (pre + y + post);
    assert d[REC_OVERHEAD..REC_OVERHEAD + |p|] == d[REC_OVERHEAD..];
  }

  lemma ChecksumDamageFails(p: Buffer, d: Buffer)
    requires |p| < U32_LIMIT && |d| == |Seal(p)| && ChecksumDamaged(p, d)
    ensures DeclaredLen(d) == Length(|p|) && !VerifyRecord(d)
  {
    hide CrcWord, HeaderOf, Seal, U32Bytes, Number;
    SealParts(p);
    var h := HeaderOf(|p|);
    assert d[..REC_HEADER_LEN] == h;
    HeaderReads(d, |p|);
    assert d[REC_OVERHEAD..REC_OVERHEAD + |p|] == d[REC_OVERHEAD..] == p;
    var stored := d[REC_HEADER_LEN..REC_OVERHEAD];
    if Number(stored) == CrcWord(h + p) {
      WordRoundTrip(CrcWord(h + p));
      NumberInjective(stored, U32Bytes(CrcWord(h + p)));
    }
  }

  lemma HeaderDamageFails(p: Buffer, d: Buffer)
    requires |p| < U32_LIMIT && |d| == |Seal(p)| && HeaderDamaged(p, d)
    ensures DeclaredLen(d) == NoHeader && !AllZero(d)
  {
    hide CrcWord, HeaderOf, Seal, Number, AllZero;
    var e := Seal(p);
    SealParts(p);
    HeaderReads(e, |p|);
    FrontIff(d, e);
  }

  /** Magic and version are equal exactly when the first six bytes are. */
  lemma FrontIff(d: Buffer, e: Buffer)
    requires |d| >= 6 && |e| >= 6
    ensures U32At(d, 0) == U32At(e, 0) && U16At(d, 4) == U16At(e, 4) <==> d[..6] == e[..6]
  {
    hide Number;
    assert d[..6] == d[0..4] + [d[4], d[5]] && e[..6] == e[0..4] + [e[4], e[5]];
    if Number(d[0..4]) == Number(e[0..4]) { NumberInjective(d[0..4], e[0..4]); }
    if d[..6] == e[..6] {
      assert d[0..4] == d[..6][..4] == e[..6][..4] == e[0..4];
      assert d[4] == d[..6][4] && d[5] == d[..6][5] && e[4] == e[..6][4] && e[5] == e[..6][5];
    }
  }

  /** Fewer bytes see the same header, the same zeros at the front. */
  lemma DeclaredInLonger(d: Buffer, tail: Buffer)
    requires |d| >= REC_OVERHEAD
    ensures DeclaredLen(d + tail) == DeclaredLen(d)
    ensures !AllZero(d) ==> !AllZero(d + tail)
  {
    hide Number;
    assert (d + tail)[..|d|] == d;
    SameLength(d + tail, |d|);
    if i :| 0 <= i < |d| && d[i] != 0 {
      assert (d + tail)[i] != 0;
    }
  }

  /**
   Damage outside a length field is located at exactly the damaged envelope, no
   matter what follows it: everything before it is reported intact, and the walk
   reports one corrupt envelope there.
   */
  lemma DamageLocated(ps: seq<Buffer>, p: Buffer, d: Buffer, tail: Buffer)
    requires Fit(ps) && |p| < U32_LIMIT && Damaged(p, d)
    ensures Walk(SealAll(ps) + (d + tail)) == Report(|ps|, 1, |SealAll(ps)|, false)
  {
    hide Seal, SealAll, DeclaredLen, VerifyRecord, AllZero, HeaderDamaged, ChecksumDamaged, PayloadDamaged;
    PassAll(ps, d + tail);
    DeclaredInLonger(d, tail);
    assert (d + tail)[..|d|] == d;
    if HeaderDamaged(p, d) {
      HeaderDamageFails(p, d);
    } else if ChecksumDamaged(p, d) {
      ChecksumDamageFails(p, d);
    } else {
      PayloadDamageFails(p, d);
    }
  }

  /** Every one-byte change outside the length field is such damage. */
  lemma OneByteIsDamage(p: Buffer, i: nat, b: byte)
    requires i < |Seal(p)| && (i < 6 || REC_HEADER_LEN <= i) && b != Seal(p)[i]
    ensures Damaged(p, Seal(p)[i := b])
  {
    hide Seal, HeaderDamaged, ChecksumDamaged, HeaderOf, CrcWord;
    var e := Seal(p);
    var d := e[i := b];
    SealParts(p);
    if i < 6 {
      OneHeaderByte(p, i, b);
    } else if i < REC_OVERHEAD {
      OneChecksumByte(p, i, b);
    } else {
      var j := i - REC_OVERHEAD;
      assert p[j] == e[REC_OVERHEAD..][j] == e[i];
      OneByteWindow(p, j, b);
      assert d[REC_OVERHEAD..] == p[..j] + [b] + p[j + 1..];
      assert d[..REC_OVERHEAD] == e[..REC_OVERHEAD];
    }
  }

  lemma OneChecksumByte(p: Buffer, i: nat, b: byte)
    requires REC_HEADER_LEN <= i < REC_OVERHEAD && b != Seal(p)[i]
    ensures ChecksumDamaged(p, Seal(p)[i := b])
  {
    hide Seal, HeaderOf, CrcWord;
    var e := Seal(p);
    var d := e[i := b];
    SealParts(p);
    assert d[REC_HEADER_LEN..REC_OVERHEAD][i - REC_HEADER_LEN] != e[REC_HEADER_LEN..REC_OVERHEAD][i - REC_HEADER_LEN];
    assert d[REC_OVERHEAD..] == e[REC_OVERHEAD..];
    assert d[..REC_HEADER_LEN] == e[..REC_HEADER_LEN];
  }

  lemma OneHeaderByte(p: Buffer, i: nat, b: byte)
    requires i < 6 && b != Seal(p)[i]
    ensures HeaderDamaged(p, Seal(p)[i := b])
  {
    hide HeaderOf, CrcWord;
    var e := Seal(p);
    var d := e[i := b];
    SealParts(p);
    MagicIsNonzero(|p|);
    assert e[0] == e[..REC_HEADER_LEN][0] && e[1] == e[..REC_HEADER_LEN][1];
    assert d[if i == 0 then 1 else 0] != 0;
    assert d[..6][i] != e[..6][i];
  }

  lemma OneByteWindow(p: Buffer, j: nat, b: byte)
    requires j < |p| && b != p[j]
    ensures p == p[..j] + [p[j]] + p[j + 1..] && [p[j]] != [b]
  {
    assert [p[j]][0] != [b][0];
  }
}
