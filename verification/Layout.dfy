/**
 The region table of a mapped arena: where the header puts the ring, the
 records, the index and the strings, how the table is read and written, and
 when a client accepts it.
 */
module Layout {
  import opened Bytes

  const RING_OFFSET: nat := 1024
  const RING_HEADER_BYTES: nat := 192
  const DELTA_SIZE: nat := 64
  const RING_SEQ_BYTES: nat := 8
  const RING_DEFAULT_CAPACITY: nat := 4096
  const RECORD_START: nat := 296136
  const ART_ROOT_OFFSET: nat := 2097152
  const STRING_ARENA_START: nat := 10485760
  const HEADER_BYTES: nat := 48
  const ARENA_MAGIC: nat := 0x5441_4B59
  const LAYOUT_VERSION: nat := 4
  const LAYOUT_VERSION_UNALIGNED_RECORDS: nat := 3
  const LAYOUT_VERSION_WITH_TABLE: nat := 3

  datatype Regions = Regions(
    arenaBytes: int,
    ringCapacity: int,
    recordStart: int,
    recordBytes: int,
    artRoot: int,
    artBytes: int,
    stringStart: int,
    stringBytes: int)
  {
    function RingEnd(): int {
      RING_OFFSET + RING_HEADER_BYTES + ringCapacity * (DELTA_SIZE + RING_SEQ_BYTES)
    }

    /** The bump word the client maps: eight bytes below the first record. */
    function RecordBump(): int { recordStart - 8 }

    function RecordEnd(): int { recordStart + recordBytes }

    function StringDataStart(): int { stringStart + 8 }

    function StringEnd(): int { stringStart + stringBytes }

    predicate Words() {
      && 0 <= arenaBytes < U32_LIMIT && 0 <= ringCapacity < U32_LIMIT
      && 0 <= recordStart < U32_LIMIT && 0 <= recordBytes < U32_LIMIT
      && 0 <= artRoot < U32_LIMIT && 0 <= artBytes < U32_LIMIT
      && 0 <= stringStart < U32_LIMIT && 0 <= stringBytes < U32_LIMIT
    }
  }

  // ----- the table in the header

  datatype ReadResult =
    | Table(regions: Regions)
    | TooSmall
    | BadMagic
    | NoTable(version: nat)
    | UnalignedRecords(version: nat)

  function ReadRegions(m: Buffer): (r: ReadResult)
    ensures r.Table? ==> r.regions.Words()
  {
    if |m| < HEADER_BYTES then TooSmall
    else if U32At(m, 0) != ARENA_MAGIC then BadMagic
    else
      var version := U32At(m, 4);
      if version <= LAYOUT_VERSION_UNALIGNED_RECORDS then
        if version < LAYOUT_VERSION_WITH_TABLE then NoTable(version) else UnalignedRecords(version)
      else
        Table(Regions(U32At(m, 8), U32At(m, 12), U32At(m, 16), U32At(m, 20),
                      U32At(m, 24), U32At(m, 28), U32At(m, 32), U32At(m, 36)))
  }

  /** What `setUint32` stores of an integer: its residue modulo 2^32. */
  function Low32(w: int): (u: nat)
    ensures u < U32_LIMIT
  {
    w % U32_LIMIT
  }

  /** The ten words of the header, in address order. */
  function HeaderWords(r: Regions): (ws: seq<nat>)
    ensures |ws| == 10
  {
    [ARENA_MAGIC, LAYOUT_VERSION, Low32(r.arenaBytes), Low32(r.ringCapacity), Low32(r.recordStart),
     Low32(r.recordBytes), Low32(r.artRoot), Low32(r.artBytes), Low32(r.stringStart), Low32(r.stringBytes)]
  }

  /** Consecutive little-endian words. */
  function WordBytes(ws: seq<nat>): (d: Buffer)
    ensures |d| == 4 * |ws|
  {
    if ws == [] then [] else WordBytes(ws[..|ws| - 1]) + U32Bytes(ws[|ws| - 1])
  }

  lemma {:induction false} WordBytesAt(ws: seq<nat>, i: nat)
    requires i < |ws|
    ensures WordBytes(ws)[4 * i..4 * i + 4] == U32Bytes(ws[i])
  {
    var front := ws[..|ws| - 1];
    if i < |front| {
      WordBytesAt(front, i);
      assert WordBytes(ws)[4 * i..4 * i + 4] == WordBytes(front)[4 * i..4 * i + 4];
    }
  }

  method SetUint32(buffer: array<byte>, at: nat, w: nat)
    requires at + 4 <= buffer.Length
    modifies buffer
    ensures buffer[..] == Put(old(buffer[..]), at, U32Bytes(w))
  {
    var d := U32Bytes(w);
    buffer[at], buffer[at + 1], buffer[at + 2], buffer[at + 3] := d[0], d[1], d[2], d[3];
  }

  method SetWords(buffer: array<byte>, words: seq<nat>)
    requires 4 * |words| <= buffer.Length
    modifies buffer
    ensures buffer[..] == Put(old(buffer[..]), 0, WordBytes(words))
  {
    ghost var was := buffer[..];
    var i := 0;
    while i < |words|
      invariant 0 <= i <= |words|
      invariant buffer[..] == Put(was, 0, WordBytes(words[..i]))
    {
      assert words[..i + 1][..i] == words[..i];
      SetUint32(buffer, 4 * i, words[i]);
      PutPut(was, WordBytes(words[..i]), U32Bytes(words[i]));
      i := i + 1;
    }
    assert words[..i] == words;
  }

  method WriteRegions(buffer: array<byte>, r: Regions) returns (written: bool)
    modifies buffer
    ensures written == (HEADER_BYTES <= buffer.Length)
    ensures buffer[..] == if written then Put(old(buffer[..]), 0, WordBytes(HeaderWords(r))) else old(buffer[..])
  {
    if buffer.Length < HEADER_BYTES {
      return false;
    }
    SetWords(buffer, HeaderWords(r));
    written := true;
  }

  lemma PutPut(m: Buffer, a: Buffer, b: Buffer)
    requires |a| + |b| <= |m|
    ensures Put(Put(m, 0, a), |a|, b) == Put(m, 0, a + b)
  {
  }

  lemma WordsReadBack(m: Buffer, words: seq<nat>, i: nat, at: nat)
    requires 4 * |words| <= |m| && i < |words| && at == 4 * i
    ensures U32At(Put(m, 0, WordBytes(words)), at) == words[i] % U32_LIMIT
  {
    hide Bytes.Number, Bytes.Digits, WordBytes, Put;
    WordBytesAt(words, i);
    PutReadPart(m, 0, WordBytes(words), at, 4);
    WordRoundTrip(words[i]);
  }

  lemma HeaderReadBack(m: Buffer, words: seq<nat>, h: Buffer)
    requires |words| == 10 && HEADER_BYTES <= |m| && h == Put(m, 0, WordBytes(words))
    requires forall i :: 0 <= i < 10 ==> words[i] < U32_LIMIT
    ensures U32At(h, 0) == words[0] && U32At(h, 4) == words[1] && U32At(h, 8) == words[2]
    ensures U32At(h, 12) == words[3] && U32At(h, 16) == words[4] && U32At(h, 20) == words[5]
    ensures U32At(h, 24) == words[6] && U32At(h, 28) == words[7] && U32At(h, 32) == words[8]
    ensures U32At(h, 36) == words[9]
  {
    forall i, at | 0 <= i < 10 && at == 4 * i
      ensures U32At(h, at) == words[i]
    {
      WordsReadBack(m, words, i, at);
    }
  }

  lemma Low32Iff(w: int)
    ensures Low32(w) == w <==> 0 <= w < U32_LIMIT
  {
  }

  /**
   A table written into a header reads back with every field truncated to 32 bits,
   so unchanged exactly when all are u32.
   */
  lemma HeaderRoundTrip(m: Buffer, r: Regions)
    requires HEADER_BYTES <= |m|
    ensures ReadRegions(Put(m, 0, WordBytes(HeaderWords(r)))) == Table(
              Regions(Low32(r.arenaBytes), Low32(r.ringCapacity), Low32(r.recordStart), Low32(r.recordBytes),
                      Low32(r.artRoot), Low32(r.artBytes), Low32(r.stringStart), Low32(r.stringBytes)))
    ensures ReadRegions(Put(m, 0, WordBytes(HeaderWords(r)))) == Table(r) <==> r.Words()
  {
    hide Low32;
    HeaderReadBack(m, HeaderWords(r), Put(m, 0, WordBytes(HeaderWords(r))));
    Low32Iff(r.arenaBytes);
    Low32Iff(r.ringCapacity);
    Low32Iff(r.recordStart);
    Low32Iff(r.recordBytes);
    Low32Iff(r.artRoot);
    Low32Iff(r.artBytes);
    Low32Iff(r.stringStart);
    Low32Iff(r.stringBytes);
  }

  // ----- acceptance

  datatype Verdict =
    | Accepted
    | NoHeader
    | WrongSize
    | BadCapacity
    | RecordsInRing
    | RecordsInIndex
    | IndexUnaligned
    | IndexInStrings
    | NoBumpWord
    | StringsPastEnd

  /** Bitwise and. */
  function BitAnd(a: nat, b: nat): nat {
    if a == 0 || b == 0 then 0
    else 2 * BitAnd(a / 2, b / 2) + (if a % 2 == 1 && b % 2 == 1 then 1 else 0)
  }

  function ValidateRegions(r: Regions, mappedBytes: int): Verdict {
    if mappedBytes < HEADER_BYTES then NoHeader
    else if r.arenaBytes != mappedBytes then WrongSize
    else if r.ringCapacity < 16 || BitAnd(r.ringCapacity, r.ringCapacity - 1) != 0 then BadCapacity
    else if r.recordStart < r.RingEnd() + 8 then RecordsInRing
    else if r.RecordEnd() > r.artRoot then RecordsInIndex
    else if r.artRoot % 8 != 0 then IndexUnaligned
    else if r.artRoot + r.artBytes > r.stringStart then IndexInStrings
    else if r.stringBytes < 8 then NoBumpWord
    else if r.StringEnd() > r.arenaBytes then StringsPastEnd
    else Accepted
  }

  predicate Valid(r: Regions) {
    r.Words() && ValidateRegions(r, r.arenaBytes) == Accepted
  }

  /** Ring, record bump word, records, index, string bump word, strings: in this order, never meeting. */
  predicate Ordered(r: Regions) {
    && RING_OFFSET < r.RingEnd() <= r.RecordBump()
    && r.recordStart <= r.RecordEnd() <= r.artRoot <= r.artRoot + r.artBytes <= r.stringStart
    && r.StringDataStart() <= r.StringEnd() <= r.arenaBytes < U32_LIMIT
  }

  /** What acceptance buys every allocator. */
  lemma ValidIsOrdered(r: Regions)
    requires Valid(r)
    ensures Ordered(r)
  {
  }

  /** A table is accepted exactly when it describes the mapping, in order, with a ring of at least 16 slots. */
  lemma AcceptedIff(r: Regions, mappedBytes: int)
    requires r.ringCapacity >= 0
    ensures ValidateRegions(r, mappedBytes) == Accepted <==>
              && r.arenaBytes == mappedBytes >= 48
              && 16 <= r.ringCapacity && IsPowerOfTwo(r.ringCapacity)
              && 1024 + 192 + 72 * r.ringCapacity + 8 <= r.recordStart
              && r.recordStart + r.recordBytes <= r.artRoot && r.artRoot % 8 == 0
              && r.artRoot + r.artBytes <= r.stringStart
              && 8 <= r.stringBytes && r.stringStart + r.stringBytes <= r.arenaBytes
  {
    if r.ringCapacity > 0 { BitTrick(r.ringCapacity); }
  }

  /**
   A header is a table exactly when it is whole and carries the magic and a version
   past 3; its fields follow at bytes 8 to 39. Version 3 is told from older ones.
   */
  lemma TableIff(m: Buffer)
    ensures ReadRegions(m) == TooSmall <==> |m| < 48
    ensures ReadRegions(m) == BadMagic <==> |m| >= 48 && U32At(m, 0) != 0x5441_4B59
    ensures |m| >= 48 && U32At(m, 0) == 0x5441_4B59 ==>
              var version := U32At(m, 4);
              && (version < 3 <==> ReadRegions(m) == NoTable(version))
              && (version == 3 <==> ReadRegions(m) == UnalignedRecords(version))
              && (version > 3 <==> ReadRegions(m).Table?)
    ensures ReadRegions(m).Table? ==>
              var r := ReadRegions(m).regions;
              && U32At(m, 8) == r.arenaBytes && U32At(m, 12) == r.ringCapacity
              && U32At(m, 16) == r.recordStart && U32At(m, 20) == r.recordBytes
              && U32At(m, 24) == r.artRoot && U32At(m, 28) == r.artBytes
              && U32At(m, 32) == r.stringStart && U32At(m, 36) == r.stringBytes
  {
    hide U32At;
  }

  /** The capacity test accepts exactly the powers of two. */
  lemma {:induction false} BitTrick(n: nat)
    requires n > 0
    ensures BitAnd(n, n - 1) == 0 <==> IsPowerOfTwo(n)
  {
    if n % 2 == 0 {
      assert (n - 1) / 2 == n / 2 - 1;
      BitTrick(n / 2);
    } else if n > 1 {
      assert (n - 1) / 2 == n / 2;
      BitAndSelf(n / 2);
    }
  }

  lemma {:induction false} BitAndSelf(n: nat)
    ensures BitAnd(n, n) == n
  {
    if n > 0 { BitAndSelf(n / 2); }
  }

  predicate IsPowerOfTwo(n: nat) {
    n == 1 || (n > 1 && n % 2 == 0 && IsPowerOfTwo(n / 2))
  }

  function DefaultRegions(arenaBytes: int): Regions {
    Regions(arenaBytes, RING_DEFAULT_CAPACITY, RECORD_START, ART_ROOT_OFFSET - RECORD_START,
            ART_ROOT_OFFSET, STRING_ARENA_START - ART_ROOT_OFFSET,
            STRING_ARENA_START, arenaBytes - STRING_ARENA_START)
  }

  lemma DefaultIsPowerOfTwo()
    ensures IsPowerOfTwo(RING_DEFAULT_CAPACITY)
  {
    assert IsPowerOfTwo(64);
  }

  /**
   The default table leaves no gaps: records behind the ring and their bump word,
   index from 2 MiB, strings from 10 MiB to the end. It is accepted exactly when
   eight string bytes fit.
   */
  lemma DefaultAcceptedIff(arenaBytes: nat)
    ensures var r := DefaultRegions(arenaBytes);
            && r.ringCapacity == 4096 && r.recordStart == r.RingEnd() + 8
            && r.RecordEnd() == r.artRoot == 0x20_0000 && r.artRoot + r.artBytes == r.stringStart == 0xA0_0000
            && r.StringEnd() == r.arenaBytes == arenaBytes
    ensures ValidateRegions(DefaultRegions(arenaBytes), arenaBytes) == Accepted <==> 0xA0_0008 <= arenaBytes
  {
    BitTrick(RING_DEFAULT_CAPACITY);
    DefaultIsPowerOfTwo();
  }
}
