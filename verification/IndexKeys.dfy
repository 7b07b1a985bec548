/**
 Order-preserving index keys: fixed-width hex for numbers, separator-terminated
 text for everything else, and range lookups that return exactly the entries
 whose values lie in the range, in value then primary-key order.
 */
module IndexKeys {
  import opened Bytes
  import opened Options
  import opened Utf8

  // ----- fixed-width hex

  function HexDigit(d: nat): Scalar
    requires d < 16
  {
    if d < 10 then 0x30 + d else 0x61 + (d - 10)
  }

  /** `n.toString(16)` */
  function ToHex(n: nat): (t: Text)
    ensures t != []
  {
    if n < 16 then [HexDigit(n)] else ToHex(n / 16) + [HexDigit(n % 16)]
  }

  /** `t.padStart(width, '0')` */
  function PadStart(t: Text, width: nat): Text
    decreases if |t| < width then width - |t| else 0
  {
    if |t| < width then PadStart([0x30] + t, width) else t
  }

  /** The low `k` hex digits of a number, most significant first. */
  function Fixed(n: nat, k: nat): (t: Text)
    ensures |t| == k
    decreases k
  {
    if k == 0 then [] else Fixed(n / 16, k - 1) + [HexDigit(n % 16)]
  }

  function Pow16(k: nat): (p: nat)
    ensures p > 0
  {
    if k == 0 then 1 else 16 * Pow16(k - 1)
  }

  lemma {:induction false} FixedOfZero(k: nat, t: Text)
    requires t != []
    ensures PadStart(t, k + |t|) == Fixed(0, k) + t
    decreases k
  {
    if k == 0 {
      assert Fixed(0, 0) + t == t;
    } else {
      FixedOfZero(k - 1, [0x30] + t);
      assert Fixed(0, k) == Fixed(0, k - 1) + [0x30];
      assert Fixed(0, k - 1) + ([0x30] + t) == Fixed(0, k) + t;
    }
  }

  lemma {:induction false} HexIsFixed(n: nat, k: nat)
    requires n < Pow16(k)
    ensures |ToHex(n)| <= k || k == 0
    ensures k > 0 ==> Fixed(n, k) == Fixed(0, k - |ToHex(n)|) + ToHex(n)
    decreases k
  {
    if k > 0 {
      if n < 16 {
        assert n / 16 == 0;
        assert Fixed(n, k) == Fixed(0, k - 1) + [HexDigit(n)];
      } else {
        assert n / 16 < Pow16(k - 1);
        HexIsFixed(n / 16, k - 1);
        var h := ToHex(n / 16);
        assert Fixed(0, k - 1 - |h|) + h + [HexDigit(n % 16)] == Fixed(0, k - 1 - |h|) + (h + [HexDigit(n % 16)]);
      }
    }
  }

  /** Padding the shortest hex rendering gives the fixed-width digits. */
  lemma PaddedIsFixed(n: nat, k: nat)
    requires n < Pow16(k) && k > 0
    ensures PadStart(ToHex(n), k) == Fixed(n, k)
  {
    HexIsFixed(n, k);
    FixedOfZero(k - |ToHex(n)|, ToHex(n));
  }

  lemma {:induction false} LessAppend(a: seq<int>, b: seq<int>, x: seq<int>, y: seq<int>)
    requires |a| == |b| && Less(a, b)
    ensures Less(a + x, b + y)
  {
    assert (a + x)[0] == a[0] && (b + y)[0] == b[0];
    if a[0] == b[0] {
      LessAppend(a[1..], b[1..], x, y);
      assert (a + x)[1..] == a[1..] + x && (b + y)[1..] == b[1..] + y;
    }
  }

  lemma {:induction false} FixedMonotone(m: nat, n: nat, k: nat)
    requires m < n < Pow16(k)
    ensures Less(Fixed(m, k), Fixed(n, k))
    decreases k
  {
    var p, q := Fixed(m / 16, k - 1), Fixed(n / 16, k - 1);
    if m / 16 == n / 16 {
      LessAfterCommonPrefix(p, [HexDigit(m % 16)], [HexDigit(n % 16)]);
    } else {
      FixedMonotone(m / 16, n / 16, k - 1);
      LessAppend(p, q, [HexDigit(m % 16)], [HexDigit(n % 16)]);
    }
  }

  /** Fixed-width digits compare exactly as the numbers do. */
  lemma FixedOrder(m: nat, n: nat, k: nat)
    requires m < Pow16(k) && n < Pow16(k)
    ensures Less(Fixed(m, k), Fixed(n, k)) <==> m < n
    ensures Fixed(m, k) == Fixed(n, k) <==> m == n
  {
    LessIsTotal(Fixed(m, k), Fixed(n, k));
    if m < n { FixedMonotone(m, n, k); }
    if n < m { FixedMonotone(n, m, k); }
  }

  /** None where the source throws. */
  function PadU32Hex(value: int): Option<Text> {
    if value < 0 || value > 0xFFFF_FFFF then None else Some(PadStart(ToHex(value), 8))
  }

  const MAX_SAFE_INTEGER: int := 0x1F_FFFF_FFFF_FFFF
  const SIGN_BIT: int := 0x8000_0000_0000_0000
  const TWO_64: int := 0x1_0000_0000_0000_0000

  /** `BigInt(v) ^ 2n**63n` on two's complement of unbounded width: bit 63 flips. */
  function FlipSign(v: int): int {
    if v / SIGN_BIT % 2 == 1 then v - SIGN_BIT else v + SIGN_BIT
  }

  function PadI64Hex16(value: int): Option<Text> {
    if value < -MAX_SAFE_INTEGER || value > MAX_SAFE_INTEGER then None
    else Some(PadStart(ToHex(FlipSign(value) % TWO_64), 16))
  }

  lemma Pow16Values()
    ensures Pow16(8) == U32_LIMIT && Pow16(16) == TWO_64
  {
    assert Pow16(4) == 0x1_0000;
    assert Pow16(8) == 16 * 16 * 16 * 16 * Pow16(4);
    assert Pow16(12) == 16 * 16 * 16 * 16 * Pow16(8);
    assert Pow16(16) == 16 * 16 * 16 * 16 * Pow16(12);
  }

  /** Unsigned padding: defined on exactly the u32 range, eight digits, order and identity preserved. */
  lemma U32HexOrder(a: int, b: int)
    requires PadU32Hex(a).Some? && PadU32Hex(b).Some?
    ensures |PadU32Hex(a).value| == 8
    ensures Less(PadU32Hex(a).value, PadU32Hex(b).value) <==> a < b
    ensures PadU32Hex(a) == PadU32Hex(b) <==> a == b
  {
    Pow16Values();
    PaddedIsFixed(a, 8);
    PaddedIsFixed(b, 8);
    FixedOrder(a, b, 8);
  }

  lemma FlipSignIsBias(v: int)
    requires -MAX_SAFE_INTEGER <= v <= MAX_SAFE_INTEGER
    ensures FlipSign(v) % TWO_64 == v + SIGN_BIT
  {
    if v < 0 {
      assert v / SIGN_BIT == -1;
      assert (v - SIGN_BIT) + TWO_64 == v + SIGN_BIT;
    } else {
      assert v / SIGN_BIT == 0;
    }
  }

  /** Signed padding: sixteen digits, negatives before non-negatives, order and identity preserved. */
  lemma I64HexOrder(a: int, b: int)
    requires PadI64Hex16(a).Some? && PadI64Hex16(b).Some?
    ensures |PadI64Hex16(a).value| == 16
    ensures Less(PadI64Hex16(a).value, PadI64Hex16(b).value) <==> a < b
    ensures PadI64Hex16(a) == PadI64Hex16(b) <==> a == b
  {
    hide FlipSign;
    Pow16Values();
    FlipSignIsBias(a);
    FlipSignIsBias(b);
    PaddedIsFixed(a + SIGN_BIT, 16);
    PaddedIsFixed(b + SIGN_BIT, 16);
    FixedOrder(a + SIGN_BIT, b + SIGN_BIT, 16);
  }

  // ----- entry keys

  const SEP: Scalar := 0x1F
  const SENTINEL: Scalar := 0xFFFF
  const COLON: Scalar := 0x3A
  const IDX: Text := Ascii("idx:")

  function IndexPrefix(table: Text, column: Text): Text {
    IDX + table + [COLON] + column + [COLON]
  }

  function Suffix(value: Text, pk: Text): Text {
    value + [SEP] + pk
  }

  function EntryKey(p: Text, value: Text, pk: Text): Buffer {
    Encode(p + Suffix(value, pk))
  }

  /** Values whose order separator-terminated keys keep: every character above the separator. */
  predicate Plain(v: Text) {
    forall i :: 0 <= i < |v| ==> v[i] > SEP
  }

  /** Separator-terminated keys compare by value, then by primary key. */
  lemma {:induction false} SuffixOrder(v: Text, x: Text, w: Text, y: Text)
    requires Plain(v) && Plain(w)
    ensures Less(Suffix(v, x), Suffix(w, y)) <==> Less(v, w) || (v == w && Less(x, y))
  {
    var a, b := Suffix(v, x), Suffix(w, y);
    if v == [] || w == [] {
      assert a[0] == if v == [] then SEP else v[0];
      assert b[0] == if w == [] then SEP else w[0];
      if v == [] && w == [] {
        assert a[1..] == x && b[1..] == y;
      }
    } else {
      SuffixOrder(v[1..], x, w[1..], y);
      assert a[0] == v[0] && b[0] == w[0];
      assert a[1..] == Suffix(v[1..], x) && b[1..] == Suffix(w[1..], y);
      if v[0] == w[0] && v[1..] == w[1..] {
        assert v == [v[0]] + v[1..] && w == [w[0]] + w[1..];
      }
    }
  }

  /** With a character at or below the separator the order is lost: "a" < "a\u0001", but not as keys. */
  lemma UnprintableValuesMisorder()
    ensures Less([0x61], [0x61, 0x01]) && Less(Suffix([0x61, 0x01], []), Suffix([0x61], []))
  {
    assert [0x61][1..] == [] && [0x61, 0x01][1..] == [0x01];
    assert Suffix([0x61, 0x01], [])[1..] == [0x01, SEP] && Suffix([0x61], [])[1..] == [SEP];
  }

  lemma {:induction false} LessUnlessPrefix(v: Text, w: Text, x: Text, y: Text)
    requires Less(v, w) && !StartsWith(w, v)
    ensures Less(v + x, w + y)
  {
    NothingStarts(w);
    assert (v + x)[0] == v[0] && (w + y)[0] == w[0];
    if v[0] == w[0] {
      StartsAfterCommon([v[0]], w[1..], v[1..]);
      assert [v[0]] + v[1..] == v && [v[0]] + w[1..] == w;
      LessUnlessPrefix(v[1..], w[1..], x, y);
      assert (v + x)[1..] == v[1..] + x && (w + y)[1..] == w[1..] + y;
    }
  }

  /** A value before its own continuation `v + r`: the continuation's first character decides against the separator. */
  lemma ContinuationOrder(v: Text, r: Text, x: Text, y: Text)
    requires r != []
    ensures r[0] > SEP ==> Less(Suffix(v, x), Suffix(v + r, y))
    ensures r[0] < SEP ==> !Less(Suffix(v, x), Suffix(v + r, y))
    ensures r[0] == SEP && x == r[1..] + [SEP] + y ==> !Less(Suffix(v, x), Suffix(v + r, y))
  {
    var a, b := [SEP] + x, r + [SEP] + y;
    assert Suffix(v, x) == v + a && Suffix(v + r, y) == v + b;
    LessAfterCommonPrefix(v, a, b);
    assert a[0] == SEP && b[0] == r[0];
    if r[0] == SEP && x == r[1..] + [SEP] + y {
      assert a == b;
      LessIsTotal(a, b);
    }
  }

  /** Exactly which pairs of values keep their order under every pair of primary keys. */
  lemma OrderKeptIff(v: Text, w: Text)
    requires Less(v, w)
    ensures (forall x, y :: Less(Suffix(v, x), Suffix(w, y))) <==> (StartsWith(w, v) ==> |v| < |w| && w[|v|] > SEP)
  {
    hide Less, Suffix, StartsWith;
    if StartsWith(w, v) {
      var r := RestOf(v, w);
      ContinuationOrder(v, r, r[1..] + [SEP] + [], []);
      forall x, y
        ensures r[0] > SEP ==> Less(Suffix(v, x), Suffix(w, y))
        ensures r[0] < SEP ==> !Less(Suffix(v, x), Suffix(w, y))
      {
        ContinuationOrder(v, r, x, y);
      }
    } else {
      forall x, y
        ensures Less(Suffix(v, x), Suffix(w, y))
      {
        LessUnlessPrefix(v, w, [SEP] + x, [SEP] + y);
        SuffixParts(v, x);
        SuffixParts(w, y);
      }
    }
  }

  lemma SuffixParts(v: Text, x: Text)
    ensures Suffix(v, x) == v + ([SEP] + x)
  {
  }

  lemma RestOf(v: Text, w: Text) returns (r: Text)
    requires Less(v, w) && StartsWith(w, v)
    ensures r != [] && w == v + r
  {
    LessIsTotal(v, w);
    r := w[|v|..];
    assert w == w[..|v|] + r && v + [] == v;
  }

  lemma KeyOrder(p: Text, v: Text, x: Text, w: Text, y: Text)
    requires Plain(v) && Plain(w)
    ensures Less(EntryKey(p, v, x), EntryKey(p, w, y)) <==> Less(v, w) || (v == w && Less(x, y))
  {
    EncodePreservesOrder(p + Suffix(v, x), p + Suffix(w, y));
    LessAfterCommonPrefix(p, Suffix(v, x), Suffix(w, y));
    SuffixOrder(v, x, w, y);
  }

  lemma KeyInjective(p: Text, v: Text, x: Text, w: Text, y: Text)
    requires Plain(v) && Plain(w) && EntryKey(p, v, x) == EntryKey(p, w, y)
    ensures v == w && x == y
  {
    EncodeInjective(p + Suffix(v, x), p + Suffix(w, y));
    assert (p + Suffix(v, x))[|p|..] == Suffix(v, x) && (p + Suffix(w, y))[|p|..] == Suffix(w, y);
    SuffixOrder(v, x, w, y);
    SuffixOrder(w, y, v, x);
    LessIsTotal(Suffix(v, x), Suffix(w, y));
    LessIsTotal(v, w);
    LessIsTotal(x, y);
  }

  // ----- the engine's ordered index

  datatype IndexEntry = IndexEntry(key: Buffer, offset: nat)

  /** The index as the engine lists it: ascending in key bytes. */
  type Index = seq<IndexEntry>

  ghost predicate Sorted(idx: Index) {
    forall i, j :: 0 <= i < j < |idx| ==> Less(idx[i].key, idx[j].key)
  }

  function Bind(idx: Index, key: Buffer, offset: nat): Index {
    if idx == [] then [IndexEntry(key, offset)]
    else if key == idx[0].key then [IndexEntry(key, offset)] + idx[1..]
    else if Less(key, idx[0].key) then [IndexEntry(key, offset)] + idx
    else [idx[0]] + Bind(idx[1..], key, offset)
  }

  function Unbind(idx: Index, key: Buffer): Index {
    if idx == [] then []
    else if key == idx[0].key then idx[1..]
    else [idx[0]] + Unbind(idx[1..], key)
  }

  predicate Present(idx: Index, key: Buffer) {
    exists i :: 0 <= i < |idx| && idx[i].key == key
  }

  predicate StartsWith(s: seq<int>, p: seq<int>) {
    |p| <= |s| && s[..|p|] == p
  }

  /** Empty bounds are unbounded; both bounds are inclusive. */
  predicate InScan(key: Buffer, p: Buffer, lo: Buffer, hi: Buffer) {
    StartsWith(key, p)
    && (lo == [] || !Less(key[|p|..], lo))
    && (hi == [] || !Less(hi, key[|p|..]))
  }

  function Scan(idx: Index, p: Buffer, lo: Buffer, hi: Buffer): Index {
    if idx == [] then []
    else (if InScan(idx[0].key, p, lo, hi) then [idx[0]] else []) + Scan(idx[1..], p, lo, hi)
  }

  function Offsets(idx: Index): (os: seq<nat>)
    ensures |os| == |idx| && forall i :: 0 <= i < |idx| ==> os[i] == idx[i].offset
  {
    seq(|idx|, i requires 0 <= i < |idx| => idx[i].offset)
  }

  function Capped(idx: Index, max: nat): seq<nat> {
    Offsets(if |idx| <= max then idx else idx[..max])
  }

  lemma {:induction false} BindKeepsOrder(idx: Index, key: Buffer, offset: nat)
    requires Sorted(idx)
    ensures Sorted(Bind(idx, key, offset))
    ensures forall e :: e in Bind(idx, key, offset) <==> e == IndexEntry(key, offset) || (e in idx && e.key != key)
  {
    hide Less;
    if idx != [] {
      var head := idx[0];
      assert idx == [head] + idx[1..];
      forall e | e in idx[1..]
        ensures Less(head.key, e.key) && e.key != head.key
      {
        var j :| 0 <= j < |idx[1..]| && idx[1..][j] == e;
        assert idx[j + 1] == e && Less(idx[0].key, idx[j + 1].key);
        LessIsTotal(head.key, e.key);
      }
      if key == head.key {
      } else if Less(key, head.key) {
        forall e | e in idx
          ensures Less(key, e.key) && e.key != key
        {
          if e != head { LessIsTransitive(key, head.key, e.key); }
          LessIsTotal(key, e.key);
        }
      } else {
        LessIsTotal(key, head.key);
        BindKeepsOrder(idx[1..], key, offset);
        PrependSorted(head, Bind(idx[1..], key, offset));
      }
    }
  }

  lemma PrependSorted(head: IndexEntry, rest: Index)
    requires Sorted(rest) && forall e :: e in rest ==> Less(head.key, e.key)
    ensures Sorted([head] + rest)
  {
    hide Less;
  }

  lemma {:induction false} UnbindKeepsOrder(idx: Index, key: Buffer)
    requires Sorted(idx)
    ensures Sorted(Unbind(idx, key))
    ensures forall e :: e in Unbind(idx, key) <==> e in idx && e.key != key
  {
    hide Less;
    if idx != [] {
      var head := idx[0];
      assert idx == [head] + idx[1..];
      forall e | e in idx[1..]
        ensures Less(head.key, e.key) && e.key != head.key
      {
        var j :| 0 <= j < |idx[1..]| && idx[1..][j] == e;
        assert idx[j + 1] == e && Less(idx[0].key, idx[j + 1].key);
        LessIsTotal(head.key, e.key);
      }
      if key != head.key {
        UnbindKeepsOrder(idx[1..], key);
        PrependSorted(head, Unbind(idx[1..], key));
      }
    }
  }

  lemma {:induction false} ScanIsFilter(idx: Index, p: Buffer, lo: Buffer, hi: Buffer)
    requires Sorted(idx)
    ensures Sorted(Scan(idx, p, lo, hi))
    ensures forall e :: e in Scan(idx, p, lo, hi) <==> e in idx && InScan(e.key, p, lo, hi)
  {
    hide Less, InScan;
    if idx != [] {
      var head := idx[0];
      assert idx == [head] + idx[1..];
      ScanIsFilter(idx[1..], p, lo, hi);
      forall e | e in idx[1..]
        ensures Less(head.key, e.key)
      {
        var j :| 0 <= j < |idx[1..]| && idx[1..][j] == e;
        assert idx[j + 1] == e && Less(idx[0].key, idx[j + 1].key);
      }
      PrependSorted(head, Scan(idx[1..], p, lo, hi));
    }
  }

  // ----- a secondary index over the engine's

  type Content = map<(Text, Text), nat>

  /** The engine's entries under prefix `p` are exactly the mapping (value, pk) -> offset. */
  ghost predicate Represents(idx: Index, p: Text, content: Content) {
    && Sorted(idx)
    && (forall vk :: vk in content ==> Plain(vk.0) && IndexEntry(EntryKey(p, vk.0, vk.1), content[vk]) in idx)
    && (forall e :: e in idx && StartsWith(e.key, Encode(p))
          ==> exists vk :: vk in content && e == IndexEntry(EntryKey(p, vk.0, vk.1), content[vk]))
  }

  lemma KeyHasPrefix(p: Text, v: Text, x: Text)
    ensures StartsWith(EntryKey(p, v, x), Encode(p))
    ensures EntryKey(p, v, x)[|Encode(p)|..] == Encode(Suffix(v, x))
  {
    EncodeConcat(p, Suffix(v, x));
  }

  /** Adding a mapping. */
  lemma BindRepresents(idx: Index, p: Text, content: Content, v: Text, pk: Text, offset: nat)
    requires Represents(idx, p, content) && Plain(v)
    ensures Represents(Bind(idx, EntryKey(p, v, pk), offset), p, content[(v, pk) := offset])
  {
    hide EntryKey, Less;
    var key := EntryKey(p, v, pk);
    var idx', content' := Bind(idx, key, offset), content[(v, pk) := offset];
    BindKeepsOrder(idx, key, offset);
    forall vk | vk in content'
      ensures Plain(vk.0) && IndexEntry(EntryKey(p, vk.0, vk.1), content'[vk]) in idx'
    {
      if vk != (v, pk) && EntryKey(p, vk.0, vk.1) == key { KeyInjective(p, vk.0, vk.1, v, pk); }
    }
    forall e | e in idx' && StartsWith(e.key, Encode(p))
      ensures exists vk :: vk in content' && e == IndexEntry(EntryKey(p, vk.0, vk.1), content'[vk])
    {
      if e.key == key {
        assert (v, pk) in content';
      } else {
        var vk :| vk in content && e == IndexEntry(EntryKey(p, vk.0, vk.1), content[vk]);
        assert vk in content' && content'[vk] == content[vk];
      }
    }
  }

  /** Removing a mapping. */
  lemma UnbindRepresents(idx: Index, p: Text, content: Content, v: Text, pk: Text)
    requires Represents(idx, p, content) && Plain(v)
    ensures Represents(Unbind(idx, EntryKey(p, v, pk)), p, content - {(v, pk)})
    ensures Present(idx, EntryKey(p, v, pk)) <==> (v, pk) in content
  {
    hide EntryKey, Less;
    var key := EntryKey(p, v, pk);
    var idx', content' := Unbind(idx, key), content - {(v, pk)};
    UnbindKeepsOrder(idx, key);
    forall vk | vk in content'
      ensures IndexEntry(EntryKey(p, vk.0, vk.1), content'[vk]) in idx'
    {
      if EntryKey(p, vk.0, vk.1) == key { KeyInjective(p, vk.0, vk.1, v, pk); }
    }
    forall e | e in idx' && StartsWith(e.key, Encode(p))
      ensures exists vk :: vk in content' && e == IndexEntry(EntryKey(p, vk.0, vk.1), content'[vk])
    {
      var vk :| vk in content && e == IndexEntry(EntryKey(p, vk.0, vk.1), content[vk]);
      assert vk in content' && content'[vk] == content[vk];
    }
    if Present(idx, key) {
      var i :| 0 <= i < |idx| && idx[i].key == key;
      assert idx[i] in idx;
      KeyHasPrefix(p, v, pk);
      var vk :| vk in content && idx[i] == IndexEntry(EntryKey(p, vk.0, vk.1), content[vk]);
      KeyInjective(p, vk.0, vk.1, v, pk);
    }
    if (v, pk) in content {
      var i :| 0 <= i < |idx| && idx[i] == IndexEntry(key, content[(v, pk)]);
    }
  }

  // ----- lookups

  function LowBound(lo: Text): Buffer {
    if lo == [] then [] else Encode(lo + [SEP])
  }

  function HighBound(hi: Text): Buffer {
    if hi == [] then [] else Encode(hi + [SEP, SENTINEL])
  }

  function RangeScan(idx: Index, p: Text, lo: Text, hi: Text): Index {
    Scan(idx, Encode(p), LowBound(lo), HighBound(hi))
  }

  /** Primary keys the upper sentinel admits. */
  predicate BelowSentinel(pk: Text) {
    pk == [] || pk[0] < SENTINEL || pk == [SENTINEL]
  }

  predicate InRange(v: Text, pk: Text, lo: Text, hi: Text) {
    (lo == [] || !Less(v, lo)) && (hi == [] || Less(v, hi) || (v == hi && BelowSentinel(pk)))
  }

  lemma HighOrder(v: Text, pk: Text, hi: Text)
    requires Plain(v) && Plain(hi)
    ensures !Less(Encode(hi + [SEP, SENTINEL]), Encode(Suffix(v, pk))) <==>
              Less(v, hi) || (v == hi && BelowSentinel(pk))
  {
    assert hi + [SEP, SENTINEL] == Suffix(hi, [SENTINEL]);
    EncodePreservesOrder(Suffix(hi, [SENTINEL]), Suffix(v, pk));
    SuffixOrder(hi, [SENTINEL], v, pk);
    LessIsTotal(v, hi);
    SentinelOrder(pk);
  }

  lemma SentinelOrder(pk: Text)
    ensures Less([SENTINEL], pk) <==> !BelowSentinel(pk)
  {
    assert [SENTINEL][1..] == [];
    if pk != [] && pk[0] == SENTINEL {
      if pk[1..] == [] {
        assert pk == [SENTINEL];
      }
    }
  }

  lemma LowOrder(v: Text, pk: Text, lo: Text)
    requires Plain(v) && Plain(lo)
    ensures !Less(Encode(Suffix(v, pk)), Encode(lo + [SEP])) <==> !Less(v, lo)
  {
    assert lo + [SEP] == Suffix(lo, []);
    EncodePreservesOrder(Suffix(v, pk), Suffix(lo, []));
    SuffixOrder(v, pk, lo, []);
  }

  lemma EncodeNonEmpty(t: Text)
    ensures Encode(t) == [] <==> t == []
  {
  }

  /** The scan admits an entry exactly when its value is in range. */
  lemma ScanAdmits(p: Text, v: Text, pk: Text, lo: Text, hi: Text)
    requires Plain(v) && Plain(lo) && Plain(hi)
    ensures InScan(EntryKey(p, v, pk), Encode(p), LowBound(lo), HighBound(hi)) <==> InRange(v, pk, lo, hi)
  {
    hide EntryKey, Less, Encode, BelowSentinel;
    KeyHasPrefix(p, v, pk);
    LowOrder(v, pk, lo);
    HighOrder(v, pk, hi);
    EncodeNonEmpty(lo + [SEP]);
    EncodeNonEmpty(hi + [SEP, SENTINEL]);
  }

  /** Strictly ascending in value, then in primary key. */
  ghost predicate Ascending(items: seq<(Text, Text)>) {
    forall i, j :: 0 <= i < j < |items| ==>
        Less(items[i].0, items[j].0) || (items[i].0 == items[j].0 && Less(items[i].1, items[j].1))
  }

  /** `items` lists the mapping's pairs that satisfy `P`, in order, and nothing else. */
  ghost predicate Lists(items: seq<(Text, Text)>, content: Content, P: (Text, Text) -> bool) {
    && Ascending(items)
    && (forall i :: 0 <= i < |items| ==> items[i] in content && P(items[i].0, items[i].1))
    && (forall vk :: vk in content && P(vk.0, vk.1) ==> vk in items)
  }

  function OffsetsOf(items: seq<(Text, Text)>, content: Content): (os: seq<nat>)
    requires forall i :: 0 <= i < |items| ==> items[i] in content
  {
    seq(|items|, i requires 0 <= i < |items| => content[items[i]])
  }

  /** An index entry for a pair of the mapping. */
  predicate Names(e: IndexEntry, p: Text, vk: (Text, Text), content: Content) {
    vk in content && Plain(vk.0) && e == IndexEntry(EntryKey(p, vk.0, vk.1), content[vk])
  }

  /** Any ascending listing of entries under the prefix names pairs of the mapping, in order. */
  lemma {:induction false} ItemsOf(idx: Index, p: Text, content: Content, found: Index)
    returns (items: seq<(Text, Text)>)
    requires Represents(idx, p, content) && Sorted(found)
    requires forall e :: e in found ==> e in idx && StartsWith(e.key, Encode(p))
    ensures |items| == |found|
    ensures forall i :: 0 <= i < |items| ==>
        items[i] in content && found[i] == IndexEntry(EntryKey(p, items[i].0, items[i].1), content[items[i]])
    decreases |found|
  {
    hide EntryKey, Less, Plain;
    items := [];
    if found != [] {
      var front, last := found[..|found| - 1], found[|found| - 1];
      var before := ItemsOf(idx, p, content, front);
      assert last in found;
      var vk :| vk in content && last == IndexEntry(EntryKey(p, vk.0, vk.1), content[vk]);
      items := before + [vk];
      forall i | 0 <= i < |items|
        ensures items[i] in content && found[i] == IndexEntry(EntryKey(p, items[i].0, items[i].1), content[items[i]])
      {
        if i < |front| { assert found[i] == front[i] && items[i] == before[i]; }
      }
    }
  }

  lemma ItemsAscend(p: Text, content: Content, found: Index, items: seq<(Text, Text)>)
    requires Sorted(found) && |items| == |found|
    requires forall i :: 0 <= i < |items| ==> Names(found[i], p, items[i], content)
    ensures Ascending(items)
  {
    hide EntryKey, Less, Plain;
    forall i, j | 0 <= i < j < |items|
      ensures Less(items[i].0, items[j].0) || (items[i].0 == items[j].0 && Less(items[i].1, items[j].1))
    {
      assert Less(found[i].key, found[j].key);
      KeyOrder(p, items[i].0, items[i].1, items[j].0, items[j].1);
    }
  }

  /**
   Range lookups are exact: before the result cap, a lookup lists precisely the
   pairs with lo <= value <= hi (an empty bound is open), in value then primary-key
   order; at the top value it lists those whose key the sentinel admits.
   */
  lemma RangeIsExact(idx: Index, p: Text, content: Content, lo: Text, hi: Text, max: nat)
    returns (items: seq<(Text, Text)>)
    requires Represents(idx, p, content) && Plain(lo) && Plain(hi)
    ensures Lists(items, content, (v, pk) => InRange(v, pk, lo, hi))
    ensures Capped(RangeScan(idx, p, lo, hi), max) == OffsetsOf(if |items| <= max then items else items[..max], content)
  {
    hide EntryKey, Less, Plain, InRange, InScan, LowBound, HighBound, Scan, Encode, StartsWith, Ascending;
    var found := RangeScan(idx, p, lo, hi);
    ScanIsFilter(idx, Encode(p), LowBound(lo), HighBound(hi));
    forall e | e in found
      ensures e in idx && StartsWith(e.key, Encode(p))
    {
      InScanStarts(e.key, Encode(p), LowBound(lo), HighBound(hi));
    }
    items := ItemsOf(idx, p, content, found);
    ItemsAscend(p, content, found, items);
    forall i | 0 <= i < |items|
      ensures InRange(items[i].0, items[i].1, lo, hi)
    {
      assert found[i] in found;
      ScanAdmits(p, items[i].0, items[i].1, lo, hi);
    }
    forall vk | vk in content && InRange(vk.0, vk.1, lo, hi)
      ensures vk in items
    {
      ScanAdmits(p, vk.0, vk.1, lo, hi);
      ListedItem(p, content, found, items, vk);
    }
  }

  lemma InScanStarts(key: Buffer, p: Buffer, lo: Buffer, hi: Buffer)
    requires InScan(key, p, lo, hi)
    ensures StartsWith(key, p)
  {
  }

  lemma ListedItem(p: Text, content: Content, found: Index, items: seq<(Text, Text)>, vk: (Text, Text))
    requires |items| == |found| && vk in content && Plain(vk.0)
    requires IndexEntry(EntryKey(p, vk.0, vk.1), content[vk]) in found
    requires forall i :: 0 <= i < |items| ==> Names(found[i], p, items[i], content)
    ensures vk in items
  {
    hide EntryKey, Plain;
    var i :| 0 <= i < |found| && found[i] == IndexEntry(EntryKey(p, vk.0, vk.1), content[vk]);
    KeyInjective(p, items[i].0, items[i].1, vk.0, vk.1);
    assert items[i] == vk;
  }

  lemma StartsAfterCommon(one: seq<int>, s: seq<int>, p: seq<int>)
    ensures StartsWith(one + s, one + p) <==> StartsWith(s, p)
  {
    if |p| <= |s| {
      assert (one + s)[..|one + p|] == one + s[..|p|];
      assert (one + s)[..|one + p|][|one|..] == s[..|p|] && (one + p)[|one|..] == p;
    }
  }

  lemma DiffersAt(s: seq<int>, p: seq<int>, k: nat)
    requires k < |s| && k < |p| && s[k] != p[k]
    ensures !StartsWith(s, p)
  {
    if |p| <= |s| { assert s[..|p|][k] == s[k]; }
  }

  /** A key's UTF-8 starts with a text's UTF-8 exactly when the texts do. */
  lemma {:induction false} EncodePrefix(a: Text, b: Text)
    ensures StartsWith(Encode(b), Encode(a)) <==> StartsWith(b, a)
  {
    hide StartsWith;
    if a == [] || b == [] {
      EmptyStarts(a, b);
    } else if a[0] == b[0] {
      EncodePrefix(a[1..], b[1..]);
      StartsAfterCommon(EncodeOne(a[0]), Encode(b[1..]), Encode(a[1..]));
      StartsAfterCommon([a[0]], b[1..], a[1..]);
      assert [a[0]] + a[1..] == a && [a[0]] + b[1..] == b;
    } else {
      var k: nat;
      if a[0] < b[0] { k := EncodeOneOrder(a[0], b[0]); } else { k := EncodeOneOrder(b[0], a[0]); }
      assert Encode(a)[k] == EncodeOne(a[0])[k] && Encode(b)[k] == EncodeOne(b[0])[k];
      DiffersAt(Encode(b), Encode(a), k);
      DiffersAt(b, a, 0);
    }
  }

  lemma EmptyStarts(a: Text, b: Text)
    requires a == [] || b == []
    ensures StartsWith(Encode(b), Encode(a)) <==> StartsWith(b, a)
  {
  }

  predicate Free(v: Text, sep: Scalar) {
    forall i :: 0 <= i < |v| ==> v[i] != sep
  }

  /** A field ended by a separator it does not hold is matched whole or not at all. */
  lemma {:induction false} FieldStarts(v: Text, w: Text, sep: Scalar, tail: Text, rest: Text)
    requires Free(v, sep) && Free(w, sep)
    ensures StartsWith(w + [sep] + rest, v + [sep] + tail) <==> v == w && StartsWith(rest, tail)
  {
    hide StartsWith;
    var s, p := w + [sep] + rest, v + [sep] + tail;
    if v == [] && w == [] {
      assert s == [sep] + rest && p == [sep] + tail;
      StartsAfterCommon([sep], rest, tail);
    } else {
      assert s[0] == (if w == [] then sep else w[0]) && p[0] == (if v == [] then sep else v[0]);
      if v == [] || w == [] || v[0] != w[0] {
        DiffersAt(s, p, 0);
      } else {
        FieldStarts(v[1..], w[1..], sep, tail, rest);
        StartsAfterCommon([v[0]], w[1..] + [sep] + rest, v[1..] + [sep] + tail);
        assert [v[0]] + (v[1..] + [sep] + tail) == p && [v[0]] + (w[1..] + [sep] + rest) == s;
        assert v == [v[0]] + v[1..] && w == [w[0]] + w[1..];
      }
    }
  }

  lemma NothingStarts(s: seq<int>)
    ensures StartsWith(s, [])
  {
  }

  /** The value prefix of an exact lookup picks out that value and no other. */
  lemma ValuePrefixIff(p: Text, v: Text, w: Text, pk: Text)
    requires Plain(v) && Plain(w)
    ensures StartsWith(EntryKey(p, w, pk), Encode(p + (v + [SEP]))) <==> v == w
  {
    hide StartsWith, Encode;
    EncodePrefix(p + (v + [SEP]), p + Suffix(w, pk));
    StartsAfterCommon(p, Suffix(w, pk), v + [SEP]);
    assert v + [SEP] + [] == v + [SEP];
    FieldStarts(v, w, SEP, [], pk);
    NothingStarts(pk);
  }

  /** Two indexes over different tables or columns never see each other's entries. */
  lemma IndexesApart(t: Text, c: Text, t': Text, c': Text, v: Text, pk: Text)
    requires Free(t, COLON) && Free(c, COLON) && Free(t', COLON) && Free(c', COLON)
    ensures StartsWith(EntryKey(IndexPrefix(t', c'), v, pk), Encode(IndexPrefix(t, c))) <==> t == t' && c == c'
  {
    hide StartsWith, Encode, Free;
    var s := Suffix(v, pk);
    EncodePrefix(IndexPrefix(t, c), IndexPrefix(t', c') + s);
    assert IndexPrefix(t, c) == IDX + (t + [COLON] + (c + [COLON] + []));
    assert IndexPrefix(t', c') + s == IDX + (t' + [COLON] + (c' + [COLON] + s));
    StartsAfterCommon(IDX, t' + [COLON] + (c' + [COLON] + s), t + [COLON] + (c + [COLON] + []));
    FieldStarts(t, t', COLON, c + [COLON] + [], c' + [COLON] + s);
    FieldStarts(c, c', COLON, [], s);
    NothingStarts(s);
  }

  /** Entries under other prefixes leave what an index represents alone. */
  lemma OtherEntriesIrrelevant(idx: Index, p: Text, content: Content, key: Buffer, offset: nat)
    requires Represents(idx, p, content) && !StartsWith(key, Encode(p))
    ensures Represents(Bind(idx, key, offset), p, content) && Represents(Unbind(idx, key), p, content)
  {
    hide EntryKey, Less, StartsWith;
    BindKeepsOrder(idx, key, offset);
    UnbindKeepsOrder(idx, key);
    forall vk | vk in content
      ensures EntryKey(p, vk.0, vk.1) != key
    {
      KeyHasPrefix(p, vk.0, vk.1);
    }
  }

  function ValueScan(idx: Index, p: Text, v: Text): Index {
    Scan(idx, Encode(p + (v + [SEP])), [], [])
  }

  /** An exact lookup lists that value's entries, all of them, in primary-key order, and no other value's. */
  lemma LookupIsExact(idx: Index, p: Text, content: Content, v: Text, max: nat) returns (items: seq<(Text, Text)>)
    requires Represents(idx, p, content) && Plain(v)
    ensures Lists(items, content, (w, pk) => w == v)
    ensures Capped(ValueScan(idx, p, v), max) == OffsetsOf(if |items| <= max then items else items[..max], content)
  {
    hide EntryKey, Less, Plain, StartsWith, InScan, Scan, Encode, Ascending;
    var q := p + (v + [SEP]);
    var found := ValueScan(idx, p, v);
    ScanIsFilter(idx, Encode(q), [], []);
    forall e
      ensures e in found <==> e in idx && StartsWith(e.key, Encode(q))
    {
      InOpenScan(e.key, Encode(q));
    }
    forall e | e in found
      ensures StartsWith(e.key, Encode(p))
    {
      LongerPrefix(e.key, p, v + [SEP]);
    }
    items := ItemsOf(idx, p, content, found);
    ItemsAscend(p, content, found, items);
    forall i | 0 <= i < |items|
      ensures items[i].0 == v
    {
      assert found[i] in found;
      ValuePrefixIff(p, v, items[i].0, items[i].1);
    }
    forall vk | vk in content && vk.0 == v
      ensures vk in items
    {
      ValuePrefixIff(p, v, vk.0, vk.1);
      ListedItem(p, content, found, items, vk);
    }
  }

  lemma InOpenScan(key: Buffer, q: Buffer)
    ensures InScan(key, q, [], []) <==> StartsWith(key, q)
  {
  }

  lemma LongerPrefix(key: Buffer, p: Text, t: Text)
    requires StartsWith(key, Encode(p + t))
    ensures StartsWith(key, Encode(p))
  {
    hide Encode;
    EncodeConcat(p, t);
    ShorterStarts(key, Encode(p), Encode(t));
  }

  lemma ShorterStarts(s: seq<int>, p: seq<int>, q: seq<int>)
    requires StartsWith(s, p + q)
    ensures StartsWith(s, p)
  {
    assert s[..|p|] == s[..|p + q|][..|p|];
  }

  /**
   The number behind a padded value lies in the range; at its top, the primary key
   must be one the sentinel admits.
   */
  ghost predicate NumberIn(v: Text, pk: Text, lo: int, hi: int) {
    exists n :: lo <= n <= hi && PadU32Hex(n) == Some(v) && (n == hi ==> BelowSentinel(pk))
  }

  /**
   A numeric range over padded values lists exactly the entries whose number lies
   in the range, in order; at the top number, those whose key the sentinel admits.
   */
  lemma NumericRangeIsExact(idx: Index, p: Text, content: Content, lo: int, hi: int, max: nat)
    returns (items: seq<(Text, Text)>)
    requires Represents(idx, p, content) && PadU32Hex(lo).Some? && PadU32Hex(hi).Some?
    requires forall vk :: vk in content ==> exists n :: PadU32Hex(n) == Some(vk.0)
    ensures Lists(items, content, (v, pk) => NumberIn(v, pk, lo, hi))
    ensures Capped(RangeScan(idx, p, PadU32Hex(lo).value, PadU32Hex(hi).value), max)
              == OffsetsOf(if |items| <= max then items else items[..max], content)
  {
    hide Less, PadU32Hex, RangeScan, BelowSentinel, Represents, NumberIn;
    PaddedIsPlain(lo);
    PaddedIsPlain(hi);
    items := RangeIsExact(idx, p, content, PadU32Hex(lo).value, PadU32Hex(hi).value, max);
    forall vk | vk in content
      ensures InRange(vk.0, vk.1, PadU32Hex(lo).value, PadU32Hex(hi).value) <==> NumberIn(vk.0, vk.1, lo, hi)
    {
      var m :| PadU32Hex(m) == Some(vk.0);
      NumberInRange(m, vk.0, vk.1, lo, hi);
    }
  }

  lemma NumberInRange(m: int, v: Text, pk: Text, lo: int, hi: int)
    requires PadU32Hex(m) == Some(v) && PadU32Hex(lo).Some? && PadU32Hex(hi).Some?
    ensures InRange(v, pk, PadU32Hex(lo).value, PadU32Hex(hi).value) <==> NumberIn(v, pk, lo, hi)
  {
    hide Less, PadU32Hex, BelowSentinel;
    U32HexOrder(m, lo);
    U32HexOrder(m, hi);
    U32HexOrder(lo, lo);
    U32HexOrder(hi, hi);
    if n :| lo <= n <= hi && PadU32Hex(n) == Some(v) && (n == hi ==> BelowSentinel(pk)) {
      U32HexOrder(m, n);
    }
  }

  lemma {:induction false} FixedIsPlain(n: nat, k: nat)
    ensures Plain(Fixed(n, k))
    decreases k
  {
    if k > 0 { FixedIsPlain(n / 16, k - 1); }
  }

  lemma PaddedIsPlain(n: int)
    requires PadU32Hex(n).Some?
    ensures Plain(PadU32Hex(n).value)
  {
    hide PadStart, ToHex;
    Pow16Values();
    PaddedIsFixed(n, 8);
    FixedIsPlain(n, 8);
  }

  // ----- unique indexes

  ghost predicate OnePerValue(content: Content) {
    forall a, b :: a in content && b in content && a.0 == b.0 ==> a == b
  }

  /** Storing only after an empty exact lookup keeps one primary key per value. */
  lemma UniqueKept(idx: Index, p: Text, content: Content, v: Text, pk: Text, offset: nat)
    requires Represents(idx, p, content) && Plain(v) && OnePerValue(content)
    ensures ValueScan(idx, p, v) == [] <==> forall vk :: vk in content ==> vk.0 != v
    ensures ValueScan(idx, p, v) == [] ==> OnePerValue(content[(v, pk) := offset])
  {
    hide Represents, Plain, ValueScan;
    var items := LookupIsExact(idx, p, content, v, |ValueScan(idx, p, v)| + 1);
    assert |items| == |ValueScan(idx, p, v)|;
    forall vk | vk in content
      ensures vk.0 == v <==> vk in items
    {
      assert vk.0 == v ==> vk in items;
    }
    assert items != [] ==> items[0] in content && items[0].0 == v;
  }

  // ----- the index object

  datatype Added = Stored | UniqueViolation | KeyRejected | IndexRefused

  const MAX_KEY_LEN: nat := 256

  /** What the bridge accepts as a key. */
  predicate KeyOk(key: Buffer) {
    0 < |key| <= MAX_KEY_LEN && 0 !in key
  }

  /** What the bridge accepts as a scan bound: empty means open. */
  predicate BoundOk(bound: Buffer) {
    |bound| <= MAX_KEY_LEN && 0 !in bound
  }

  function AddOutcome(idx: Index, p: Text, unique: bool, value: Text, pk: Text, rc: int): Added {
    if unique && !KeyOk(Encode(p + (value + [SEP]))) then KeyRejected
    else if unique && ValueScan(idx, p, value) != [] then UniqueViolation
    else if !KeyOk(EntryKey(p, value, pk)) then KeyRejected
    else if rc != 0 then IndexRefused
    else Stored
  }

  predicate RangeAccepted(p: Text, lo: Text, hi: Text, maxResults: nat) {
    1 <= maxResults <= 4096 && KeyOk(Encode(p)) && BoundOk(LowBound(lo)) && BoundOk(HighBound(hi))
  }

  class NativeSecondaryIndex {
    /** The engine's shared index. */
    var index: Index
    const prefix: Text
    const unique: bool

    constructor (engine: Index, table: Text, column: Text, isUnique: bool)
      requires table != [] && column != []
      ensures index == engine && prefix == IndexPrefix(table, column) && unique == isUnique
    {
      index, prefix, unique := engine, IndexPrefix(table, column), isUnique;
    }

    method Lookup(value: Text) returns (r: Option<seq<nat>>)
      ensures r.Some? <==> KeyOk(Encode(prefix + (value + [SEP])))
      ensures r.Some? ==> r.value == Capped(ValueScan(index, prefix, value), 4096)
    {
      var p := Encode(prefix + (value + [SEP]));
      if !KeyOk(p) {
        return None;
      }
      r := Some(Capped(Scan(index, p, [], []), 4096));
    }

    /** `rc` is the engine's answer to the insert. */
    method Add(value: Text, pk: Text, recordOffset: nat, rc: int) returns (r: Added)
      modifies this`index
      ensures r == AddOutcome(old(index), prefix, unique, value, pk, rc)
      ensures index == if r == Stored then Bind(old(index), EntryKey(prefix, value, pk), recordOffset) else old(index)
    {
      if unique {
        var same := Lookup(value);
        if same.None? {
          return KeyRejected;
        }
        if |same.value| > 0 {
          return UniqueViolation;
        }
      }
      var key := EntryKey(prefix, value, pk);
      if !KeyOk(key) {
        return KeyRejected;
      }
      if rc != 0 {
        return IndexRefused;
      }
      index := Bind(index, key, recordOffset);
      r := Stored;
    }

    method LookupRange(lo: Text, hi: Text, maxResults: nat) returns (r: Option<seq<nat>>)
      ensures r.Some? <==> RangeAccepted(prefix, lo, hi, maxResults)
      ensures r.Some? ==> r.value == Capped(RangeScan(index, prefix, lo, hi), maxResults)
    {
      var p, loBound, hiBound := Encode(prefix), LowBound(lo), HighBound(hi);
      if !(1 <= maxResults <= 4096 && KeyOk(p) && BoundOk(loBound) && BoundOk(hiBound)) {
        return None;
      }
      r := Some(Capped(Scan(index, p, loBound, hiBound), maxResults));
    }

    method LookupNumericRange(lo: int, hi: int, maxResults: nat) returns (r: Option<seq<nat>>)
      ensures r.Some? ==> lo <= hi && PadU32Hex(lo).Some? && PadU32Hex(hi).Some?
      ensures r.Some? ==>
                r.value == Capped(RangeScan(index, prefix, PadU32Hex(lo).value, PadU32Hex(hi).value), maxResults)
      ensures r.None? ==>
                lo > hi || PadU32Hex(lo).None? || PadU32Hex(hi).None?
                || !RangeAccepted(prefix, PadU32Hex(lo).value, PadU32Hex(hi).value, maxResults)
    {
      var from, upto := PadU32Hex(lo), PadU32Hex(hi);
      if lo > hi || from.None? || upto.None? {
        return None;
      }
      r := LookupRange(from.value, upto.value, maxResults);
    }

    /** `fails` is a bridge error; None is a throw. */
    method Remove(value: Text, pk: Text, fails: bool) returns (r: Option<bool>)
      modifies this`index
      ensures r.Some? <==> !fails && KeyOk(EntryKey(prefix, value, pk))
      ensures r.Some? ==> r.value == Present(old(index), EntryKey(prefix, value, pk))
      ensures index == if r.Some? then Unbind(old(index), EntryKey(prefix, value, pk)) else old(index)
    {
      var key := EntryKey(prefix, value, pk);
      if !KeyOk(key) || fails {
        return None;
      }
      r := Some(Present(index, key));
      index := Unbind(index, key);
    }
  }

  // ----- what the digits and the keys are

  /** A text spells a number in lower-case hexadecimal, its last digit the low one. */
  predicate Spells(t: Text, n: nat) {
    if t == [] then n == 0
    else t[|t| - 1] == Ascii("0123456789abcdef")[n % 16] && Spells(t[..|t| - 1], n / 16)
  }

  lemma {:induction false} FixedSpells(n: nat, k: nat)
    requires n < Pow16(k)
    ensures Spells(Fixed(n, k), n)
  {
    if k > 0 {
      FixedSpells(n / 16, k - 1);
      var t := Fixed(n, k);
      assert t[..|t| - 1] == Fixed(n / 16, k - 1);
      DigitIs(n % 16);
    }
  }

  lemma DigitIs(d: nat)
    requires d < 16
    ensures HexDigit(d) == Ascii("0123456789abcdef")[d]
  {
  }

  /** Unsigned padding is defined on exactly the u32 range, and spells the number in eight digits. */
  lemma U32HexIs(v: int)
    ensures PadU32Hex(v).Some? <==> 0 <= v <= 0xFFFF_FFFF
    ensures PadU32Hex(v).Some? ==> |PadU32Hex(v).value| == 8 && Spells(PadU32Hex(v).value, v)
  {
    if 0 <= v <= 0xFFFF_FFFF {
      Pow16Values();
      PaddedIsFixed(v, 8);
      FixedSpells(v, 8);
    }
  }

  /** Signed padding is defined on exactly the safe integers, and spells the number plus 2^63 in sixteen digits. */
  lemma I64HexIs(v: int)
    ensures PadI64Hex16(v).Some? <==> -0x1F_FFFF_FFFF_FFFF <= v <= 0x1F_FFFF_FFFF_FFFF
    ensures PadI64Hex16(v).Some? ==>
              |PadI64Hex16(v).value| == 16 && Spells(PadI64Hex16(v).value, v + 0x8000_0000_0000_0000)
  {
    hide FlipSign;
    if PadI64Hex16(v).Some? {
      Pow16Values();
      FlipSignIsBias(v);
      PaddedIsFixed(v + SIGN_BIT, 16);
      FixedSpells(v + SIGN_BIT, 16);
    }
  }

  /** A key as text: `idx:`, table, column, value, separator, primary key. */
  function KeyText(table: Text, column: Text, value: Text, pk: Text): Text {
    Ascii("idx:") + table + Ascii(":") + column + Ascii(":") + value + [0x1F] + pk
  }

  /** What the bridge refuses of an entry's key is its length in bytes and any NUL in it. */
  lemma EntryKeyOkIff(table: Text, column: Text, value: Text, pk: Text)
    ensures var key := EntryKey(IndexPrefix(table, column), value, pk);
            key == Encode(KeyText(table, column, value, pk))
            && (KeyOk(key) <==> |key| <= 256 && 0 !in KeyText(table, column, value, pk))
  {
    var t := KeyText(table, column, value, pk);
    assert IndexPrefix(table, column) + Suffix(value, pk) == t;
    ZeroByteIff(t);
    EncodeNonEmpty(t);
  }

  /** A range bound is refused for the same reasons; a separator and the sentinel are four more bytes. */
  lemma BoundOkIff(lo: Text, hi: Text)
    ensures BoundOk(LowBound(lo)) <==> lo == [] || (|Encode(lo)| + 1 <= 256 && 0 !in lo)
    ensures BoundOk(HighBound(hi)) <==> hi == [] || (|Encode(hi)| + 4 <= 256 && 0 !in hi)
    ensures hi != [] ==> HighBound(hi) == Encode(hi + [0x1F, 0xFFFF])
  {
    EncodeConcat(lo, [SEP]);
    EncodeConcat(hi, [SEP, SENTINEL]);
    ZeroByteIff(lo + [SEP]);
    ZeroByteIff(hi + [SEP, SENTINEL]);
    assert Encode([SEP]) == EncodeOne(SEP) + Encode([][..]);
    assert Encode([SEP, SENTINEL]) == EncodeOne(SEP) + Encode([SEP, SENTINEL][1..]);
    assert [SEP, SENTINEL][1..] == [SENTINEL];
    assert Encode([SENTINEL]) == EncodeOne(SENTINEL) + Encode([][..]);
  }

  /** Which range lookups the bridge answers, in terms of the texts. */
  lemma RangeAcceptedIff(table: Text, column: Text, lo: Text, hi: Text, max: nat)
    ensures RangeAccepted(IndexPrefix(table, column), lo, hi, max) <==>
              && 1 <= max <= 4096
              && |Encode(IndexPrefix(table, column))| <= 256 && 0 !in table && 0 !in column
              && (lo == [] || (|Encode(lo)| + 1 <= 256 && 0 !in lo))
              && (hi == [] || (|Encode(hi)| + 4 <= 256 && 0 !in hi))
  {
    hide BoundOk, LowBound, HighBound;
    BoundOkIff(lo, hi);
    var p := IndexPrefix(table, column);
    ZeroByteIff(p);
    EncodeNonEmpty(p);
    assert 0 in p <==> 0 in table || 0 in column;
  }
}
