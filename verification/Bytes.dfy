/**
 Byte buffers: little-endian words, and the one in-place write (`Put`) every
 other module builds on, with the two facts about it that matter: what a read
 inside the written extent sees, and that a read outside it sees no change.
 */
module Bytes {

  type byte = b: int | 0 <= b < 256
  type Buffer = seq<byte>

  const U16_LIMIT: int := 0x1_0000
  const U32_LIMIT: int := 0x1_0000_0000

  type u32 = w: int | 0 <= w < U32_LIMIT

  function Zeros(n: nat): (z: Buffer)
    ensures |z| == n && forall i :: 0 <= i < n ==> z[i] == 0
  {
    seq(n, _ => 0)
  }

  // ----- little-endian words

  function U16Bytes(w: nat): (d: Buffer)
    ensures |d| == 2
  {
    [w % 256, w / 256 % 256]
  }

  /** The `n` low base-256 digits of a number, least significant first. */
  function Digits(w: nat, n: nat): (d: Buffer)
    ensures |d| == n
    decreases w + n
  {
    if n == 0 then [] else [w % 256] + Digits(w / 256, n - 1)
  }

  /** The number little-endian digits denote. */
  function Number(d: Buffer): nat {
    if d == [] then 0 else d[0] as int + 256 * Number(d[1..])
  }

  /** The four bytes `setUint32(_, w, true)` stores; a wider value is truncated. */
  function U32Bytes(w: nat): (d: Buffer)
    ensures |d| == 4
  {
    Digits(w, 4)
  }

  function U16At(m: Buffer, at: nat): (w: nat)
    requires at + 2 <= |m|
    ensures w < U16_LIMIT
  {
    m[at] as int + 256 * (m[at + 1] as int)
  }

  function U32At(m: Buffer, at: nat): (w: u32)
    requires at + 4 <= |m|
  {
    NumberBound(m[at..at + 4]);
    Number(m[at..at + 4])
  }

  lemma NumberBound(d: Buffer)
    requires |d| == 4
    ensures Number(d) < U32_LIMIT
  {
    var d1, d2, d3 := d[1..], d[1..][1..], d[1..][1..][1..];
    assert Number(d3) == d3[0] as int + 256 * Number(d3[1..]);
    assert Number(d2) == d2[0] as int + 256 * Number(d3);
    assert Number(d1) == d1[0] as int + 256 * Number(d2);
  }

  lemma WordRoundTrip(w: nat)
    ensures Number(U32Bytes(w)) == w % U32_LIMIT
  {
    DigitsNumber(w, 4);
    DigitsNumber(w / 256, 3);
    DigitsNumber(w / 256 / 256, 2);
    DigitsNumber(w / 256 / 256 / 256, 1);
  }

  lemma DigitsNumber(w: nat, n: nat)
    requires n > 0
    ensures Number(Digits(w, n)) == w % 256 + 256 * Number(Digits(w / 256, n - 1))
  {
    assert Digits(w, n)[1..] == Digits(w / 256, n - 1);
  }

  /** The digits are determined by the number. */
  lemma {:induction false} NumberInjective(d: Buffer, e: Buffer)
    requires |d| == |e| && Number(d) == Number(e)
    ensures d == e
  {
    if d != [] {
      NumberInjective(d[1..], e[1..]);
      assert d == [d[0]] + d[1..] && e == [e[0]] + e[1..];
    }
  }

  lemma {:induction false} NumberOfZeros(d: Buffer)
    requires forall i :: 0 <= i < |d| ==> d[i] == 0
    ensures Number(d) == 0
  {
    if d != [] { NumberOfZeros(d[1..]); }
  }

  // ----- writing an extent in place

  function Put(m: Buffer, at: nat, data: Buffer): (r: Buffer)
    requires at + |data| <= |m|
    ensures |r| == |m|
    ensures forall i {:trigger r[i]} :: 0 <= i < |m| ==> r[i] == if at <= i < at + |data| then data[i - at] else m[i]
  {
    m[..at] + data + m[at + |data|..]
  }

  /** The written extent reads back as the data. */
  lemma PutRead(m: Buffer, at: nat, data: Buffer)
    requires at + |data| <= |m|
    ensures Put(m, at, data)[at..at + |data|] == data
  {
  }

  lemma PutReadPart(m: Buffer, at: nat, data: Buffer, i: nat, n: nat)
    requires at + |data| <= |m| && i + n <= |data|
    ensures Put(m, at, data)[at + i..at + i + n] == data[i..i + n]
  {
  }

  /** An extent that does not meet the written one reads as before. */
  lemma PutFrame(m: Buffer, at: nat, data: Buffer, from: nat, n: nat)
    requires at + |data| <= |m| && from + n <= |m|
    requires from + n <= at || at + |data| <= from
    ensures Put(m, at, data)[from..from + n] == m[from..from + n]
  {
  }

  lemma PutU32(m: Buffer, at: nat, w: nat)
    requires at + 4 <= |m|
    ensures U32At(Put(m, at, U32Bytes(w)), at) == w % U32_LIMIT
  {
    PutRead(m, at, U32Bytes(w));
    WordRoundTrip(w);
  }

  predicate Disjoint(a: nat, n: nat, b: nat, k: nat) {
    a + n <= b || b + k <= a
  }

  /** Words are stored least significant byte first. */
  lemma LittleEndian(m: Buffer, at: nat)
    requires at + 4 <= |m|
    ensures U32At(m, at) ==
      m[at] as int + 0x100 * m[at + 1] as int + 0x1_0000 * m[at + 2] as int + 0x100_0000 * m[at + 3] as int
  {
    var d := m[at..at + 4];
    var d1, d2, d3 := d[1..], d[1..][1..], d[1..][1..][1..];
    assert Number(d3) == d3[0] as int + 256 * Number(d3[1..]) == m[at + 3];
    assert Number(d2) == d2[0] as int + 256 * Number(d3);
    assert Number(d1) == d1[0] as int + 256 * Number(d2);
  }

  /** The stored bytes of a word are the bytes it is read from. */
  lemma BytesOfWord(m: Buffer, at: nat)
    requires at + 4 <= |m|
    ensures U32Bytes(U32At(m, at)) == m[at..at + 4]
  {
    WordRoundTrip(U32At(m, at));
    NumberInjective(U32Bytes(U32At(m, at)), m[at..at + 4]);
  }
}
