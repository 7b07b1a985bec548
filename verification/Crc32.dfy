/**
 The bitwise CRC-32 of section 8 of RFC 1952, and why it finds every burst of at
 most four bytes: each shift step is linear and invertible, so four bytes enter
 the register as one 32-bit word that later steps cannot lose.

 A register is its 32 bits, least significant first.
 */
module Crc32 {
  import opened Bytes

  type Register = r: seq<bool> | |r| == 32 witness seq(32, _ => false)

  const POLY: nat := 0xEDB8_8320

  // ----- numbers as bits

  /** The `k` low bits of a number. */
  function BitsOf(n: nat, k: nat): (s: seq<bool>)
    ensures |s| == k
    decreases n + k
  {
    if k == 0 then [] else [n % 2 == 1] + BitsOf(n / 2, k - 1)
  }

  function Word(n: nat): Register {
    BitsOf(n, 32)
  }

  function Value(s: seq<bool>): nat {
    if s == [] then 0 else (if s[0] then 1 else 0) + 2 * Value(s[1..])
  }

  function Pow2(k: nat): (p: nat)
    ensures p > 0
  {
    if k == 0 then 1 else 2 * Pow2(k - 1)
  }

  lemma {:induction false} ValueBound(s: seq<bool>)
    ensures Value(s) < Pow2(|s|)
  {
    if s != [] { ValueBound(s[1..]); }
  }

  lemma {:induction false} ValueInjective(s: seq<bool>, t: seq<bool>)
    requires |s| == |t| && Value(s) == Value(t)
    ensures s == t
  {
    if s != [] {
      ValueInjective(s[1..], t[1..]);
      assert s == [s[0]] + s[1..] && t == [t[0]] + t[1..];
    }
  }

  lemma {:induction false} BitsAbove(n: nat, k: nat, j: nat, i: nat)
    requires n < Pow2(j) && j <= i < k
    ensures !BitsOf(n, k)[i]
    decreases k
  {
    if i > 0 {
      BitsAbove(n / 2, k - 1, if j == 0 then 0 else j - 1, i - 1);
    }
  }

  /** The first `j` bits determine a number below `2^j`. */
  lemma {:induction false} BitsInjective(a: nat, b: nat, k: nat, j: nat)
    requires j <= k && a < Pow2(j) && b < Pow2(j)
    requires BitsOf(a, k)[..j] == BitsOf(b, k)[..j]
    ensures a == b
    decreases j
  {
    if j > 0 {
      assert BitsOf(a, k)[..j][0] == BitsOf(b, k)[..j][0];
      assert BitsOf(a / 2, k - 1)[..j - 1] == BitsOf(a, k)[..j][1..];
      assert BitsOf(b / 2, k - 1)[..j - 1] == BitsOf(b, k)[..j][1..];
      BitsInjective(a / 2, b / 2, k - 1, j - 1);
    }
  }

  // ----- the register

  function Xor(a: Register, b: Register): (r: Register)
    ensures forall i :: 0 <= i < 32 ==> r[i] == (a[i] != b[i])
  {
    seq(32, i requires 0 <= i < 32 => a[i] != b[i])
  }

  function ShiftRight(c: Register): (r: Register)
    ensures forall i :: 0 <= i < 31 ==> r[i] == c[i + 1]
    ensures !r[31]
  {
    c[1..] + [false]
  }

  /** `crc & 1 ? (crc >>> 1) ^ 0xedb88320 : crc >>> 1` */
  function Step(c: Register): Register {
    if c[0] then Xor(ShiftRight(c), Word(POLY)) else ShiftRight(c)
  }

  function Steps(c: Register, k: nat): Register {
    if k == 0 then c else Step(Steps(c, k - 1))
  }

  function Absorb(c: Register, b: byte): Register {
    Steps(Xor(c, Word(b)), 8)
  }

  /** The register after a run of bytes. */
  function Run(c: Register, data: Buffer): Register {
    if data == [] then c else Absorb(Run(c, data[..|data| - 1]), data[|data| - 1])
  }

  function Ones(): Register {
    seq(32, _ => true)
  }

  function Crc(data: Buffer): Register {
    Xor(Run(Ones(), data), Ones())
  }

  /** The checksum as an unsigned 32-bit number. */
  function CrcWord(data: Buffer): (w: nat)
    ensures w < U32_LIMIT
  {
    WordBound(Crc(data));
    Value(Crc(data))
  }

  lemma WordBound(c: Register)
    ensures Value(c) < U32_LIMIT
  {
    hide Pow2;
    ValueBound(c);
    Pow2Four(0); Pow2Four(4); Pow2Four(8); Pow2Four(12);
    Pow2Four(16); Pow2Four(20); Pow2Four(24); Pow2Four(28);
    Pow2Zero();
  }

  lemma Pow2Zero()
    ensures Pow2(0) == 1
  {
  }

  lemma Pow2Four(k: nat)
    ensures Pow2(k + 4) == 16 * Pow2(k)
  {
    assert Pow2(k + 2) == 2 * Pow2(k + 1) == 4 * Pow2(k);
    assert Pow2(k + 4) == 2 * Pow2(k + 3) == 4 * Pow2(k + 2);
  }

  method Crc32Ieee(data: Buffer) returns (r: nat)
    ensures r == CrcWord(data)
  {
    hide Step, Xor;
    var crc := Ones();
    for i := 0 to |data|
      invariant crc == Run(Ones(), data[..i])
    {
      assert data[..i + 1][..i] == data[..i];
      ghost var before := crc;
      crc := Xor(crc, Word(data[i]));
      for k := 0 to 8
        invariant crc == Steps(Xor(before, Word(data[i])), k)
      {
        crc := Step(crc);
      }
    }
    assert data[..|data|] == data;
    r := Value(Xor(crc, Ones()));
  }

  // ----- the shift step is linear and invertible

  lemma StepBits(c: Register, i: nat)
    requires i < 32
    ensures Step(c)[i] == ((i < 31 && c[i + 1]) != (c[0] && Word(POLY)[i]))
  {
    hide BitsOf;
  }

  lemma StepLinear(a: Register, b: Register)
    ensures Step(Xor(a, b)) == Xor(Step(a), Step(b))
  {
    hide Step, BitsOf;
    forall i: nat | i < 32
      ensures Step(Xor(a, b))[i] == Xor(Step(a), Step(b))[i]
    {
      StepBits(a, i);
      StepBits(b, i);
      StepBits(Xor(a, b), i);
    }
  }

  function Half(n: nat, i: nat): nat {
    if i == 0 then n else Half(n / 2, i - 1)
  }

  lemma {:induction false} HalfAdd(n: nat, i: nat, j: nat)
    ensures Half(Half(n, i), j) == Half(n, i + j)
    decreases i
  {
    if i > 0 { HalfAdd(n / 2, i - 1, j); }
  }

  lemma HalfFour(n: nat)
    ensures Half(n, 4) == n / 16
  {
    assert Half(n, 4) == Half(n / 2, 3) == Half(n / 2 / 2, 2) == Half(n / 2 / 2 / 2, 1) == n / 2 / 2 / 2 / 2;
  }

  lemma HalfTwelve(n: nat)
    ensures Half(n, 12) == n / 16 / 16 / 16
  {
    HalfFour(n);
    HalfFour(n / 16);
    HalfFour(n / 16 / 16);
    HalfAdd(n, 4, 4);
    HalfAdd(n, 8, 4);
  }

  /** The polynomial's top bit is set: a step's top bit is the bit it dropped. */
  lemma PolyTop()
    ensures Word(POLY)[31]
  {
    hide BitsOf, Half;
    BitAt(POLY, 32, 31);
    HalfTwelve(POLY);
    HalfTwelve(0xE_DB88);
    HalfAdd(POLY, 12, 12);
    HalfFour(0xED);
    HalfAdd(POLY, 24, 4);
    HalfAdd(POLY, 28, 3);
    HalfThree();
  }

  lemma HalfThree()
    ensures Half(0xE, 3) == 1
  {
  }

  lemma {:induction false} BitAt(n: nat, k: nat, i: nat)
    requires i < k
    ensures BitsOf(n, k)[i] == (Half(n, i) % 2 == 1)
    decreases k
  {
    if i > 0 {
      BitAt(n / 2, k - 1, i - 1);
    }
  }

  lemma StepInjective(a: Register, b: Register)
    requires Step(a) == Step(b)
    ensures a == b
  {
    hide Step, BitsOf;
    PolyTop();
    StepBits(a, 31);
    StepBits(b, 31);
    forall i: nat | i < 32
      ensures a[i] == b[i]
    {
      if i > 0 {
        StepBits(a, i - 1);
        StepBits(b, i - 1);
      }
    }
  }

  lemma {:induction false} StepsLinear(a: Register, b: Register, k: nat)
    ensures Steps(Xor(a, b), k) == Xor(Steps(a, k), Steps(b, k))
  {
    hide Step, Xor;
    if k > 0 {
      StepsLinear(a, b, k - 1);
      StepLinear(Steps(a, k - 1), Steps(b, k - 1));
    }
  }

  lemma {:induction false} StepsInjective(a: Register, b: Register, k: nat)
    requires Steps(a, k) == Steps(b, k)
    ensures a == b
  {
    hide Step;
    if k > 0 {
      StepInjective(Steps(a, k - 1), Steps(b, k - 1));
      StepsInjective(a, b, k - 1);
    }
  }

  lemma {:induction false} StepsAdd(c: Register, j: nat, k: nat)
    ensures Steps(Steps(c, j), k) == Steps(c, j + k)
  {
    hide Step;
    if k > 0 { StepsAdd(c, j, k - 1); }
  }

  // ----- four bytes are one word

  /** `y << k`, dropping what leaves the register. */
  function ShiftLeft(y: Register, k: nat): (r: Register)
    ensures forall i :: 0 <= i < 32 ==> r[i] == (i >= k && y[i - k])
  {
    seq(32, i requires 0 <= i < 32 => i >= k && y[i - k])
  }

  /** Steps undo a left shift that lost nothing. */
  lemma {:induction false} StepsUndoShift(y: Register, k: nat)
    requires k <= 32 && forall i :: 32 - k <= i < 32 ==> !y[i]
    ensures Steps(ShiftLeft(y, k), k) == y
  {
    if k == 0 {
      assert ShiftLeft(y, 0) == y;
    } else {
      var c := ShiftLeft(y, k);
      assert Step(c) == ShiftLeft(y, k - 1);
      assert Steps(c, 1) == Step(Steps(c, 0)) == Step(c);
      StepsAdd(c, 1, k - 1);
      StepsUndoShift(y, k - 1);
    }
  }

  /** A byte placed `8 * i` bits up. */
  function Up(b: byte, i: nat): Register {
    ShiftLeft(Word(b), 8 * i)
  }

  lemma ByteIsLow(b: byte, i: nat)
    requires 8 <= i < 32
    ensures !Word(b)[i]
  {
    assert Pow2(8) == 0x100;
    BitsAbove(b, 32, 8, i);
  }

  lemma UpSteps(b: byte, i: nat)
    requires i < 4
    ensures Steps(Up(b, i), 8 * i) == Word(b)
  {
    hide Step, Steps, BitsOf;
    forall j | 32 - 8 * i <= j < 32
      ensures !Word(b)[j]
    {
      ByteIsLow(b, j);
    }
    StepsUndoShift(Word(b), 8 * i);
  }

  function Zero(): Register {
    seq(32, _ => false)
  }

  /** The word up to four bytes form. */
  function Pack(p: Buffer): Register {
    if p == [] then Zero() else Xor(Pack(p[..|p| - 1]), Up(p[|p| - 1], |p| - 1))
  }

  lemma XorAssoc(a: Register, b: Register, c: Register)
    ensures Xor(Xor(a, b), c) == Xor(a, Xor(b, c))
  {
  }

  lemma XorZero(a: Register)
    ensures Xor(a, Zero()) == a
  {
  }

  lemma XorCancel(c: Register, a: Register, b: Register)
    requires Xor(c, a) == Xor(c, b)
    ensures a == b
  {
    forall i | 0 <= i < 32
      ensures a[i] == b[i]
    {
      assert Xor(c, a)[i] == Xor(c, b)[i];
    }
  }

  lemma XorCommutes(a: Register, b: Register)
    ensures Xor(a, b) == Xor(b, a)
  {
  }

  /** A window of up to four bytes enters the register as one exclusive-or. */
  lemma {:induction false} WindowIsWord(c: Register, p: Buffer)
    requires |p| <= 4
    ensures Run(c, p) == Steps(Xor(c, Pack(p)), 8 * |p|)
  {
    hide Step, Xor, Up, BitsOf;
    if p == [] {
      XorZero(c);
    } else {
      var front, b, j := p[..|p| - 1], p[|p| - 1], |p| - 1;
      var x := Xor(c, Pack(front));
      WindowIsWord(c, front);
      UpSteps(b, j);
      StepsLinear(x, Up(b, j), 8 * j);
      StepsAdd(Xor(x, Up(b, j)), 8 * j, 8);
      XorAssoc(c, Pack(front), Up(b, j));
    }
  }

  lemma {:induction false} PackHigh(p: Buffer, i: nat)
    requires |p| <= 4 && 8 * |p| <= i < 32
    ensures !Pack(p)[i]
  {
    hide BitsOf;
    if p != [] {
      PackHigh(p[..|p| - 1], i);
      ByteIsLow(p[|p| - 1], i - 8 * (|p| - 1));
    }
  }

  /** Each byte occupies its own eight bits of the word. */
  lemma {:induction false} PackBit(p: Buffer, i: nat, t: nat)
    requires |p| <= 4 && i < |p| && t < 8
    ensures Pack(p)[8 * i + t] == Word(p[i])[t]
  {
    hide BitsOf;
    var front := p[..|p| - 1];
    if i < |front| {
      PackBit(front, i, t);
    } else {
      PackHigh(front, 8 * i + t);
    }
  }

  lemma PackInjective(p: Buffer, q: Buffer)
    requires |p| == |q| <= 4 && Pack(p) == Pack(q)
    ensures p == q
  {
    hide Pack, BitsOf;
    forall i | 0 <= i < |p|
      ensures p[i] == q[i]
    {
      forall t: nat | t < 8
        ensures Word(p[i])[t] == Word(q[i])[t]
      {
        PackBit(p, i, t);
        PackBit(q, i, t);
      }
      assert Word(p[i])[..8] == Word(q[i])[..8];
      assert Pow2(8) == 0x100;
      BitsInjective(p[i], q[i], 32, 8);
    }
  }

  // ----- registers over concatenations

  lemma {:induction false} RunConcat(c: Register, a: Buffer, b: Buffer)
    ensures Run(c, a + b) == Run(Run(c, a), b)
  {
    hide Absorb;
    if b == [] {
      assert a + b == a;
    } else {
      RunConcat(c, a, b[..|b| - 1]);
      assert (a + b)[..|a + b| - 1] == a + b[..|b| - 1];
    }
  }

  /** Running the same bytes keeps different registers different. */
  lemma {:induction false} RunInjective(c: Register, d: Register, data: Buffer)
    requires Run(c, data) == Run(d, data)
    ensures c == d
  {
    hide Steps, Xor, BitsOf;
    if data != [] {
      var front, b := data[..|data| - 1], Word(data[|data| - 1]);
      StepsInjective(Xor(Run(c, front), b), Xor(Run(d, front), b), 8);
      XorCommutes(Run(c, front), b);
      XorCommutes(Run(d, front), b);
      XorCancel(b, Run(c, front), Run(d, front));
      RunInjective(c, d, front);
    }
  }

  /**
   Two inputs of equal length that differ only inside one window of at most four
   consecutive bytes never have the same CRC-32.
   */
  lemma BurstDetected(pre: Buffer, p: Buffer, q: Buffer, post: Buffer)
    requires |p| == |q| <= 4 && p != q
    ensures CrcWord(pre + p + post) != CrcWord(pre + q + post)
  {
    hide Run, Steps, Pack, Xor;
    var a, b := pre + p + post, pre + q + post;
    if CrcWord(a) == CrcWord(b) {
      ValueInjective(Crc(a), Crc(b));
      XorCommutes(Run(Ones(), a), Ones());
      XorCommutes(Run(Ones(), b), Ones());
      XorCancel(Ones(), Run(Ones(), a), Run(Ones(), b));
      RunConcat(Ones(), pre + p, post);
      RunConcat(Ones(), pre + q, post);
      RunInjective(Run(Ones(), pre + p), Run(Ones(), pre + q), post);
      RunConcat(Ones(), pre, p);
      RunConcat(Ones(), pre, q);
      var c := Run(Ones(), pre);
      WindowIsWord(c, p);
      WindowIsWord(c, q);
      StepsInjective(Xor(c, Pack(p)), Xor(c, Pack(q)), 8 * |p|);
      XorCancel(c, Pack(p), Pack(q));
      PackInjective(p, q);
    }
  }
}
