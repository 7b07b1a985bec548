/**
 What the checksum is, apart from how it is computed: the complement of the
 remainder of the message polynomial, its first 32 coefficients complemented,
 on division by the generator of section 8.1.1.6.2 of ITU-T V.42.
 */
module CrcPolynomial {
  import opened Bytes
  import opened Crc32

  /** Coefficients modulo two, highest power first. */
  type Poly = seq<bool>

  /** The powers of x in the generator: 0x104C11DB7. */
  const EXPONENTS: set<int> := {32, 26, 23, 22, 16, 12, 11, 10, 8, 7, 5, 4, 2, 1, 0}

  function Generator(): (g: Poly)
    ensures |g| == 33 && forall i :: 0 <= i < 33 ==> (g[i] <==> 32 - i in EXPONENTS)
  {
    seq(33, i requires 0 <= i < 33 => 32 - i in EXPONENTS)
  }

  function Nil(n: nat): (p: Poly)
    ensures |p| == n && forall i :: 0 <= i < n ==> !p[i]
  {
    seq(n, _ => false)
  }

  function Plus(a: Poly, b: Poly): (p: Poly)
    requires |a| == |b|
    ensures |p| == |a| && forall i :: 0 <= i < |p| ==> p[i] == (a[i] != b[i])
  {
    seq(|a|, i requires 0 <= i < |a| => a[i] != b[i])
  }

  /** `b` times x^k times the generator. */
  function Scaled(b: bool, k: nat): (p: Poly)
    ensures |p| == 33 + k
  {
    (if b then Generator() else Nil(33)) + Nil(k)
  }

  /** The product of a polynomial and the generator. */
  function Times(q: Poly): (p: Poly)
    ensures |p| == |q| + 32
  {
    if q == [] then Nil(32) else Plus(Scaled(q[0], |q| - 1), [false] + Times(q[1..]))
  }

  /** The message's bits in transmission order: byte by byte, each from its low bit. */
  function Message(data: Buffer): (p: Poly)
    ensures |p| == 8 * |data|
  {
    if data == [] then [] else Message(data[..|data| - 1]) + BitsOf(data[|data| - 1], 8)
  }

  /** The message times x^32, with its first 32 coefficients complemented. */
  function Dividend(data: Buffer): (p: Poly)
    ensures |p| == 8 * |data| + 32
  {
    Plus(Ones() + Nil(8 * |data|), Message(data) + Nil(32))
  }

  /** `r` is a remainder of the dividend, with quotient `q`. */
  predicate Divides(data: Buffer, q: Poly, r: Poly) {
    |q| == 8 * |data| && |r| == 32 && Dividend(data) == Plus(Times(q), Nil(|q|) + r)
  }

  // ----- the register divides

  lemma OneBit(n: nat, k: nat)
    ensures BitsOf(n, k + 1) == [n % 2 == 1] + BitsOf(n / 2, k)
  {
  }

  lemma FourBits(n: nat, k: nat)
    ensures BitsOf(n, k + 4) ==
      [n % 2 == 1, n / 2 % 2 == 1, n / 2 / 2 % 2 == 1, n / 2 / 2 / 2 % 2 == 1] + BitsOf(n / 2 / 2 / 2 / 2, k)
  {
    hide BitsOf;
    OneBit(n, k + 3);
    OneBit(n / 2, k + 2);
    OneBit(n / 2 / 2, k + 1);
    OneBit(n / 2 / 2 / 2, k);
  }

  lemma PolyIsGenerator(i: nat)
    requires i < 32
    ensures Word(POLY)[i] <==> Generator()[i + 1]
  {
    hide BitsOf;
    FourBits(POLY, 28);
    FourBits(0xEDB8832, 24);
    FourBits(0xEDB883, 20);
    FourBits(0xEDB88, 16);
    FourBits(0xEDB8, 12);
    FourBits(0xEDB, 8);
    FourBits(0xED, 4);
    FourBits(0xE, 0);
  }

  /** One message bit enters at the low end. */
  function Feed(c: Register, bit: bool): Register {
    Step([c[0] != bit] + c[1..])
  }

  function FeedAll(c: Register, bits: Poly): Register
    decreases |bits|
  {
    if bits == [] then c else FeedAll(Feed(c, bits[0]), bits[1..])
  }

  lemma FeedBits(c: Register, bit: bool, i: nat)
    requires i < 32
    ensures Feed(c, bit)[i] == ((i < 31 && c[i + 1]) != ((c[0] != bit) && Generator()[i + 1]))
  {
    hide Step, BitsOf;
    StepBits([c[0] != bit] + c[1..], i);
    PolyIsGenerator(i);
  }

  /** Dividing the leading coefficient out leaves what the register holds after one bit. */
  lemma LeadingOut(c: Register, bits: Poly)
    requires bits != []
    ensures var c', rest := Feed(c, bits[0]), bits[1..];
            Plus(c + Nil(|bits|), bits + Nil(32)) ==
              Plus(Scaled(c[0] != bits[0], |bits| - 1), [false] + Plus(c' + Nil(|rest|), rest + Nil(32)))
  {
    hide Feed;
    var c', rest := Feed(c, bits[0]), bits[1..];
    var p := Plus(c + Nil(|bits|), bits + Nil(32));
    var p' := Plus(c' + Nil(|rest|), rest + Nil(32));
    forall j: nat | j < |p|
      ensures p[j] == (Scaled(c[0] != bits[0], |bits| - 1)[j] != ([false] + p')[j])
    {
      if 0 < j <= 32 { FeedBits(c, bits[0], j - 1); }
    }
  }

  lemma Reassociate(a: Poly, b: Poly, c: Poly)
    requires |a| == |b| + 1 && |b| == |c|
    ensures Plus(a, [false] + Plus(b, c)) == Plus(Plus(a, [false] + b), [false] + c)
  {
  }

  lemma {:induction false} Division(c: Register, bits: Poly) returns (q: Poly)
    ensures |q| == |bits|
    ensures Plus(c + Nil(|bits|), bits + Nil(32)) == Plus(Times(q), Nil(|q|) + FeedAll(c, bits))
    decreases |bits|
  {
    hide Feed, Scaled;
    if bits == [] {
      q := [];
    } else {
      var c', rest := Feed(c, bits[0]), bits[1..];
      var q' := Division(c', rest);
      var b := c[0] != bits[0];
      q := [b] + q';
      assert q[1..] == q';
      LeadingOut(c, bits);
      Reassociate(Scaled(b, |rest|), Times(q'), Nil(|q'|) + FeedAll(c', rest));
    }
  }

  /** A product plus a remainder, one power at a time. */
  lemma LeadingIn(q: Poly, r: Poly)
    requires q != [] && |r| == 32
    ensures Plus(Times(q), Nil(|q|) + r) ==
      Plus(Scaled(q[0], |q| - 1), [false] + Plus(Times(q[1..]), Nil(|q| - 1) + r))
  {
    hide Scaled, Times, Plus, Nil;
    TimesIs(q);
    NilIs(|q|, r);
    Reassociate(Scaled(q[0], |q| - 1), Times(q[1..]), Nil(|q| - 1) + r);
  }

  lemma TimesIs(q: Poly)
    requires q != []
    ensures Times(q) == Plus(Scaled(q[0], |q| - 1), [false] + Times(q[1..]))
  {
  }

  lemma NilIs(n: nat, r: Poly)
    requires n > 0
    ensures Nil(n) + r == [false] + (Nil(n - 1) + r)
  {
  }

  lemma Cancel(a: Poly, u: Poly, v: Poly)
    requires |u| == |v| == |a| && Plus(a, u) == Plus(a, v)
    ensures u == v
  {
    forall i | 0 <= i < |u|
      ensures u[i] == v[i]
    {
      assert Plus(a, u)[i] == Plus(a, v)[i];
    }
  }

  lemma LeadingIs(b: bool, t: Poly, k: nat)
    requires |t| == 32 + k
    ensures Plus(Scaled(b, k), [false] + t)[0] == b
  {
  }

  /** The quotient and the remainder are determined. */
  lemma {:induction false} RemainderUnique(q: Poly, r: Poly, q': Poly, r': Poly)
    requires |q| == |q'| && |r| == |r'| == 32
    requires Plus(Times(q), Nil(|q|) + r) == Plus(Times(q'), Nil(|q|) + r')
    ensures q == q' && r == r'
  {
    hide Scaled;
    if q == [] {
      assert Nil(0) + r == r && Nil(0) + r' == r';
      Cancel(Times(q), r, r');
    } else {
      hide Times;
      var k := |q| - 1;
      var t, t' := Plus(Times(q[1..]), Nil(k) + r), Plus(Times(q'[1..]), Nil(k) + r');
      LeadingIn(q, r);
      LeadingIn(q', r');
      LeadingIs(q[0], t, k);
      LeadingIs(q'[0], t', k);
      Cancel(Scaled(q[0], k), [false] + t, [false] + t');
      assert t == ([false] + t)[1..] && t' == ([false] + t')[1..];
      RemainderUnique(q[1..], r, q'[1..], r');
      assert q == [q[0]] + q[1..] && q' == [q'[0]] + q'[1..];
    }
  }

  // ----- the register over bytes is the register over bits

  function Extended(bits: Poly): Register
    requires |bits| <= 32
  {
    bits + Nil(32 - |bits|)
  }

  lemma {:induction false} FeedIsSteps(c: Register, bits: Poly)
    requires |bits| <= 32
    ensures FeedAll(c, bits) == Steps(Xor(c, Extended(bits)), |bits|)
    decreases |bits|
  {
    hide Step, BitsOf;
    if bits == [] {
      XorZero(c);
      assert Extended(bits) == Zero();
    } else {
      var x, rest := Xor(c, Extended(bits)), bits[1..];
      forall i: nat | i < 32
        ensures Step(x)[i] == Xor(Feed(c, bits[0]), Extended(rest))[i]
      {
        StepBits(x, i);
        StepBits([c[0] != bits[0]] + c[1..], i);
      }
      assert Step(x) == Xor(Feed(c, bits[0]), Extended(rest));
      FeedIsSteps(Feed(c, bits[0]), rest);
      assert Steps(x, 1) == Step(Steps(x, 0)) == Step(x);
      StepsAdd(x, 1, |rest|);
    }
  }

  lemma {:induction false} FeedConcat(c: Register, a: Poly, b: Poly)
    ensures FeedAll(c, a + b) == FeedAll(FeedAll(c, a), b)
    decreases |a|
  {
    hide Feed;
    if a == [] {
      assert a + b == b;
    } else {
      FeedConcat(Feed(c, a[0]), a[1..], b);
      assert (a + b)[1..] == a[1..] + b;
    }
  }

  lemma ByteIsBits(b: byte)
    ensures Word(b) == Extended(BitsOf(b, 8))
  {
    forall i: nat | i < 32
      ensures Word(b)[i] == Extended(BitsOf(b, 8))[i]
    {
      if i < 8 {
        BitAt(b, 32, i);
        BitAt(b, 8, i);
      } else {
        ByteIsLow(b, i);
      }
    }
  }

  lemma {:induction false} RunIsFeed(c: Register, data: Buffer)
    ensures Run(c, data) == FeedAll(c, Message(data))
  {
    hide Step, Steps, BitsOf, Xor, Feed;
    if data != [] {
      var front, b := data[..|data| - 1], data[|data| - 1];
      RunIsFeed(c, front);
      FeedConcat(c, Message(front), BitsOf(b, 8));
      FeedIsSteps(Run(c, front), BitsOf(b, 8));
      ByteIsBits(b);
    }
  }

  // ----- the checksum

  /** A number's bits give its bits back. */
  lemma {:induction false} BitsOfValue(s: seq<bool>)
    ensures BitsOf(Value(s), |s|) == s
  {
    if s != [] {
      BitsOfValue(s[1..]);
      assert Value(s) / 2 == Value(s[1..]) && s == [s[0]] + s[1..];
    }
  }

  /** The dividend has a remainder, which the register holds after the last byte. */
  lemma RemainderExists(data: Buffer) returns (q: Poly)
    ensures Divides(data, q, Run(Ones(), data))
  {
    hide Run, FeedAll, Times, Message;
    q := Division(Ones(), Message(data));
    RunIsFeed(Ones(), data);
  }

  /**
   The checksum of any data is the complement of the remainder of its polynomial,
   whichever way that is found: bit i of the checksum is the complement of the
   coefficient of x^(31-i).
   */
  lemma CrcIsRemainder(data: Buffer, q: Poly, r: Poly)
    requires Divides(data, q, r)
    ensures forall i :: 0 <= i < 32 ==> BitsOf(CrcWord(data), 32)[i] == !r[i]
  {
    hide Run, FeedAll, Times, Message, BitsOf, Value, Dividend;
    var q' := RemainderExists(data);
    RemainderUnique(q, r, q', Run(Ones(), data));
    BitsOfValue(Crc(data));
  }
}
