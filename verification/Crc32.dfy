/** The checksum of the STUN FINGERPRINT attribute: a table-driven loop over
    bytes, shown equal to division by the CRC-32 polynomial one bit at a time,
    and the errors it never misses. */
module Crc32 {
  import opened Bytes

  const POLYNOMIAL: u32 := 0xEDB8_8320
  const ONES: u32 := 0xFFFF_FFFF
  const FINGERPRINT_XOR: u32 := 0x5354_554E

  // ---------------------------------------------------------------- the reference: one bit at a time

  /** One division step: shift out the low bit and subtract the polynomial if it was set. */
  function BitStep(c: nat): nat
  {
    if c % 2 == 1 then BitXor(POLYNOMIAL, c / 2) else c / 2
  }

  function Bit(b: bool): nat { if b then 1 else 0 }

  /** Divide a bit string, first bit first. */
  function Divide(c: nat, bits: seq<bool>): nat
    decreases |bits|
  {
    if bits == [] then c else Divide(BitStep(BitXor(c, Bit(bits[0]))), bits[1..])
  }

  /** The k low binary digits of a number, least significant first. */
  function BitsOfNat(n: nat, k: nat): (bits: seq<bool>)
    ensures |bits| == k
    decreases k
  {
    if k == 0 then [] else [n % 2 == 1] + BitsOfNat(n / 2, k - 1)
  }

  /** The bits of a message: byte by byte, least significant bit first. */
  function BitsOf(data: seq<byte>): (bits: seq<bool>)
    ensures |bits| == 8 * |data|
  {
    if data == [] then [] else BitsOf(data[..|data| - 1]) + BitsOfNat(data[|data| - 1], 8)
  }

  /** The fingerprint of a message. */
  function Fingerprint(data: seq<byte>): nat
  {
    BitXor(BitXor(Divide(ONES, BitsOf(data)), ONES), FINGERPRINT_XOR)
  }

  // ---------------------------------------------------------------- algebra of the step

  function Steps(c: nat, n: nat): nat
    decreases n
  {
    if n == 0 then c else Steps(BitStep(c), n - 1)
  }

  lemma Pow2Byte()
    ensures Pow2(8) == 256
  {
    assert Pow2(4) == 16;
  }

  lemma Pow2Word()
    ensures Pow2(31) == 0x8000_0000 && Pow2(32) == TWO32
  {
    assert Pow2(7) == 128 by { assert Pow2(4) == 16; }
    Pow256IsPow2(3);
    Pow256IsPow2(4);
    assert Pow2(32) == 2 * Pow2(31);
    assert Pow256(2) == 0x1_0000;
  }

  lemma BitStepLinear(a: nat, b: nat)
    ensures BitStep(BitXor(a, b)) == BitXor(BitStep(a), BitStep(b))
  {
    hide BitXor, BitStep;
    var z, x, y := BitXor(a, b), a / 2, b / 2;
    BitXorHalf(a, b, z);
    StepCases(POLYNOMIAL, x, y);
    var px, py := BitXor(POLYNOMIAL, x), BitXor(POLYNOMIAL, y);
    BitStepOf(a, x, px);
    BitStepOf(b, y, py);
    BitStepOf(z, BitXor(x, y), BitXor(POLYNOMIAL, BitXor(x, y)));
    Parity(a, b);
  }

  lemma BitStepOf(c: nat, half: nat, odd: nat)
    requires half == c / 2 && odd == BitXor(POLYNOMIAL, half)
    ensures BitStep(c) == if c % 2 == 1 then odd else half
  {}

  lemma Parity(a: nat, b: nat)
    ensures (a + b) % 2 == if (a % 2 == 1) == (b % 2 == 1) then 0 else 1
  {}

  lemma StepCases(p: nat, x: nat, y: nat)
    ensures BitXor(BitXor(p, x), BitXor(p, y)) == BitXor(x, y)
    ensures BitXor(BitXor(p, x), y) == BitXor(p, BitXor(x, y))
    ensures BitXor(x, BitXor(p, y)) == BitXor(p, BitXor(x, y))
  {
    assert BitXor(BitXor(p, x), BitXor(p, y)) == BitXor(x, y) by {
      XorSwap(p, x, p, y);
      XorZero(p, p);
    }
    XorAssoc(p, x, y);
    assert BitXor(x, BitXor(p, y)) == BitXor(p, BitXor(x, y)) by {
      XorAssoc(x, p, y);
      XorComm(x, p);
      XorAssoc(p, x, y);
    }
  }

  lemma {:induction false} StepsLinear(a: nat, b: nat, n: nat)
    ensures Steps(BitXor(a, b), n) == BitXor(Steps(a, n), Steps(b, n))
    decreases n
  {
    if n > 0 {
      BitStepLinear(a, b);
      StepsLinear(BitStep(a), BitStep(b), n - 1);
    }
  }

  lemma BitStepBound(c: nat)
    requires c < TWO32
    ensures BitStep(c) < TWO32
  {
    Pow2Word();
    XorBound(POLYNOMIAL, c / 2, 32);
  }

  lemma {:induction false} StepsBound(c: nat, n: nat)
    requires c < TWO32
    ensures Steps(c, n) < TWO32
    decreases n
  {
    if n > 0 {
      BitStepBound(c);
      StepsBound(BitStep(c), n - 1);
    }
  }

  /** Only zero steps to zero: the step is a bijection on 32-bit words. */
  lemma BitStepKernel(c: nat)
    requires c < TWO32 && BitStep(c) == 0
    ensures c == 0
  {
    XorZero(POLYNOMIAL, c / 2);
  }

  lemma {:induction false} StepsKernel(c: nat, n: nat)
    requires c < TWO32 && Steps(c, n) == 0
    ensures c == 0
    decreases n
  {
    if n > 0 {
      BitStepBound(c);
      StepsKernel(BitStep(c), n - 1);
      BitStepKernel(c);
    }
  }

  lemma {:induction false} DivideBound(c: nat, bits: seq<bool>)
    requires c < TWO32
    ensures Divide(c, bits) < TWO32
    decreases |bits|
  {
    if bits != [] {
      var x := BitXor(c, Bit(bits[0]));
      Pow2Word();
      XorBound(c, Bit(bits[0]), 32);
      BitStepBound(x);
      DivideBound(BitStep(x), bits[1..]);
    }
  }

  /** A fingerprint is a 32-bit word. */
  lemma FingerprintBound(data: seq<byte>)
    ensures Fingerprint(data) < TWO32
  {
    var c := Divide(ONES, BitsOf(data));
    DivideBound(ONES, BitsOf(data));
    Pow2Word();
    XorBound(c, ONES, 32);
    XorBound(BitXor(c, ONES), FINGERPRINT_XOR, 32);
  }

  lemma {:induction false} DivideConcat(c: nat, s: seq<bool>, t: seq<bool>)
    ensures Divide(c, s + t) == Divide(Divide(c, s), t)
    decreases |s|
  {
    if s == [] {
      assert s + t == t;
    } else {
      assert (s + t)[1..] == s[1..] + t;
      DivideConcat(BitStep(BitXor(c, Bit(s[0]))), s[1..], t);
    }
  }

  // ---------------------------------------------------------------- bit strings as words

  /** A bit string as a number, the first bit lowest. */
  function Pack(bits: seq<bool>): nat
    decreases |bits|
  {
    if bits == [] then 0 else 2 * Pack(bits[1..]) + Bit(bits[0])
  }

  lemma {:induction false} PackBound(bits: seq<bool>)
    ensures Pack(bits) < Pow2(|bits|)
    decreases |bits|
  {
    if bits != [] {
      PackBound(bits[1..]);
    }
  }

  lemma {:induction false} PackOfNat(n: nat, k: nat)
    requires n < Pow2(k)
    ensures Pack(BitsOfNat(n, k)) == n
    decreases k
  {
    if k > 0 {
      PackOfNat(n / 2, k - 1);
      assert BitsOfNat(n, k)[1..] == BitsOfNat(n / 2, k - 1);
    }
  }

  lemma XorEvenBit(w: nat, b: nat)
    requires b <= 1
    ensures BitXor(2 * w, b) == 2 * w + b
    ensures BitXor(w, 0) == w && BitStep(2 * w) == w
  {
    BitXorUnfold(2 * w, b);
  }

  /** Dividing a bit string is xoring it in as a word and stepping once per bit. */
  lemma {:induction false} DivideIsSteps(c: nat, bits: seq<bool>)
    ensures Divide(c, bits) == Steps(BitXor(c, Pack(bits)), |bits|)
    decreases |bits|
  {
    hide BitXor, BitStep;
    XorEvenBit(c, 0);
    if bits != [] {
      var w, b := Pack(bits[1..]), Bit(bits[0]);
      calc {
        BitXor(c, 2 * w + b);
        { XorEvenBit(w, b); }
        BitXor(c, BitXor(2 * w, b));
        { XorComm(2 * w, b); XorAssoc(c, b, 2 * w); }
        BitXor(BitXor(c, b), 2 * w);
      }
      XorEvenBit(w, b);
      BitStepLinear(BitXor(c, b), 2 * w);
      DivideIsSteps(BitStep(BitXor(c, b)), bits[1..]);
    }
  }

  // ---------------------------------------------------------------- the table-driven loop

  /** Stepping k times is stepping the k low digits and shifting the rest down. */
  lemma StepsAreLookup(h: nat, l: nat, k: nat)
    requires l < Pow2(k)
    ensures Steps(Shift(h, k) + l, k) == BitXor(Steps(l, k), h)
  {
    XorHighLow(h, l, k);
    XorComm(Shift(h, k), l);
    StepsLinear(l, Shift(h, k), k);
    ShiftOut(h, k);
  }

  lemma XorAboveBit(s: nat, l: nat)
    requires BitXor(s, l / 2) == s + l / 2
    ensures BitXor(2 * s, l) == 2 * s + l
  {
    hide BitXor;
    BitXorHalf(2 * s, l, BitXor(2 * s, l));
    SameHalves(BitXor(2 * s, l), 2 * s + l);
  }

  lemma {:induction false} XorHighLow(h: nat, l: nat, k: nat)
    requires l < Pow2(k)
    ensures BitXor(Shift(h, k), l) == Shift(h, k) + l
  {
    hide BitXor;
    if k > 0 {
      XorHighLow(h, l / 2, k - 1);
      XorAboveBit(Shift(h, k - 1), l);
    } else {
      BitXorNothing(h);
    }
  }

  /** Stepping k times a word whose k low digits are zero shifts them out. */
  lemma {:induction false} ShiftOut(h: nat, k: nat)
    ensures Steps(Shift(h, k), k) == h
  {
    if k > 0 {
      ShiftOut(h, k - 1);
      assert BitStep(2 * Shift(h, k - 1)) == Shift(h, k - 1);
    }
  }

  /** One round of the loop divides the eight bits of one byte. */
  lemma ByteRound(c: nat, d: byte)
    ensures BitXor(Steps(BitXor(c, d) % 256, 8), c / 256) == Divide(c, BitsOfNat(d, 8))
  {
    hide BitXor, BitStep, Steps, Divide, BitsOfNat;
    Pow2Byte();
    PackOfNat(d, 8);
    DivideIsSteps(c, BitsOfNat(d, 8));
    XorHighDigits(c, d, 8);
    var x := BitXor(c, d);
    ShiftIsProduct(x / 256, 8);
    StepsAreLookup(x / 256, x % 256, 8);
  }

  /** A number below 2^k xored into a word leaves the digits above alone. */
  lemma {:induction false} XorHighDigits(c: nat, d: nat, k: nat)
    requires d < Pow2(k)
    ensures BitXor(c, d) / Pow2(k) == c / Pow2(k)
    decreases k
  {
    hide BitXor;
    if k > 0 {
      var x, p := BitXor(c, d), Pow2(k - 1);
      XorHighDigits(c / 2, d / 2, k - 1);
      BitXorHalf(c, d, x);
      HalveThenDivide(c, p);
      HalveThenDivide(x, p);
    } else {
      assert d == 0;
      XorZero(BitXor(c, 0), c);
      BitXorNothing(c);
    }
  }

  class Crc32Table {
    const table: array<u32>

    ghost predicate Valid()
      reads this, table
    {
      table.Length == 256 && forall i :: 0 <= i < 256 ==> table[i] == Steps(i, 8)
    }

    constructor ()
      ensures Valid() && fresh(table)
    {
      hide Steps;
      table := new u32[256](_ => 0);
      new;
      var i := 0;
      while i < 256
        invariant i <= 256 && table.Length == 256 && fresh(table)
        invariant forall k :: 0 <= k < i ==> table[k] == Steps(k, 8)
      {
        var c := Entry(i);
        table[i] := c;
        i := i + 1;
      }
    }

    /** The inner loop of the constructor. */
    static method Entry(i: u32) returns (c: u32)
      ensures c == Steps(i, 8)
    {
      c := i;
      var j := 0;
      while j < 8
        invariant j <= 8
        invariant Steps(c, 8 - j) == Steps(i, 8)
      {
        BitStepBound(c);
        if c % 2 == 1 {
          c := BitXor(POLYNOMIAL, c / 2);
        } else {
          c := c / 2;
        }
        j := j + 1;
      }
    }

    /** The checksum loop returns what dividing one bit at a time returns. */
    method CalculateXorCrc(data: array<byte>, size: nat) returns (r: u32)
      requires Valid() && size <= data.Length
      ensures r == Fingerprint(data[..size])
    {
      Pow2Word();
      XorZero(0, 0);
      var crc: u32 := 0;
      var c: u32 := BitXor(crc, ONES);
      var i := 0;
      while i < size
        invariant i <= size
        invariant c == Divide(ONES, BitsOf(data[..i]))
      {
        ByteRound(c, data[i]);
        DivideConcat(ONES, BitsOf(data[..i]), BitsOfNat(data[i], 8));
        assert data[..i + 1][..i] == data[..i];
        XorBound(table[BitXor(c, data[i]) % 256], c / 256, 32);
        c := BitXor(table[BitXor(c, data[i]) % 256], c / 256);
        i := i + 1;
      }
      XorBound(c, ONES, 32);
      crc := BitXor(c, ONES);
      XorBound(crc, FINGERPRINT_XOR, 32);
      return BitXor(crc, FINGERPRINT_XOR);
    }
  }

  // ---------------------------------------------------------------- errors that are always detected

  /** The difference of two bit strings of one length. */
  function Difference(s: seq<bool>, t: seq<bool>): (d: seq<bool>)
    requires |s| == |t|
    ensures |d| == |s|
    ensures forall i :: 0 <= i < |s| ==> (d[i] <==> s[i] != t[i])
  {
    seq(|s|, i requires 0 <= i < |s| => s[i] != t[i])
  }

  /** The remainders of two bit strings differ by the remainder of their difference. */
  lemma {:induction false} DivideLinear(a: nat, b: nat, s: seq<bool>, t: seq<bool>)
    requires |s| == |t|
    ensures BitXor(Divide(a, s), Divide(b, t)) == Divide(BitXor(a, b), Difference(s, t))
    decreases |s|
  {
    if s != [] {
      var x, y := Bit(s[0]), Bit(t[0]);
      assert BitXor(x, y) == Bit(Difference(s, t)[0]);
      XorSwap(a, x, b, y);
      BitStepLinear(BitXor(a, x), BitXor(b, y));
      DivideLinear(BitStep(BitXor(a, x)), BitStep(BitXor(b, y)), s[1..], t[1..]);
      assert Difference(s, t)[1..] == Difference(s[1..], t[1..]);
    } else {
      assert Difference(s, t) == [];
    }
  }

  /** Two bit strings agree outside the window of 32 bits that starts at p. */
  predicate SameOutside(s: seq<bool>, t: seq<bool>, p: nat)
  {
    |s| == |t| && forall i :: 0 <= i < |s| && !(p <= i < p + 32) ==> s[i] == t[i]
  }

  predicate AllZero(bits: seq<bool>)
  {
    forall i :: 0 <= i < |bits| ==> !bits[i]
  }

  lemma {:induction false} PackAllZero(bits: seq<bool>)
    ensures Pack(bits) == 0 <==> AllZero(bits)
    decreases |bits|
  {
    if bits != [] {
      PackAllZero(bits[1..]);
      assert forall i :: 1 <= i < |bits| ==> bits[i] == bits[1..][i - 1];
    }
  }

  lemma {:induction false} StepsOfZero(n: nat)
    ensures Steps(0, n) == 0
    decreases n
  {
    if n > 0 {
      StepsOfZero(n - 1);
    }
  }

  /** A difference confined to 32 consecutive bits leaves a non-zero remainder. */
  lemma BurstRemainder(d: seq<bool>, p: nat, q: nat)
    requires p <= q <= |d| && q - p <= 32
    requires AllZero(d[..p]) && AllZero(d[q..]) && !AllZero(d[p..q])
    ensures Divide(0, d) != 0
  {
    var w := d[p..q];
    assert d == d[..p] + (w + d[q..]);
    DivideConcat(0, d[..p], w + d[q..]);
    DivideConcat(0, w, d[q..]);
    PackAllZero(d[..p]);
    DivideIsSteps(0, d[..p]);
    StepsOfZero(p);
    PackAllZero(w);
    PackBound(w);
    Pow2Monotone(|w|, 32);
    Pow2Word();
    DivideIsSteps(0, w);
    var c := Divide(0, w);
    StepsBound(Pack(w), |w|);
    if c == 0 {
      StepsKernel(Pack(w), |w|);
    }
    PackAllZero(d[q..]);
    DivideIsSteps(c, d[q..]);
    XorComm(c, 0);
    if Divide(c, d[q..]) == 0 {
      StepsKernel(c, |d| - q);
    }
  }

  lemma {:induction false} Pow2Monotone(k: nat, n: nat)
    requires k <= n
    ensures Pow2(k) <= Pow2(n)
    decreases n
  {
    if k < n {
      Pow2Monotone(k, n - 1);
    }
  }

  lemma ConcatEqual(a: seq<bool>, b: seq<bool>, c: seq<bool>, d: seq<bool>)
    requires |a| == |c| && a + b == c + d
    ensures a == c && b == d
  {
    Split(a, b);
    Split(c, d);
  }

  /** Different messages have different bits. */
  lemma {:induction false} BitsInjective(s: seq<byte>, t: seq<byte>)
    requires |s| == |t| && BitsOf(s) == BitsOf(t)
    ensures s == t
  {
    hide BitsOfNat, Pack, BitXor;
    if s != [] {
      var s', t' := s[..|s| - 1], t[..|t| - 1];
      var a, b := s[|s| - 1], t[|t| - 1];
      ConcatEqual(BitsOf(s'), BitsOfNat(a, 8), BitsOf(t'), BitsOfNat(b, 8));
      BitsInjective(s', t');
      Pow2Byte();
      PackOfNat(a, 8);
      PackOfNat(b, 8);
      assert s == s' + [a] && t == t' + [b];
    }
  }

  /** Two messages of one length that differ, but only inside a window of 32
      consecutive bits, never have the same fingerprint. */
  lemma BurstDetected(s: seq<byte>, t: seq<byte>, p: nat)
    requires |s| == |t| && s != t && SameOutside(BitsOf(s), BitsOf(t), p)
    ensures Fingerprint(s) != Fingerprint(t)
  {
    var a, b := BitsOf(s), BitsOf(t);
    if a == b {
      BitsInjective(s, t);
    }
    var d := Difference(a, b);
    var lo, hi := Min(p, |d|), Min(p + 32, |d|);
    DifferenceInWindow(a, b, p);
    BurstRemainder(d, lo, hi);
    if Fingerprint(s) == Fingerprint(t) {
      SameFingerprint(s, t);
    }
  }

  lemma DifferenceInWindow(a: seq<bool>, b: seq<bool>, p: nat)
    requires |a| == |b| && a != b && SameOutside(a, b, p)
    ensures var d, lo, hi := Difference(a, b), Min(p, |a|), Min(p + 32, |a|);
            AllZero(d[..lo]) && AllZero(d[hi..]) && !AllZero(d[lo..hi])
  {
    var d, lo, hi := Difference(a, b), Min(p, |a|), Min(p + 32, |a|);
    var i :| 0 <= i < |a| && a[i] != b[i];
    assert d[lo..hi][i - lo] == d[i];
  }

  /** Equal fingerprints mean that the difference divides out. */
  lemma SameFingerprint(s: seq<byte>, t: seq<byte>)
    requires |s| == |t| && Fingerprint(s) == Fingerprint(t)
    ensures Divide(0, Difference(BitsOf(s), BitsOf(t))) == 0
  {
    var x, y := Divide(ONES, BitsOf(s)), Divide(ONES, BitsOf(t));
    XorCancel(BitXor(x, ONES), BitXor(y, ONES), FINGERPRINT_XOR);
    XorCancel(x, y, ONES);
    XorZero(x, y);
    XorZero(ONES, ONES);
    DivideLinear(ONES, ONES, BitsOf(s), BitsOf(t));
  }

  lemma XorCancel(a: nat, b: nat, c: nat)
    ensures BitXor(a, c) == BitXor(b, c) ==> a == b
  {
    XorAssoc(a, c, c);
    XorAssoc(b, c, c);
    XorZero(c, c);
    XorComm(a, 0);
    XorComm(b, 0);
  }

  /** Messages that differ only inside such a window and share a fingerprint are equal. */
  lemma SameFingerprintSameBurst(s: seq<byte>, t: seq<byte>, p: nat)
    requires |s| == |t| && SameOutside(BitsOf(s), BitsOf(t), p) && Fingerprint(s) == Fingerprint(t)
    ensures s == t
  {
    hide Fingerprint, BitsOf, SameOutside;
    if s != t {
      BurstDetected(s, t, p);
    }
  }

  lemma {:induction false} BitsConcat(s: seq<byte>, t: seq<byte>)
    ensures BitsOf(s + t) == BitsOf(s) + BitsOf(t)
    decreases |t|
  {
    hide BitsOfNat;
    if t == [] {
      assert s + t == s;
    } else {
      var t' := t[..|t| - 1];
      assert (s + t)[..|s + t| - 1] == s + t';
      BitsConcat(s, t');
      Assoc(BitsOf(s), BitsOf(t'), BitsOfNat(t[|t| - 1], 8));
    }
  }

  /** The bits of a front and of a tail are a front and a tail of the bits. */
  lemma BitsSplit(s: seq<byte>, f: nat)
    requires f <= |s|
    ensures BitsOf(s[..f]) == BitsOf(s)[..8 * f] && BitsOf(s[f..]) == BitsOf(s)[8 * f..]
  {
    hide BitsOf;
    var u, v := s[..f], s[f..];
    assert s == u + v;
    BitsOfParts(u, v);
  }

  lemma BitsOfParts(u: seq<byte>, v: seq<byte>)
    ensures BitsOf(u) == BitsOf(u + v)[..8 * |u|] && BitsOf(v) == BitsOf(u + v)[8 * |u|..]
  {
    hide BitsOf;
    BitsConcat(u, v);
    Split(BitsOf(u), BitsOf(v));
  }

  /** Cutting both messages at one byte cuts the window too. */
  lemma SplitSameOutside(s: seq<byte>, t: seq<byte>, f: nat, p: nat)
    requires |s| == |t| && f <= |s| && SameOutside(BitsOf(s), BitsOf(t), p)
    ensures SameOutside(BitsOf(s[..f]), BitsOf(t[..f]), p)
    ensures p >= 8 * f ==> s[..f] == t[..f]
    ensures p + 32 <= 8 * f ==> s[f..] == t[f..]
  {
    hide BitsOf, SameOutside;
    BitsSplit(s, f);
    BitsSplit(t, f);
    SameParts(BitsOf(s), BitsOf(t), 8 * f, p);
    if p >= 8 * f {
      BitsInjective(s[..f], t[..f]);
    }
    if p + 32 <= 8 * f {
      BitsInjective(s[f..], t[f..]);
    }
  }

  lemma SameParts(a: seq<bool>, b: seq<bool>, n: nat, p: nat)
    requires |a| == |b| && n <= |a| && SameOutside(a, b, p)
    ensures SameOutside(a[..n], b[..n], p)
    ensures p >= n ==> a[..n] == b[..n]
    ensures p + 32 <= n ==> a[n..] == b[n..]
  {}
}
