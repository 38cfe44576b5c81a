/** CRC-32 as a remainder of polynomials over bits, with every constant written
    out (ISO 3309, as RFC 5389, section 15.5 refers to it), and the fingerprint
    against it. */
module CrcReference {
  import opened Bytes
  import opened Crc32

  // ---------------------------------------------------------------- the reference

  /** The exponents of the generator polynomial. */
  const EXPONENTS: set<int> := {32, 26, 23, 22, 16, 12, 11, 10, 8, 7, 5, 4, 2, 1, 0}

  /** Its coefficients, highest power first. */
  function Generator(): (g: seq<bool>)
    ensures |g| == 33
  {
    seq(33, i requires 0 <= i < 33 => 32 - i in EXPONENTS)
  }

  function Sum(a: seq<bool>, b: seq<bool>): (s: seq<bool>)
    requires |a| == |b|
    ensures |s| == |a|
  {
    seq(|a|, i requires 0 <= i < |a| => a[i] != b[i])
  }

  function Complement(a: seq<bool>): (s: seq<bool>)
    ensures |s| == |a|
  {
    seq(|a|, i requires 0 <= i < |a| => !a[i])
  }

  function Zero(n: nat): (s: seq<bool>)
    ensures |s| == n
  {
    seq(n, _ => false)
  }

  /** Long division by the generator, highest power first. */
  function Remainder(bits: seq<bool>): (r: seq<bool>)
    requires |bits| >= 32
    ensures |r| == 32
    decreases |bits|
  {
    if |bits| == 32 then bits
    else if bits[0] then Remainder(Sum(bits[..33], Generator())[1..] + bits[33..])
    else Remainder(bits[1..])
  }

  /** The bits of a message in the order of transmission, low bit of each byte first. */
  function MessageBits(data: seq<byte>): (s: seq<bool>)
    ensures |s| == 8 * |data|
  {
    seq(8 * |data|, i requires 0 <= i < 8 * |data| => (data[i / 8] as int) / Pow2(i % 8) % 2 == 1)
  }

  /** The message times x^32 with its first 32 bits complemented, divided; the
      complement of the remainder is the checksum. */
  function Checksum(data: seq<byte>): (s: seq<bool>)
    ensures |s| == 32
  {
    var m := MessageBits(data) + Zero(32);
    Complement(Remainder(Complement(m[..32]) + m[32..]))
  }

  /** A bit string as a number, the first bit lowest. */
  function Value(bits: seq<bool>): nat
  {
    if bits == [] then 0 else (if bits[0] then 1 else 0) + 2 * Value(bits[1..])
  }

  // ---------------------------------------------------------------- words as bit strings

  lemma {:induction false} ValueIsPack(bits: seq<bool>)
    ensures Value(bits) == Pack(bits)
    decreases |bits|
  {
    if bits != [] {
      ValueIsPack(bits[1..]);
    }
  }

  lemma {:induction false} XorBits(a: nat, b: nat, k: nat)
    ensures BitsOfNat(BitXor(a, b), k) == Sum(BitsOfNat(a, k), BitsOfNat(b, k))
    decreases k
  {
    hide BitXor;
    if k > 0 {
      BitXorHalf(a, b, BitXor(a, b));
      XorBits(a / 2, b / 2, k - 1);
      XorParity(a, b);
    }
  }

  lemma XorParity(a: nat, b: nat)
    ensures (a + b) % 2 == 1 <==> (a % 2 == 1) != (b % 2 == 1)
  {}

  lemma {:induction false} HalfBits(c: nat, k: nat)
    requires c < Pow2(k) && k > 0
    ensures BitsOfNat(c / 2, k) == BitsOfNat(c, k)[1..] + [false]
    decreases k
  {
    if k == 1 {
      assert BitsOfNat(c / 2, 1) == [false];
    } else {
      HalfBits(c / 2, k - 1);
    }
  }

  lemma {:induction false} BitAt(n: nat, k: nat, i: nat)
    requires i < k
    ensures BitsOfNat(n, k)[i] == (n / Pow2(i) % 2 == 1)
    decreases i
  {
    if i > 0 {
      BitAt(n / 2, k - 1, i - 1);
      HalveThenDivide(n, Pow2(i - 1));
    }
  }

  function ByteBits(b: nat): (s: seq<bool>)
    ensures |s| == 8
  {
    [b % 2 == 1, b / 2 % 2 == 1, b / 4 % 2 == 1, b / 8 % 2 == 1,
     b / 16 % 2 == 1, b / 32 % 2 == 1, b / 64 % 2 == 1, b / 128 % 2 == 1]
  }

  lemma {:induction false} FourBits(n: nat, k: nat)
    requires k >= 4
    ensures BitsOfNat(n, k)
         == [n % 2 == 1, n / 2 % 2 == 1, n / 2 / 2 % 2 == 1, n / 2 / 2 / 2 % 2 == 1] + BitsOfNat(n / 16, k - 4)
  {
    var a := n / 2;
    var b := a / 2;
    var c := b / 2;
    assert c / 2 == n / 16;
    assert BitsOfNat(n, k) == [n % 2 == 1] + BitsOfNat(a, k - 1);
    assert BitsOfNat(a, k - 1) == [a % 2 == 1] + BitsOfNat(b, k - 2);
    assert BitsOfNat(b, k - 2) == [b % 2 == 1] + BitsOfNat(c, k - 3);
    assert BitsOfNat(c, k - 3) == [c % 2 == 1] + BitsOfNat(c / 2, k - 4);
  }

  /** The constant of the table holds the generator below x^32, highest power in
      the lowest bit. */
  lemma PolynomialBits()
    ensures BitsOfNat(POLYNOMIAL, 32) == Generator()[1..]
  {
    hide BitsOfNat;
    FourBits(0xEDB8_8320, 32);
    FourBits(0xEDB_8832, 28);
    FourBits(0xED_B883, 24);
    FourBits(0xE_DB88, 20);
    FourBits(0xEDB8, 16);
    FourBits(0xEDB, 12);
    FourBits(0xED, 8);
    FourBits(0xE, 4);
    NoBits(0);
  }

  lemma NoBits(n: nat)
    ensures BitsOfNat(n, 0) == []
  {}

  lemma {:induction false} OnesBits(k: nat)
    ensures BitsOfNat(Pow2(k) - 1, k) == Complement(Zero(k))
    decreases k
  {
    if k > 0 {
      OnesBits(k - 1);
      assert (Pow2(k) - 1) / 2 == Pow2(k - 1) - 1;
      assert Complement(Zero(k)) == [true] + Complement(Zero(k - 1));
    }
  }

  // ---------------------------------------------------------------- the register is the remainder

  /** The first 32 bits of a dividend, with a word added. */
  function AddFront(c: nat, m: seq<bool>): (s: seq<bool>)
    requires |m| >= 32
    ensures |s| == |m|
  {
    Sum(BitsOfNat(c, 32), m[..32]) + m[32..]
  }

  /** One step of the register is one step of the long division. */
  lemma DivideStep(c: u32, b: bool, m: seq<bool>)
    requires |m| >= 32
    ensures Remainder(AddFront(c, [b] + m)) == Remainder(AddFront(BitStep(BitXor(c, Bit(b))), m))
  {
    hide BitXor, BitStep, BitsOfNat, Generator, Remainder, Bit;
    var n, h := [b] + m, BitsOfNat(c, 32);
    var w := AddFront(c, n);
    RemainderStep(w);
    FrontDrops(h, b, m);
    NextBits(c, b);
    if w[0] {
      SumMoves(w, Generator(), h[1..] + [false], m[..32]);
      assert w[33..] == m[32..];
    }
  }

  /** The bits of the next register: shifted, with the generator added if the bit
      shifted out differs from the message bit. */
  lemma NextBits(c: u32, b: bool)
    ensures var h, shifted := BitsOfNat(c, 32), BitsOfNat(c, 32)[1..] + [false];
            BitsOfNat(BitStep(BitXor(c, Bit(b))), 32) == if h[0] != b then Sum(Generator()[1..], shifted) else shifted
  {
    hide BitXor, BitsOfNat, Generator;
    Pow2Word();
    LowBit(c, b);
    FirstBit(c, 32);
    HalfBits(c, 32);
    if c % 2 == 1 <==> !b {
      XorBits(POLYNOMIAL, c / 2, 32);
      PolynomialBits();
    }
  }

  lemma FrontDrops(h: seq<bool>, b: bool, m: seq<bool>)
    requires |h| == 32 <= |m|
    ensures var n := [b] + m; var w := Sum(h, n[..32]) + n[32..];
            && w[0] == (h[0] != b) && w[1..] == Sum(h[1..] + [false], m[..32]) + m[32..]
  {
    var n := [b] + m;
    var w := Sum(h, n[..32]) + n[32..];
    var l, r := w[1..], Sum(h[1..] + [false], m[..32]) + m[32..];
    assert |l| == |r| == |m|;
    forall i | 0 <= i < |m| ensures l[i] == r[i] {
      assert n[i + 1] == m[i] && l[i] == w[i + 1];
      if i < 31 {
        assert w[i + 1] == (h[i + 1] != n[i + 1]);
      } else {
        assert w[i + 1] == n[i + 1];
      }
    }
    assert l == r;
  }

  lemma SumMoves(w: seq<bool>, g: seq<bool>, h: seq<bool>, m: seq<bool>)
    requires |w| >= 33 == |g| && |h| == |m| == 32 && w[1..33] == Sum(h, m)
    ensures Sum(w[..33], g)[1..] == Sum(Sum(g[1..], h), m)
  {
    forall i | 0 <= i < 32 ensures Sum(w[..33], g)[1..][i] == Sum(Sum(g[1..], h), m)[i] {
      assert w[i + 1] == w[1..33][i];
    }
  }

  lemma RemainderStep(w: seq<bool>)
    requires |w| > 32
    ensures Remainder(w) ==
            if w[0] then Remainder(Sum(w[..33], Generator())[1..] + w[33..]) else Remainder(w[1..])
  {}

  lemma FirstBit(n: nat, k: nat)
    requires k > 0
    ensures BitsOfNat(n, k)[0] == (n % 2 == 1)
  {}

  lemma LowBit(c: nat, b: bool)
    ensures BitXor(c, Bit(b)) / 2 == c / 2 && (BitXor(c, Bit(b)) % 2 == 1 <==> (c % 2 == 1) != b)
  {
    BitXorHalf(c, Bit(b), BitXor(c, Bit(b)));
    BitXorNothing(c / 2);
  }

  /** Dividing bit by bit leaves the remainder of the long division. */
  lemma {:induction false} DivideIsRemainder(c: u32, bits: seq<bool>)
    ensures Remainder(AddFront(c, bits + Zero(32))) == BitsOfNat(Divide(c, bits), 32)
    decreases |bits|
  {
    hide BitXor, BitStep, BitsOfNat, Remainder, AddFront;
    if bits == [] {
      assert [] + Zero(32) == Zero(32);
      NothingLeft(c);
    } else {
      var rest := bits[1..] + Zero(32);
      assert bits + Zero(32) == [bits[0]] + rest;
      DivideStep(c, bits[0], rest);
      NextBound(c, bits[0]);
      DivideIsRemainder(BitStep(BitXor(c, Bit(bits[0]))), bits[1..]);
    }
  }

  lemma NothingLeft(c: nat)
    ensures Remainder(AddFront(c, Zero(32))) == BitsOfNat(c, 32)
  {
    hide BitsOfNat;
    assert AddFront(c, Zero(32)) == BitsOfNat(c, 32);
  }

  lemma NextBound(c: u32, b: bool)
    ensures BitStep(BitXor(c, Bit(b))) < TWO32
  {
    hide BitXor, BitStep;
    Pow2Word();
    XorBound(c, Bit(b), 32);
    BitStepBound(BitXor(c, Bit(b)));
  }

  // ---------------------------------------------------------------- messages

  lemma {:induction false} MessageBitsAre(data: seq<byte>)
    ensures BitsOf(data) == MessageBits(data)
  {
    hide BitsOfNat;
    if data != [] {
      var n := |data| - 1;
      MessageBitsAre(data[..n]);
      forall i | 0 <= i < 8 * |data| ensures BitsOf(data)[i] == MessageBits(data)[i] {
        if i < 8 * n {
          assert MessageBits(data)[i] == MessageBits(data[..n])[i];
        } else {
          BitAt(data[n], 8, i - 8 * n);
          assert i / 8 == n && i % 8 == i - 8 * n;
        }
      }
    }
  }

  lemma WordOfBits(v: nat, bits: seq<bool>)
    requires v < TWO32 && bits == BitsOfNat(v, 32)
    ensures Value(bits) == v
  {
    hide BitsOfNat;
    Pow2Word();
    PackOfNat(v, 32);
    ValueIsPack(bits);
  }

  lemma AllOnes()
    ensures BitsOfNat(ONES, 32) == Complement(Zero(32))
  {
    Pow2Word();
    OnesBits(32);
  }

  /** The fingerprint is the CRC-32 of the text, xored with 0x5354554E. */
  lemma FingerprintIsChecksum(data: seq<byte>)
    ensures Fingerprint(data) == BitXor(Value(Checksum(data)), 0x5354_554E)
  {
    hide BitXor, BitsOfNat, Divide, Remainder, BitsOf, MessageBits;
    var bits, c := BitsOf(data), Divide(ONES, BitsOf(data));
    MessageBitsAre(data);
    AllOnes();
    var m := bits + Zero(32);
    assert AddFront(ONES, m) == Complement(m[..32]) + m[32..];
    DivideIsRemainder(ONES, bits);
    XorBits(c, ONES, 32);
    assert Checksum(data) == BitsOfNat(BitXor(c, ONES), 32);
    DivideBound(ONES, bits);
    Pow2Word();
    XorBound(c, ONES, 32);
    WordOfBits(BitXor(c, ONES), Checksum(data));
  }
}
