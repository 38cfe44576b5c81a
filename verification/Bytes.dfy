/** Fixed-width integers, bytes and their big-endian and little-endian values.
    The C++ bit operations on disjoint fields (`hi << k | lo`) are written with
    `BitOr`, a bitwise or on naturals; `OrSplit` is the law that lets a proof
    replace it by addition. */
module Bytes {

  type byte = x: int | 0 <= x < 0x100
  type u16 = x: int | 0 <= x < 0x1_0000
  type u32 = x: int | 0 <= x < 0x1_0000_0000
  type u64 = x: int | 0 <= x < 0x1_0000_0000_0000_0000

  const TWO16: int := 0x1_0000
  const TWO32: int := 0x1_0000_0000
  const TWO64: int := 0x1_0000_0000_0000_0000

  function Min(a: int, b: int): int { if a <= b then a else b }

  function Max(a: int, b: int): int { if a <= b then b else a }

  /** A whole number of zero bytes. */
  function Zeros(n: nat): (s: seq<byte>)
    ensures |s| == n
  {
    seq(n, _ => 0)
  }

  // ---------------------------------------------------------------- powers

  function Pow2(n: nat): (p: nat)
    ensures p > 0
  {
    if n == 0 then 1 else 2 * Pow2(n - 1)
  }

  function Pow256(n: nat): (p: nat)
    ensures p > 0
  {
    if n == 0 then 1 else 256 * Pow256(n - 1)
  }

  lemma {:induction false} Pow256IsPow2(n: nat)
    ensures Pow256(n) == Pow2(8 * n)
  {
    if n > 0 {
      Pow256IsPow2(n - 1);
      var k := 8 * (n - 1);
      assert Pow2(k + 8) == 2 * Pow2(k + 7) == 4 * Pow2(k + 6) == 8 * Pow2(k + 5) == 16 * Pow2(k + 4);
      assert Pow2(k + 4) == 2 * Pow2(k + 3) == 4 * Pow2(k + 2) == 8 * Pow2(k + 1) == 16 * Pow2(k);
    }
  }

  lemma {:induction false} Pow256Add(m: nat, n: nat)
    ensures Pow256(m + n) == Pow256(m) * Pow256(n)
  {
    if m > 0 {
      Pow256Add(m - 1, n);
      MulAssoc(256, Pow256(m - 1), Pow256(n));
    }
  }

  lemma MulAssoc(a: int, b: int, c: int)
    ensures a * b * c == a * (b * c)
  {}

  // ---------------------------------------------------------------- bitwise or

  /** Bitwise or of two naturals, one binary digit at a time. */
  function BitOr(a: nat, b: nat): nat
    decreases a + b
  {
    if a == 0 then b
    else if b == 0 then a
    else 2 * BitOr(a / 2, b / 2) + (if a % 2 == 1 || b % 2 == 1 then 1 else 0)
  }

  lemma BitOrUnfold(a: nat, b: nat)
    ensures BitOr(a, b) == 2 * BitOr(a / 2, b / 2) + (if a % 2 == 1 || b % 2 == 1 then 1 else 0)
  {
    if a == 0 {
      assert BitOr(0, b / 2) == b / 2;
    } else if b == 0 {
      assert BitOr(a / 2, 0) == a / 2;
    }
  }

  /** a shifted left by k binary digits. */
  function Shift(a: nat, k: nat): nat
  {
    if k == 0 then a else 2 * Shift(a, k - 1)
  }

  lemma {:induction false} ShiftIsProduct(a: nat, k: nat)
    ensures Shift(a, k) == a * Pow2(k)
  {
    if k > 0 {
      ShiftIsProduct(a, k - 1);
      MulAssoc(a, 2, Pow2(k - 1));
    }
  }

  /** Bitwise or works separately on the high digits and on the k low digits. */
  lemma {:induction false} OrSplit(a: nat, c: nat, b: nat, d: nat, k: nat)
    requires b < Pow2(k) && d < Pow2(k)
    ensures BitOr(Shift(a, k) + b, Shift(c, k) + d) == Shift(BitOr(a, c), k) + BitOr(b, d)
  {
    if k > 0 {
      OrSplit(a, c, b / 2, d / 2, k - 1);
      BitOrUnfold(Shift(a, k) + b, Shift(c, k) + d);
      BitOrUnfold(b, d);
    }
  }

  /** A field placed below the lowest set digit of the other operand is added. */
  lemma OrIsAdd(a: nat, d: nat, k: nat)
    requires d < Pow2(k)
    ensures BitOr(a * Pow2(k), d) == a * Pow2(k) + d
    ensures BitOr(d, a * Pow2(k)) == a * Pow2(k) + d
  {
    OrSplit(a, 0, 0, d, k);
    OrSplit(0, a, d, 0, k);
    ShiftIsProduct(a, k);
    ShiftIsProduct(0, k);
  }

  // ---------------------------------------------------------------- exclusive or

  /** Exclusive or of two naturals, one binary digit at a time. */
  function BitXor(a: nat, b: nat): nat
    decreases a + b
  {
    if a == 0 then b
    else if b == 0 then a
    else 2 * BitXor(a / 2, b / 2) + (a + b) % 2
  }

  lemma BitXorUnfold(a: nat, b: nat)
    ensures BitXor(a, b) == 2 * BitXor(a / 2, b / 2) + (a + b) % 2
  {
    hide BitXor;
    var x, y := a / 2, b / 2;
    if a == 0 {
      BitXorNothing(b);
      BitXorNothing(y);
    } else if b == 0 {
      BitXorNothing(a);
      BitXorNothing(x);
    } else {
      BitXorBoth(a, b);
    }
  }

  lemma BitXorNothing(b: nat)
    ensures BitXor(0, b) == b && BitXor(b, 0) == b
  {}

  lemma BitXorBoth(a: nat, b: nat)
    requires a > 0 && b > 0
    ensures BitXor(a, b) == 2 * BitXor(a / 2, b / 2) + (a + b) % 2
  {}

  lemma BitXorHalf(a: nat, b: nat, x: nat)
    requires x == BitXor(a, b)
    ensures x / 2 == BitXor(a / 2, b / 2) && x % 2 == (a + b) % 2
  {
    hide BitXor;
    BitXorUnfold(a, b);
  }

  lemma {:induction false} XorComm(a: nat, b: nat)
    ensures BitXor(a, b) == BitXor(b, a)
    decreases a + b
  {
    if a > 0 && b > 0 {
      XorComm(a / 2, b / 2);
    }
  }

  lemma {:induction false} XorAssoc(a: nat, b: nat, c: nat)
    ensures BitXor(BitXor(a, b), c) == BitXor(a, BitXor(b, c))
    decreases a + b + c
  {
    if a > 0 && b > 0 && c > 0 {
      XorAssoc(a / 2, b / 2, c / 2);
      XorAssocStep(a, b, c);
    }
  }

  lemma XorAssocStep(a: nat, b: nat, c: nat)
    requires BitXor(BitXor(a / 2, b / 2), c / 2) == BitXor(a / 2, BitXor(b / 2, c / 2))
    ensures BitXor(BitXor(a, b), c) == BitXor(a, BitXor(b, c))
  {
    hide BitXor;
    var x, y := BitXor(a, b), BitXor(b, c);
    BitXorHalf(a, b, x);
    BitXorHalf(b, c, y);
    var l, r := BitXor(x, c), BitXor(a, y);
    BitXorHalf(x, c, l);
    BitXorHalf(a, y, r);
    ParitySum(a, b, c, x, y);
    SameHalves(l, r);
  }

  lemma SameHalves(u: nat, v: nat)
    requires u / 2 == v / 2 && u % 2 == v % 2
    ensures u == v
  {}

  lemma ParitySum(a: nat, b: nat, c: nat, x: nat, y: nat)
    requires x % 2 == (a + b) % 2 && y % 2 == (b + c) % 2
    ensures (x + c) % 2 == (a + y) % 2
  {}

  /** Exclusive or is zero exactly on equal operands. */
  lemma {:induction false} XorZero(a: nat, b: nat)
    ensures BitXor(a, b) == 0 <==> a == b
    decreases a + b
  {
    if a > 0 && b > 0 {
      XorZero(a / 2, b / 2);
    }
  }

  lemma {:induction false} XorBound(a: nat, b: nat, k: nat)
    requires a < Pow2(k) && b < Pow2(k)
    ensures BitXor(a, b) < Pow2(k)
  {
    if k > 0 {
      XorBound(a / 2, b / 2, k - 1);
      BitXorUnfold(a, b);
    }
  }

  /** (a ^ b) ^ (c ^ d) == (a ^ c) ^ (b ^ d). */
  lemma XorSwap(a: nat, b: nat, c: nat, d: nat)
    ensures BitXor(BitXor(a, b), BitXor(c, d)) == BitXor(BitXor(a, c), BitXor(b, d))
  {
    calc {
      BitXor(BitXor(a, b), BitXor(c, d));
      { XorAssoc(a, b, BitXor(c, d)); }
      BitXor(a, BitXor(b, BitXor(c, d)));
      { XorAssoc(b, c, d); XorComm(b, c); XorAssoc(c, b, d); }
      BitXor(a, BitXor(c, BitXor(b, d)));
      { XorAssoc(a, c, BitXor(b, d)); }
      BitXor(BitXor(a, c), BitXor(b, d));
    }
  }

  // ---------------------------------------------------------------- division

  lemma MulAtLeast(k: int, b: int)
    requires k >= 1 && b > 0
    ensures k * b >= b
  {}

  lemma MulSub(x: int, y: int, b: int)
    ensures (x - y) * b == x * b - y * b
  {}

  lemma DivMod(a: int, b: int, q: int, r: int)
    requires b > 0 && a == q * b + r && 0 <= r < b
    ensures a / b == q && a % b == r
  {
    var q', r' := a / b, a % b;
    assert a == b * q' + r';
    if q' < q {
      MulAtLeast(q - q', b);
      MulSub(q, q', b);
    } else if q' > q {
      MulAtLeast(q' - q, b);
      MulSub(q', q, b);
    }
  }

  /** Splitting off a low byte commutes with quotient and remainder. */
  lemma ModStep(v: nat, p: nat)
    requires p > 0
    ensures v % (256 * p) == 256 * ((v / 256) % p) + v % 256
    ensures (v / 256) / p == v / (256 * p)
  {
    var w := v / 256;
    var q, r := w / p, w % p;
    assert w == p * q + r;
    MulAssoc(q, 256, p);
    DivMod(v, 256 * p, q, 256 * r + v % 256);
  }

  lemma HalveThenDivide(v: nat, p: nat)
    requires p > 0
    ensures (v / 2) / p == v / (2 * p)
  {
    var w := v / 2;
    var q, r := w / p, w % p;
    assert w == p * q + r;
    MulAssoc(q, 2, p);
    DivMod(v, 2 * p, q, 2 * r + v % 2);
  }

  // ---------------------------------------------------------------- big endian

  /** The n-byte big-endian form of the low n bytes of v. */
  function BigEndian(v: nat, n: nat): (s: seq<byte>)
    ensures |s| == n
  {
    if n == 0 then [] else BigEndian(v / 256, n - 1) + [v % 256]
  }

  /** The number a big-endian byte string stands for. */
  function BigEndianValue(s: seq<byte>): nat
  {
    if s == [] then 0 else 256 * BigEndianValue(s[..|s| - 1]) + s[|s| - 1]
  }

  lemma BigEndianValueSnoc(s: seq<byte>, b: byte)
    ensures BigEndianValue(s + [b]) == 256 * BigEndianValue(s) + b
  {
    assert (s + [b])[..|s|] == s;
  }

  lemma {:induction false} BigEndianValueBound(s: seq<byte>)
    ensures BigEndianValue(s) < Pow256(|s|)
  {
    if s != [] {
      BigEndianValueBound(s[..|s| - 1]);
    }
  }

  /** Writing n bytes and reading them back keeps exactly the low n bytes. */
  lemma {:induction false} BigEndianRoundTrip(v: nat, n: nat)
    ensures BigEndianValue(BigEndian(v, n)) == v % Pow256(n)
  {
    if n > 0 {
      var s := BigEndian(v, n);
      assert s[..n - 1] == BigEndian(v / 256, n - 1);
      BigEndianRoundTrip(v / 256, n - 1);
      ModStep(v, Pow256(n - 1));
    }
  }

  /** Reading and writing back reproduces the bytes. */
  lemma {:induction false} BigEndianOfValue(s: seq<byte>)
    ensures BigEndian(BigEndianValue(s), |s|) == s
  {
    if s != [] {
      BigEndianOfValue(s[..|s| - 1]);
      var v := BigEndianValue(s[..|s| - 1]);
      assert (256 * v + s[|s| - 1]) / 256 == v && (256 * v + s[|s| - 1]) % 256 == s[|s| - 1];
      assert s == s[..|s| - 1] + [s[|s| - 1]];
    }
  }

  /** Byte i of the big-endian form is the value shifted right and truncated. */
  lemma {:induction false} BigEndianAt(v: nat, n: nat, i: nat)
    requires i < n
    ensures BigEndian(v, n)[i] == (v / Pow256(n - 1 - i)) % 256
  {
    if i < n - 1 {
      BigEndianAt(v / 256, n - 1, i);
      ModStep(v, Pow256(n - 2 - i));
    }
  }

  // ---------------------------------------------------------------- little endian

  function LittleEndian(v: nat, n: nat): (s: seq<byte>)
    ensures |s| == n
  {
    if n == 0 then [] else [v % 256] + LittleEndian(v / 256, n - 1)
  }

  function LittleEndianValue(s: seq<byte>): nat
  {
    if s == [] then 0 else s[0] + 256 * LittleEndianValue(s[1..])
  }

  function Reverse(s: seq<byte>): (r: seq<byte>)
    ensures |r| == |s|
  {
    if s == [] then [] else [s[|s| - 1]] + Reverse(s[..|s| - 1])
  }

  /** The two orders write the same bytes, reversed. */
  lemma {:induction false} LittleIsReversedBig(v: nat, n: nat)
    ensures LittleEndian(v, n) == Reverse(BigEndian(v, n))
  {
    if n > 0 {
      LittleIsReversedBig(v / 256, n - 1);
      var s := BigEndian(v, n);
      assert s[..n - 1] == BigEndian(v / 256, n - 1);
    }
  }

  lemma {:induction false} LittleValueIsReversedBig(s: seq<byte>)
    ensures BigEndianValue(s) == LittleEndianValue(Reverse(s))
  {
    if s != [] {
      LittleValueIsReversedBig(s[..|s| - 1]);
      assert Reverse(s)[1..] == Reverse(s[..|s| - 1]);
    }
  }

  lemma LittleEndianRoundTrip(v: nat, n: nat)
    ensures LittleEndianValue(LittleEndian(v, n)) == v % Pow256(n)
  {
    BigEndianRoundTrip(v, n);
    LittleIsReversedBig(v, n);
    LittleValueIsReversedBig(BigEndian(v, n));
  }

  lemma {:induction false} LittleEndianValueSnoc(s: seq<byte>, b: byte)
    ensures LittleEndianValue(s + [b]) == LittleEndianValue(s) + b * Pow256(|s|)
    ensures LittleEndianValue(s) < Pow256(|s|)
  {
    if s == [] {
      assert [b][1..] == [];
    } else {
      assert (s + [b])[1..] == s[1..] + [b];
      LittleEndianValueSnoc(s[1..], b);
      var p := Pow256(|s| - 1);
      assert 256 * (b * p) == b * (256 * p);
    }
  }

  lemma {:induction false} LittleEndianAt(v: nat, n: nat, i: nat)
    requires i < n
    ensures LittleEndian(v, n)[i] == (v / Pow256(i)) % 256
  {
    if i > 0 {
      LittleEndianAt(v / 256, n - 1, i - 1);
      ModStep(v, Pow256(i - 1));
    }
  }

  // ---------------------------------------------------------------- common widths

  function Be16(v: nat): (s: seq<byte>)
    ensures |s| == 2
  {
    [v / 0x100 % 0x100, v % 0x100]
  }

  function Be32(v: nat): (s: seq<byte>)
    ensures |s| == 4
  {
    [v / 0x100_0000 % 0x100, v / 0x1_0000 % 0x100, v / 0x100 % 0x100, v % 0x100]
  }

  function Read16(s: seq<byte>, at: nat): (v: u16)
    requires at + 2 <= |s|
  {
    0x100 * (s[at] as int) + s[at + 1]
  }

  function Read32(s: seq<byte>, at: nat): (v: u32)
    requires at + 4 <= |s|
  {
    0x100_0000 * (s[at] as int) + 0x1_0000 * (s[at + 1] as int) + 0x100 * (s[at + 2] as int) + s[at + 3]
  }

  lemma Be16RoundTrip(v: nat)
    ensures Read16(Be16(v), 0) == v % TWO16
  {
    var a := v / 0x100;
    DivMod(v, TWO16, a / 0x100, Read16(Be16(v), 0));
  }

  lemma Be32RoundTrip(v: nat)
    ensures Read32(Be32(v), 0) == v % TWO32
  {
    var a := v / 0x100;
    var b := a / 0x100;
    var c := b / 0x100;
    assert v / 0x1_0000 == b && v / 0x100_0000 == c;
    DivMod(v, TWO32, c / 0x100, Read32(Be32(v), 0));
  }

  lemma Read16Slice(s: seq<byte>, at: nat)
    requires at + 2 <= |s|
    ensures Read16(s, at) == Read16(s[at..at + 2], 0)
  {}

  lemma Read32Slice(s: seq<byte>, at: nat)
    requires at + 4 <= |s|
    ensures Read32(s, at) == Read32(s[at..at + 4], 0)
  {}

  lemma Assoc<T>(a: seq<T>, b: seq<T>, c: seq<T>)
    ensures a + (b + c) == a + b + c
  {}

  /** A slice of a slice. */
  lemma SliceSlice<T>(s: seq<T>, i: nat, j: nat, a: nat, b: nat)
    requires i <= j <= |s| && a <= b <= j - i
    ensures s[i..j][a..b] == s[i + a..i + b]
  {
    var l, r := s[i..j][a..b], s[i + a..i + b];
    assert |l| == |r|;
    forall k | 0 <= k < b - a ensures l[k] == r[k] {}
    assert l == r;
  }

  /** A slice of what follows position i. */
  lemma DropSlice<T>(s: seq<T>, i: nat, a: nat, b: nat)
    requires i <= |s| && a <= b <= |s| - i
    ensures s[i..][a..b] == s[i + a..i + b] && s[i..][a..] == s[i + a..]
  {
    var l, r := s[i..][a..b], s[i + a..i + b];
    assert |l| == |r|;
    forall k | 0 <= k < b - a ensures l[k] == r[k] {}
    assert l == r;
    var l', r' := s[i..][a..], s[i + a..];
    assert |l'| == |r'|;
    forall k | 0 <= k < |l'| ensures l'[k] == r'[k] {}
    assert l' == r';
  }

  /** Two parts of a concatenation. */
  lemma Split<T>(a: seq<T>, b: seq<T>)
    ensures (a + b)[..|a|] == a && (a + b)[|a|..] == b
  {}
}
