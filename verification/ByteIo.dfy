/** The readers and writers of byte_io.h. `width` is the template argument B
    and `size` is sizeof(T). The generic loops and the fixed-width
    specialisations are methods on a buffer; what they promise is stated with
    the values and byte strings of module Bytes. */
module ByteIo {
  import opened Bytes

  // ---------------------------------------------------------------- generic unsigned readers

  /** The reading loop, most significant byte first. */
  method ReadBigEndian(data: array<byte>, at: nat, width: nat) returns (val: nat)
    requires at + width <= data.Length
    ensures val == BigEndianValue(data[at..at + width])
    ensures val < Pow256(width)
  {
    hide BitOr;
    val := 0;
    var i := 0;
    while i < width
      invariant i <= width
      invariant val == BigEndianValue(data[at..at + i]) * Pow256(width - i)
    {
      ghost var v := BigEndianValue(data[at..at + i]);
      BigEndianPlace(v, data[at + i], width - 1 - i);
      BigEndianValueSnoc(data[at..at + i], data[at + i]);
      assert data[at..at + i + 1] == data[at..at + i] + [data[at + i]];
      val := BitOr(val, data[at + i] * Pow256(width - 1 - i));
      i := i + 1;
    }
    BigEndianValueBound(data[at..at + width]);
  }

  lemma BigEndianPlace(v: nat, b: byte, k: nat)
    ensures BitOr(v * Pow256(k + 1), b * Pow256(k)) == (256 * v + b) * Pow256(k)
  {
    hide BitOr;
    var p := Pow256(k);
    assert Pow2(8 * k + 8) == 256 * p && Pow2(8 * k) == p by {
      Pow256IsPow2(k);
      Pow256IsPow2(k + 1);
    }
    MulAtMost(b, 255, p);
    OrIsAdd(v, b * p, 8 * k + 8);
    MulAssoc(v, 256, p);
    MulSum(256 * v, b, p);
  }

  lemma MulSum(x: nat, y: nat, p: nat)
    ensures (x + y) * p == x * p + y * p
  {}

  /** The reading loop, least significant byte first. */
  method ReadLittleEndian(data: array<byte>, at: nat, width: nat) returns (val: nat)
    requires at + width <= data.Length
    ensures val == LittleEndianValue(data[at..at + width])
    ensures val < Pow256(width)
  {
    hide BitOr;
    val := 0;
    var i := 0;
    while i < width
      invariant i <= width
      invariant val == LittleEndianValue(data[at..at + i])
      invariant val < Pow256(i)
    {
      LittleEndianPlace(val, data[at + i], i);
      assert data[at..at + i + 1] == data[at..at + i] + [data[at + i]];
      LittleEndianValueSnoc(data[at..at + i], data[at + i]);
      val := BitOr(val, data[at + i] * Pow256(i));
      i := i + 1;
    }
  }

  lemma MulAtMost(x: int, y: int, p: nat)
    requires x <= y
    ensures x * p <= y * p
  {}

  lemma LittleEndianPlace(v: nat, b: byte, k: nat)
    requires v < Pow256(k)
    ensures BitOr(v, b * Pow256(k)) == v + b * Pow256(k) < Pow256(k + 1)
  {
    Pow256IsPow2(k);
    OrIsAdd(b, v, 8 * k);
    MulAtMost(b, 255, Pow256(k));
  }

  // ---------------------------------------------------------------- generic unsigned writers

  /** Nothing outside the written bytes changes. */
  ghost predicate Written(before: seq<byte>, after: seq<byte>, at: nat, bytes: seq<byte>)
  {
    && at + |bytes| <= |before| == |after|
    && after == before[..at] + bytes + before[at + |bytes|..]
  }

  method WriteBigEndian(data: array<byte>, at: nat, width: nat, val: nat)
    requires at + width <= data.Length
    modifies data
    ensures Written(old(data[..]), data[..], at, BigEndian(val, width))
  {
    var i := 0;
    while i < width
      invariant i <= width
      invariant forall k :: 0 <= k < data.Length && !(at <= k < at + i) ==> data[k] == old(data[k])
      invariant forall k :: 0 <= k < i ==> data[at + k] == BigEndian(val, width)[k]
    {
      BigEndianAt(val, width, i);
      data[at + i] := (val / Pow256(width - 1 - i)) % 256;
      i := i + 1;
    }
    assert data[..] == old(data[..])[..at] + BigEndian(val, width) + old(data[..])[at + width..];
  }

  method WriteLittleEndian(data: array<byte>, at: nat, width: nat, val: nat)
    requires at + width <= data.Length
    modifies data
    ensures Written(old(data[..]), data[..], at, LittleEndian(val, width))
  {
    var i := 0;
    while i < width
      invariant i <= width
      invariant forall k :: 0 <= k < data.Length && !(at <= k < at + i) ==> data[k] == old(data[k])
      invariant forall k :: 0 <= k < i ==> data[at + k] == LittleEndian(val, width)[k]
    {
      LittleEndianAt(val, width, i);
      data[at + i] := (val / Pow256(i)) % 256;
      i := i + 1;
    }
    assert data[..] == old(data[..])[..at] + LittleEndian(val, width) + old(data[..])[at + width..];
  }

  // ---------------------------------------------------------------- fixed widths

  /** The weights of the higher bytes. */
  const BYTE1: int := 0x100
  const BYTE2: int := 0x1_0000
  const BYTE3: int := 0x100_0000
  const BYTE4: int := 0x1_0000_0000
  const BYTE5: int := 0x100_0000_0000
  const BYTE6: int := 0x1_0000_0000_0000
  const BYTE7: int := 0x100_0000_0000_0000

  /** `(data[0] << 8) | data[1]`. */
  method Read2(data: array<byte>, at: nat) returns (val: u16)
    requires at + 2 <= data.Length
    ensures val == Read16(data[..], at) == BigEndianValue(data[at..at + 2])
  {
    var b0: int := data[at];
    var b1: int := data[at + 1];
    Pow2Bytes();
    OrIsAdd(b0, b1, 8);
    Read16IsGeneric(data[..], at);
    assert data[..][at..at + 2] == data[at..at + 2];
    val := BitOr(b0 * 0x100, b1);
  }

  lemma Read16IsGeneric(s: seq<byte>, at: nat)
    requires at + 2 <= |s|
    ensures Read16(s, at) == BigEndianValue(s[at..at + 2])
  {
    var t := s[at..at + 2];
    assert t[..1][..0] == [];
    assert BigEndianValue(t[..1]) == s[at];
  }

  method Read4(data: array<byte>, at: nat) returns (val: u32)
    requires at + 4 <= data.Length
    ensures val == Read32(data[..], at) == BigEndianValue(data[at..at + 4])
  {
    var b0: int := data[at];
    var b1: int := data[at + 1];
    var b2: int := data[at + 2];
    var b3: int := data[at + 3];
    OrFourBytes(b0, b1, b2, b3);
    Read32IsGeneric(data[..], at);
    assert data[..][at..at + 4] == data[at..at + 4];
    val := BitOr(BitOr(BitOr(b0 * 0x100_0000, b1 * 0x1_0000), b2 * 0x100), b3);
  }

  lemma OrFourBytes(b0: nat, b1: nat, b2: nat, b3: nat)
    requires b1 < 256 && b2 < 256 && b3 < 256
    ensures BitOr(BitOr(BitOr(b0 * 0x100_0000, b1 * 0x1_0000), b2 * 0x100), b3)
         == b0 * 0x100_0000 + b1 * 0x1_0000 + b2 * 0x100 + b3
  {
    hide BitOr, Pow2;
    Pow2Bytes();
    OrIsAdd(b0, b1 * 0x1_0000, 24);
    OrIsAdd(b0 * 0x100 + b1, b2 * 0x100, 16);
    OrIsAdd(b0 * 0x1_0000 + b1 * 0x100 + b2, b3, 8);
  }

  lemma Pow2Bytes()
    ensures Pow2(8) == 0x100 && Pow2(16) == 0x1_0000 && Pow2(24) == 0x100_0000 && Pow2(32) == TWO32
  {
    Pow256IsPow2(1);
    Pow256IsPow2(2);
    Pow256IsPow2(3);
    Pow256IsPow2(4);
  }

  lemma Read32IsGeneric(s: seq<byte>, at: nat)
    requires at + 4 <= |s|
    ensures Read32(s, at) == BigEndianValue(s[at..at + 4])
  {
    var t := s[at..at + 4];
    Read16IsGeneric(s, at);
    assert t[..3][..2] == s[at..at + 2];
    assert BigEndianValue(t[..3]) == 256 * BigEndianValue(t[..3][..2]) + s[at + 2];
  }

  /** Eight shifted bytes, or-ed together. */
  method Read8(data: array<byte>, at: nat) returns (val: u64)
    requires at + 8 <= data.Length
    ensures val == BigEndianValue(data[at..at + 8])
  {
    hide BitOr, BigEndianValue;
    ghost var s := data[at..at + 8];
    OrEight(s);
    val := BitOr(BitOr(BitOr(BitOr(BitOr(BitOr(BitOr(
             data[at] * BYTE7,
             data[at + 1] * BYTE6),
             data[at + 2] * BYTE5),
             data[at + 3] * BYTE4),
             data[at + 4] * BYTE3),
             data[at + 5] * BYTE2),
             data[at + 6] * BYTE1),
             data[at + 7]);
  }

  /** One more byte below the i bytes already in place. */
  lemma PlaceBelow(s: seq<byte>, i: nat)
    requires i < |s|
    ensures BitOr(BigEndianValue(s[..i]) * Pow256(|s| - i), s[i] * Pow256(|s| - i - 1))
         == BigEndianValue(s[..i + 1]) * Pow256(|s| - i - 1)
  {
    hide BitOr, Pow256, BigEndianValue;
    BigEndianPlace(BigEndianValue(s[..i]), s[i], |s| - i - 1);
    BigEndianValueSnoc(s[..i], s[i]);
    assert s[..i + 1] == s[..i] + [s[i]];
  }

  /** One more byte above the i bytes already in place. */
  lemma PlaceAbove(s: seq<byte>, i: nat)
    requires i < |s|
    ensures BitOr(LittleEndianValue(s[..i]), s[i] * Pow256(i)) == LittleEndianValue(s[..i + 1])
    ensures i == 0 ==> LittleEndianValue(s[..i + 1]) == s[0]
  {
    hide BitOr, Pow256;
    LittleEndianValueSnoc(s[..i], s[i]);
    LittleEndianPlace(LittleEndianValue(s[..i]), s[i], i);
    assert s[..i + 1] == s[..i] + [s[i]];
  }

  lemma OrEight(s: seq<byte>)
    requires |s| == 8
    ensures BigEndianValue(s) < TWO64
    ensures BitOr(BitOr(BitOr(BitOr(BitOr(BitOr(BitOr(s[0] * BYTE7, s[1] * BYTE6), s[2] * BYTE5), s[3] * BYTE4),
              s[4] * BYTE3), s[5] * BYTE2), s[6] * BYTE1), s[7]) == BigEndianValue(s)
  {
    hide BitOr, Pow256, BigEndianValue;
    Powers();
    FirstByte(s);
    PlaceBelow(s, 1);
    PlaceBelow(s, 2);
    PlaceBelow(s, 3);
    PlaceBelow(s, 4);
    PlaceBelow(s, 5);
    PlaceBelow(s, 6);
    PlaceBelow(s, 7);
    assert s[..8] == s;
    EightBytesBound(s);
  }

  lemma OrEightUp(s: seq<byte>)
    requires |s| == 8
    ensures LittleEndianValue(s) < TWO64
    ensures BitOr(BitOr(BitOr(BitOr(BitOr(BitOr(BitOr(s[0], s[1] * BYTE1), s[2] * BYTE2), s[3] * BYTE3),
              s[4] * BYTE4), s[5] * BYTE5), s[6] * BYTE6), s[7] * BYTE7) == LittleEndianValue(s)
  {
    hide BitOr, Pow256, LittleEndianValue;
    Powers();
    PlaceAbove(s, 0);
    PlaceAbove(s, 1);
    PlaceAbove(s, 2);
    PlaceAbove(s, 3);
    PlaceAbove(s, 4);
    PlaceAbove(s, 5);
    PlaceAbove(s, 6);
    PlaceAbove(s, 7);
    assert s[..8] == s;
    EightBytesBound(s);
  }

  lemma FirstByte(s: seq<byte>)
    requires s != []
    ensures BigEndianValue(s[..1]) == s[0]
  {
    assert s[..1][..0] == [];
  }

  lemma EightBytesBound(s: seq<byte>)
    requires |s| == 8
    ensures BigEndianValue(s) < TWO64 && LittleEndianValue(s) < TWO64
  {
    hide BigEndianValue, LittleEndianValue;
    BigEndianValueBound(s);
    LittleEndianValueSnoc(s, 0);
    assert Pow256(8) == TWO64 by { Powers(); }
  }

  // ---------------------------------------------------------------- fixed widths, little endian

  /** `data[0] | (data[1] << 8)`, and likewise below: the same bytes in the other order. */
  method ReadLittle2(data: array<byte>, at: nat) returns (val: u16)
    requires at + 2 <= data.Length
    ensures val == LittleEndianValue(data[at..at + 2])
  {
    ghost var s := data[at..at + 2];
    Powers();
    PlaceAbove(s, 0);
    PlaceAbove(s, 1);
    assert s[..2] == s;
    LittleEndianValueSnoc(s, 0);
    val := BitOr(data[at], data[at + 1] * BYTE1);
  }

  method ReadLittle4(data: array<byte>, at: nat) returns (val: u32)
    requires at + 4 <= data.Length
    ensures val == LittleEndianValue(data[at..at + 4])
  {
    hide BitOr, LittleEndianValue;
    ghost var s := data[at..at + 4];
    Powers();
    PlaceAbove(s, 0);
    PlaceAbove(s, 1);
    PlaceAbove(s, 2);
    PlaceAbove(s, 3);
    assert s[..4] == s;
    LittleEndianValueSnoc(s, 0);
    val := BitOr(BitOr(BitOr(data[at], data[at + 1] * BYTE1), data[at + 2] * BYTE2), data[at + 3] * BYTE3);
  }

  method ReadLittle8(data: array<byte>, at: nat) returns (val: u64)
    requires at + 8 <= data.Length
    ensures val == LittleEndianValue(data[at..at + 8])
  {
    hide BitOr, LittleEndianValue;
    ghost var s := data[at..at + 8];
    OrEightUp(s);
    val := BitOr(BitOr(BitOr(BitOr(BitOr(BitOr(BitOr(
             data[at],
             data[at + 1] * BYTE1),
             data[at + 2] * BYTE2),
             data[at + 3] * BYTE3),
             data[at + 4] * BYTE4),
             data[at + 5] * BYTE5),
             data[at + 6] * BYTE6),
             data[at + 7] * BYTE7);
  }

  // ---------------------------------------------------------------- fixed-width writers

  method Write1(data: array<byte>, at: nat, val: byte)
    requires at < data.Length
    modifies data
    ensures Written(old(data[..]), data[..], at, [val])
  {
    data[at] := val;
  }

  method Write2(data: array<byte>, at: nat, val: nat)
    requires at + 2 <= data.Length
    modifies data
    ensures Written(old(data[..]), data[..], at, Be16(val))
  {
    data[at] := val / 0x100 % 0x100;
    data[at + 1] := val % 0x100;
  }

  method Write4(data: array<byte>, at: nat, val: nat)
    requires at + 4 <= data.Length
    modifies data
    ensures Written(old(data[..]), data[..], at, Be32(val))
  {
    data[at] := val / 0x100_0000 % 0x100;
    data[at + 1] := val / 0x1_0000 % 0x100;
    data[at + 2] := val / 0x100 % 0x100;
    data[at + 3] := val % 0x100;
  }

  method WriteLittle2(data: array<byte>, at: nat, val: nat)
    requires at + 2 <= data.Length
    modifies data
    ensures Written(old(data[..]), data[..], at, Le16(val))
  {
    data[at] := val % 0x100;
    data[at + 1] := val / 0x100 % 0x100;
  }

  method WriteLittle4(data: array<byte>, at: nat, val: nat)
    requires at + 4 <= data.Length
    modifies data
    ensures Written(old(data[..]), data[..], at, Le32(val))
  {
    data[at] := val % 0x100;
    data[at + 1] := val / 0x100 % 0x100;
    data[at + 2] := val / 0x1_0000 % 0x100;
    data[at + 3] := val / 0x100_0000 % 0x100;
  }

  function Le16(v: nat): (s: seq<byte>)
    ensures |s| == 2
  {
    [v % 0x100, v / 0x100 % 0x100]
  }

  function Le32(v: nat): (s: seq<byte>)
    ensures |s| == 4
  {
    [v % 0x100, v / 0x100 % 0x100, v / 0x1_0000 % 0x100, v / 0x100_0000 % 0x100]
  }

  function Be64(v: nat): (s: seq<byte>)
    ensures |s| == 8
  {
    [v / BYTE7 % 0x100, v / BYTE6 % 0x100, v / BYTE5 % 0x100, v / BYTE4 % 0x100,
     v / 0x100_0000 % 0x100, v / 0x1_0000 % 0x100, v / 0x100 % 0x100, v % 0x100]
  }

  function Le64(v: nat): (s: seq<byte>)
    ensures |s| == 8
  {
    [v % 0x100, v / 0x100 % 0x100, v / 0x1_0000 % 0x100, v / 0x100_0000 % 0x100,
     v / BYTE4 % 0x100, v / BYTE5 % 0x100, v / BYTE6 % 0x100, v / BYTE7 % 0x100]
  }

  method Write8(data: array<byte>, at: nat, val: u64)
    requires at + 8 <= data.Length
    modifies data
    ensures Written(old(data[..]), data[..], at, Be64(val))
  {
    hide Be64;
    ghost var s := Be64(val);
    EightBytes(val);
    data[at] := val / BYTE7 % 0x100;
    data[at + 1] := val / BYTE6 % 0x100;
    data[at + 2] := val / BYTE5 % 0x100;
    data[at + 3] := val / BYTE4 % 0x100;
    data[at + 4] := val / 0x100_0000 % 0x100;
    data[at + 5] := val / 0x1_0000 % 0x100;
    data[at + 6] := val / 0x100 % 0x100;
    data[at + 7] := val % 0x100;
    assert data[at..at + 8] == s;
    Stored(old(data[..]), data[..], at, s);
  }

  method WriteLittle8(data: array<byte>, at: nat, val: u64)
    requires at + 8 <= data.Length
    modifies data
    ensures Written(old(data[..]), data[..], at, Le64(val))
  {
    hide Le64;
    ghost var s := Le64(val);
    EightBytes(val);
    data[at] := val % 0x100;
    data[at + 1] := val / 0x100 % 0x100;
    data[at + 2] := val / 0x1_0000 % 0x100;
    data[at + 3] := val / 0x100_0000 % 0x100;
    data[at + 4] := val / BYTE4 % 0x100;
    data[at + 5] := val / BYTE5 % 0x100;
    data[at + 6] := val / BYTE6 % 0x100;
    data[at + 7] := val / BYTE7 % 0x100;
    assert data[at..at + 8] == s;
    Stored(old(data[..]), data[..], at, s);
  }

  lemma EightBytes(v: nat)
    ensures Be64(v) == [v / BYTE7 % 0x100, v / BYTE6 % 0x100, v / BYTE5 % 0x100, v / BYTE4 % 0x100,
                        v / 0x100_0000 % 0x100, v / 0x1_0000 % 0x100, v / 0x100 % 0x100, v % 0x100]
    ensures Le64(v) == [v % 0x100, v / 0x100 % 0x100, v / 0x1_0000 % 0x100, v / 0x100_0000 % 0x100,
                        v / BYTE4 % 0x100, v / BYTE5 % 0x100, v / BYTE6 % 0x100, v / BYTE7 % 0x100]
  {}

  lemma Stored(before: seq<byte>, after: seq<byte>, at: nat, bytes: seq<byte>)
    requires at + |bytes| <= |before| == |after| && after[at..at + |bytes|] == bytes
    requires after[..at] == before[..at] && after[at + |bytes|..] == before[at + |bytes|..]
    ensures Written(before, after, at, bytes)
  {
    assert after == after[..at] + after[at..at + |bytes|] + after[at + |bytes|..];
  }

  /** Every fixed-width writer stores the same bytes as the generic loop. */
  lemma FixedWritersAreGeneric(v: nat)
    ensures Be16(v) == BigEndian(v, 2) && Be32(v) == BigEndian(v, 4) && Be64(v) == BigEndian(v, 8)
    ensures Le16(v) == LittleEndian(v, 2) && Le32(v) == LittleEndian(v, 4) && Le64(v) == LittleEndian(v, 8)
  {
    TwoByteWriters(v);
    FourByteWriters(v);
    EightByteWriters(v);
  }

  lemma TwoByteWriters(v: nat)
    ensures Be16(v) == BigEndian(v, 2) && Le16(v) == LittleEndian(v, 2)
  {
    hide Pow256, BigEndian, LittleEndian;
    Powers();
    BigEndianAt(v, 2, 0);
    BigEndianAt(v, 2, 1);
    LittleEndianAt(v, 2, 0);
    LittleEndianAt(v, 2, 1);
  }

  lemma FourByteWriters(v: nat)
    ensures Be32(v) == BigEndian(v, 4) && Le32(v) == LittleEndian(v, 4)
  {
    hide Pow256, BigEndian, LittleEndian;
    Powers();
    forall i: nat | i < 4 ensures Be32(v)[i] == BigEndian(v, 4)[i] {
      BigEndianAt(v, 4, i);
    }
    forall i: nat | i < 4 ensures Le32(v)[i] == LittleEndian(v, 4)[i] {
      LittleEndianAt(v, 4, i);
    }
  }

  lemma EightByteWriters(v: nat)
    ensures Be64(v) == BigEndian(v, 8) && Le64(v) == LittleEndian(v, 8)
  {
    hide Pow256, BigEndian, LittleEndian;
    Powers();
    forall i: nat | i < 8 ensures Be64(v)[i] == BigEndian(v, 8)[i] {
      BigEndianAt(v, 8, i);
    }
    forall i: nat | i < 8 ensures Le64(v)[i] == LittleEndian(v, 8)[i] {
      LittleEndianAt(v, 8, i);
    }
  }

  lemma Powers()
    ensures Pow256(0) == 1 && Pow256(1) == 0x100 && Pow256(2) == 0x1_0000 && Pow256(3) == 0x100_0000
    ensures Pow256(4) == BYTE4 && Pow256(5) == BYTE5 && Pow256(6) == BYTE6 && Pow256(7) == BYTE7
  {
    assert Pow256(2) == 0x1_0000;
    assert Pow256(4) == BYTE4;
    assert Pow256(6) == BYTE6;
  }

  // ---------------------------------------------------------------- signed values

  /** The two's complement range of a number of bytes. */
  predicate InSignedRange(x: int, width: nat)
  {
    -(Pow256(width) as int) <= 2 * x < Pow256(width)
  }

  /** `ReinterpretAsUnsigned`: the value modulo 256^size. */
  function AsUnsigned(x: int, size: nat): nat { x % Pow256(size) }

  /** `ReinterpretAsSigned`: clear the top bit, then put it back as the minimum of T. */
  function AsSigned(u: nat, size: nat): int
  {
    if 2 * u >= Pow256(size) then (u - Pow256(size) / 2) - Pow256(size) / 2 else u
  }

  /** `SignExtend`: when the top bit of the low `width` bytes is set, or in ones above them.
      The source builds the mask with `1 <<` on an int, which is defined for width <= 3. */
  function SignExtend(u: nat, width: nat, size: nat): nat
    requires 1 <= width <= 3 && width < size
  {
    if u / Pow256(width - 1) % 256 >= 128
    then BitOr((Pow256(size - width) - 1) * Pow256(width), u)
    else u
  }

  /** The signed readers' last steps on the unsigned value of `width` bytes. */
  function SignedOf(u: nat, width: nat, size: nat): int
    requires 1 <= width <= size && (width <= 3 || width == size)
  {
    AsSigned(if width < size then SignExtend(u, width, size) else u, size)
  }

  /** The low p of the two's complement image modulo q * p. */
  lemma LowImage(x: int, p: nat, q: nat)
    requires p > 0 && q > 0 && 0 <= x + p && x < p
    ensures x % (q * p) == if x >= 0 then x else q * p + x
    ensures (x % (q * p)) % p == if x >= 0 then x else p + x
  {
    MulAtMost(1, q, p);
    if x >= 0 {
      DivMod(x, q * p, 0, x);
      DivMod(x, p, 0, x);
    } else {
      DivMod(x, q * p, -1, x + q * p);
      MulSub(q, 1, p);
      DivMod(x + q * p, p, q - 1, x + p);
    }
  }

  /** Sign extension fills every byte above the low p with ones. */
  lemma ExtendNegative(u: nat, width: nat, size: nat)
    requires 1 <= width <= 3 && width < size
    requires u < Pow256(width) <= 2 * u
    ensures SignExtend(u, width, size) == Pow256(size) - Pow256(width) + u
  {
    hide BitOr, Pow256;
    var p, q := Pow256(width), Pow256(size - width);
    TopByte(u, width);
    Pow256IsPow2(width);
    OrIsAdd(q - 1, u, 8 * width);
    calc {
      SignExtend(u, width, size);
      (q - 1) * p + u;
      { MulSub(q, 1, p); }
      q * p - p + u;
      { Pow256Add(size - width, width); }
      Pow256(size) - p + u;
    }
  }

  /** The low bytes of a signed value's image carry the value. */
  lemma SignedImage(x: int, width: nat, size: nat)
    requires 1 <= width <= size && (width <= 3 || width == size)
    requires InSignedRange(x, width)
    ensures SignedOf(AsUnsigned(x, size) % Pow256(width), width, size) == x
  {
    hide BitOr, Pow256, SignExtend;
    var p, q := Pow256(width), Pow256(size - width);
    Pow256Add(size - width, width);
    LowImage(x, p, q);
    MulAtMost(1, q, p);
    Pow256Even(width);
    Pow256Even(size);
    if width < size {
      if x < 0 {
        ExtendNegative(p + x, width, size);
      } else {
        ExtendPositive(x, width, size);
        TwiceBelow(p, q, size - width);
      }
    }
  }

  /** A signed write followed by a signed read is the identity on the range of
      `width` bytes, in both byte orders. */
  lemma SignedRoundTrip(x: int, width: nat, size: nat)
    requires 1 <= width <= size && (width <= 3 || width == size)
    requires InSignedRange(x, width)
    ensures SignedOf(BigEndianValue(BigEndian(AsUnsigned(x, size), width)), width, size) == x
    ensures SignedOf(LittleEndianValue(LittleEndian(AsUnsigned(x, size), width)), width, size) == x
  {
    hide SignedOf, AsUnsigned, BigEndian, LittleEndian, BigEndianValue, LittleEndianValue;
    BigEndianRoundTrip(AsUnsigned(x, size), width);
    LittleEndianRoundTrip(AsUnsigned(x, size), width);
    SignedImage(x, width, size);
  }

  /** What a signed reader makes of any bytes: the value in the two's complement
      range of that many bytes that agrees with them modulo 256^width. */
  lemma SignedIsTwosComplement(u: nat, width: nat, size: nat)
    requires 1 <= width <= size && (width <= 3 || width == size) && u < Pow256(width)
    ensures InSignedRange(SignedOf(u, width, size), width)
    ensures SignedOf(u, width, size) == if 2 * u < Pow256(width) then u else u - Pow256(width)
  {
    hide BitOr, Pow256, SignExtend;
    var p, q := Pow256(width), Pow256(size - width);
    Pow256Even(width);
    Pow256Even(size);
    if width < size {
      Pow256Add(size - width, width);
      TwiceBelow(p, q, size - width);
      if 2 * u < p {
        ExtendPositive(u, width, size);
      } else {
        ExtendNegative(u, width, size);
      }
    }
  }

  lemma Pow256Even(n: nat)
    requires n > 0
    ensures Pow256(n) % 2 == 0 && Pow256(n) >= 2
  {}

  lemma TwiceBelow(p: nat, q: nat, k: nat)
    requires k > 0 && q == Pow256(k)
    ensures 2 * p <= q * p
  {
    MulAtMost(2, q, p);
  }

  /** A clear sign bit leaves the value alone. */
  lemma ExtendPositive(u: nat, width: nat, size: nat)
    requires 1 <= width <= 3 && width < size && 2 * u < Pow256(width)
    ensures SignExtend(u, width, size) == u
  {
    TopByte(u, width);
  }

  /** The sign bit is the top bit of the most significant byte. */
  lemma TopByte(u: nat, width: nat)
    requires 1 <= width && u < Pow256(width)
    ensures u / Pow256(width - 1) % 256 >= 128 <==> 2 * u >= Pow256(width)
  {
    var p := Pow256(width - 1);
    var k, r := u / p, u % p;
    assert u == p * k + r;
    TopByteBound(p, k, r);
  }

  lemma TopByteBound(p: nat, k: nat, r: nat)
    requires r < p && p * k + r < 256 * p
    ensures k < 256
    ensures k >= 128 <==> 2 * (p * k + r) >= 256 * p
  {
    if k >= 128 {
      MulAtMost(128, k, p);
    } else {
      MulAtMost(k, 127, p);
    }
    if k >= 256 {
      MulAtMost(256, k, p);
      assert false;
    }
  }
}
