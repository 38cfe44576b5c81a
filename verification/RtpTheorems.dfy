/** RTP parsing against an independent description of the packet (RFC 3550,
    section 5.1). */
module RtpTheorems {
  import opened Bytes
  import opened ByteIo
  import opened Rtp

  // ---------------------------------------------------------------- the packet as its parts

  datatype Block = NoBlock | Block(profile: u16, body: seq<byte>)

  /** A packet in the terms of the standard; `padding` includes its count byte. */
  datatype Parts = Parts(
    marker: bool, payloadType: byte, seqNum: u16, timestamp: u32, ssrc: u32,
    csrcs: seq<byte>, block: Block, payload: seq<byte>, padding: seq<byte>)

  predicate ValidParts(r: Parts)
  {
    && r.payloadType < 0x80
    && |r.csrcs| % 4 == 0 && |r.csrcs| < 64
    && (r.block.Block? ==> |r.block.body| % 4 == 0 && |r.block.body| < 4 * TWO16)
    && (r.padding != [] ==> |r.padding| < 0x100 && r.padding[|r.padding| - 1] == |r.padding|)
  }

  function Flag(b: bool, weight: nat): nat { if b then weight else 0 }

  function Fixed(r: Parts): (s: seq<byte>)
    requires ValidParts(r)
    ensures |s| == FIXED_HEADER_SIZE
  {
    [0x80 + Flag(r.padding != [], 0x20) + Flag(r.block.Block?, 0x10) + |r.csrcs| / 4,
     Flag(r.marker, 0x80) + r.payloadType]
    + Be16(r.seqNum) + Be32(r.timestamp) + Be32(r.ssrc)
  }

  function BlockBytes(b: Block): seq<byte>
  {
    match b
    case NoBlock => []
    case Block(profile, body) => Be16(profile) + Be16(|body| / 4) + body
  }

  function Encode(r: Parts): seq<byte>
    requires ValidParts(r)
  {
    Fixed(r) + r.csrcs + BlockBytes(r.block) + r.payload + r.padding
  }

  /** What Parse should leave in the object for these parts. */
  function ParsedOf(p: Packet, r: Parts): Packet
    requires ValidParts(r)
  {
    var at := FIXED_HEADER_SIZE + |r.csrcs| + |BlockBytes(r.block)|;
    Packet(r.marker, r.payloadType, r.seqNum, r.timestamp, r.ssrc, at, |r.payload|, |r.padding|,
           if r.block.Block? && Supported(r.block.profile)
           then WalkExtensions(Encode(r), FIXED_HEADER_SIZE + |r.csrcs| + 4, |r.block.body|, r.block.profile, 0, p.exts)
           else p.exts)
  }

  lemma FixedReads(r: Parts, data: seq<byte>)
    requires ValidParts(r) && |data| >= FIXED_HEADER_SIZE && data[..FIXED_HEADER_SIZE] == Fixed(r)
    ensures data[0] / 0x40 == 2 && HeaderEnd(data) == FIXED_HEADER_SIZE + |r.csrcs|
    ensures HasPadding(data) <==> r.padding != []
    ensures HasExtension(data) <==> r.block.Block?
    ensures data[1] / 0x80 != 0 <==> r.marker
    ensures data[1] % 0x80 == r.payloadType
    ensures Read16(data, 2) == r.seqNum && Read32(data, 4) == r.timestamp && Read32(data, 8) == r.ssrc
  {
    var f := data[..FIXED_HEADER_SIZE];
    assert data[0] == f[0] && data[1] == f[1];
    FirstByte(r.padding != [], r.block.Block?, |r.csrcs| / 4);
    FixedWords(r, data);
  }

  lemma FixedWords(r: Parts, data: seq<byte>)
    requires ValidParts(r) && |data| >= FIXED_HEADER_SIZE && data[..FIXED_HEADER_SIZE] == Fixed(r)
    ensures Read16(data, 2) == r.seqNum && Read32(data, 4) == r.timestamp && Read32(data, 8) == r.ssrc
  {
    hide Be16, Be32, Read16, Read32;
    var f := data[..FIXED_HEADER_SIZE];
    assert f[2..4] == Be16(r.seqNum) && f[4..8] == Be32(r.timestamp) && f[8..12] == Be32(r.ssrc);
    assert data[2..4] == f[2..4] && data[4..8] == f[4..8] && data[8..12] == f[8..12];
    Be16RoundTrip(r.seqNum);
    Be32RoundTrip(r.timestamp);
    Be32RoundTrip(r.ssrc);
    Read16Slice(data, 2);
    Read32Slice(data, 4);
    Read32Slice(data, 8);
  }

  lemma FirstByte(pad: bool, ext: bool, cc: nat)
    requires cc < 16
    ensures var b := 0x80 + Flag(pad, 0x20) + Flag(ext, 0x10) + cc;
            b / 0x40 == 2 && b % 0x10 == cc && (b / 0x20 % 2 != 0 <==> pad) && (b / 0x10 % 2 != 0 <==> ext)
  {}

  /** The extension header in front of the block's body. */
  lemma BlockReads(r: Parts, data: seq<byte>, at: nat, rest: seq<byte>)
    requires ValidParts(r) && r.block.Block? && at <= |data| && data[at..] == BlockBytes(r.block) + rest
    ensures |data| == at + 4 + |r.block.body| + |rest|
    ensures Read16(data, at) == r.block.profile && 4 * (Read16(data, at + 2) as int) == |r.block.body|
  {
    var tail := data[at..];
    assert |tail| == |data| - at;
    Be16RoundTrip(r.block.profile);
    Be16RoundTrip(|r.block.body| / 4);
    assert tail[0..2] == Be16(r.block.profile) && tail[2..4] == Be16(|r.block.body| / 4);
    assert data[at] == tail[0] && data[at + 1] == tail[1] && data[at + 2] == tail[2] && data[at + 3] == tail[3];
  }

  /** Parsing an encoded packet recovers every part. */
  lemma EncodeThenParse(p: Packet, r: Parts)
    requires ValidParts(r)
    ensures ParseEffect(p, Encode(r)) == Effect(ParsedOf(p, r), Success)
  {
    hide WalkExtensions, HeaderEnd, HasPadding, HasExtension, Fixed, BlockBytes, Read16, Read32, Encode;
    var data, at := Encode(r), FIXED_HEADER_SIZE + |r.csrcs|;
    var rest := r.payload + r.padding;
    EncodeTail(r);
    FixedReads(r, data);
    assert r.padding != [] ==> data[|data| - 1] == r.padding[|r.padding| - 1];
    assert PaddingSize(data) == |r.padding|;
    if r.block.Block? {
      BlockReads(r, data, at, rest);
      BlockSize(r.block);
    } else {
      BlockSize(r.block);
    }
  }

  lemma BlockSize(b: Block)
    ensures |BlockBytes(b)| == if b.Block? then 4 + |b.body| else 0
  {}

  lemma EncodeTail(r: Parts)
    requires ValidParts(r)
    ensures var data := Encode(r);
            && |data| == FIXED_HEADER_SIZE + |r.csrcs| + |BlockBytes(r.block)| + |r.payload| + |r.padding|
            && data[..FIXED_HEADER_SIZE] == Fixed(r)
            && data[FIXED_HEADER_SIZE + |r.csrcs|..] == BlockBytes(r.block) + (r.payload + r.padding)
            && (r.padding != [] ==> data[|data| - 1] == r.padding[|r.padding| - 1])
  {
    hide Fixed, BlockBytes;
    var data := Encode(r);
    assert data == Fixed(r) + (r.csrcs + BlockBytes(r.block) + r.payload + r.padding);
    assert data == (Fixed(r) + r.csrcs) + (BlockBytes(r.block) + (r.payload + r.padding));
    Split(Fixed(r) + r.csrcs, BlockBytes(r.block) + (r.payload + r.padding));
  }

  // ---------------------------------------------------------------- the partition

  /** The parts of an accepted packet, cut at the positions Parse recorded. */
  function PartsOf(q: Packet, data: seq<byte>): Parts
    requires |data| >= FIXED_HEADER_SIZE && HeaderEnd(data) <= q.payloadOffset
    requires HasExtension(data) ==> HeaderEnd(data) + 4 <= q.payloadOffset
    requires 0 <= q.payloadSize && q.payloadOffset + q.payloadSize <= |data|
  {
    var at, end := HeaderEnd(data), q.payloadOffset + q.payloadSize;
    Parts(q.marker, q.payloadType, q.seqNum, q.timestamp, q.ssrc, data[FIXED_HEADER_SIZE..at],
          if HasExtension(data) then Block(Read16(data, at), data[at + 4..q.payloadOffset]) else NoBlock,
          data[q.payloadOffset..end], data[end..])
  }

  /** The success exit: the recorded positions are in order and in range. */
  lemma SuccessPositions(p: Packet, data: seq<byte>)
    requires ParseEffect(p, data).exit.Success?
    ensures var q := ParseEffect(p, data).packet;
            && |data| >= FIXED_HEADER_SIZE && HeaderEnd(data) <= q.payloadOffset
            && (HasExtension(data) ==>
                  HeaderEnd(data) + 4 <= |data|
                  && q.payloadOffset == HeaderEnd(data) + 4 + 4 * (Read16(data, HeaderEnd(data) + 2) as int))
            && (!HasExtension(data) ==> q.payloadOffset == HeaderEnd(data))
            && 0 <= q.payloadSize && q.payloadOffset + q.payloadSize + q.paddingSize == |data|
            && q.paddingSize == PaddingSize(data) && (HasPadding(data) <==> q.paddingSize != 0)
            && data[0] / 0x40 == 2
            && ParseHeader(q, data) == q
  {
    hide WalkExtensions;
  }

  lemma FixedFromReads(q: Packet, data: seq<byte>, r: Parts)
    requires |data| >= FIXED_HEADER_SIZE && data[0] / 0x40 == 2 && ParseHeader(q, data) == q && ValidParts(r)
    requires r.marker == q.marker && r.payloadType == q.payloadType && r.seqNum == q.seqNum
    requires r.timestamp == q.timestamp && r.ssrc == q.ssrc
    requires (r.padding != [] <==> HasPadding(data)) && (r.block.Block? <==> HasExtension(data))
    requires FIXED_HEADER_SIZE + |r.csrcs| == HeaderEnd(data)
    ensures Fixed(r) == data[..FIXED_HEADER_SIZE]
  {
    hide Be32, Read32;
    BitsOfFirst(data[0]);
    WriteRead16(data, 2);
    WriteRead32(data, 4);
    WriteRead32(data, 8);
    var f := Fixed(r);
    assert f[0] == data[0] && f[1] == data[1];
    assert f[2..4] == data[2..4] && f[4..8] == data[4..8] && f[8..12] == data[8..12];
    assert f == [f[0], f[1]] + f[2..4] + f[4..8] + f[8..12];
    assert data[..12] == [data[0], data[1]] + data[2..4] + data[4..8] + data[8..12];
  }

  lemma BitsOfFirst(b: byte)
    requires b / 0x40 == 2
    ensures b == 0x80 + Flag(b / 0x20 % 2 != 0, 0x20) + Flag(b / 0x10 % 2 != 0, 0x10) + b % 0x10
  {}

  lemma WriteRead16(s: seq<byte>, at: nat)
    requires at + 2 <= |s|
    ensures Be16(Read16(s, at)) == s[at..at + 2]
  {}

  lemma WriteRead32(s: seq<byte>, at: nat)
    requires at + 4 <= |s|
    ensures Be32(Read32(s, at)) == s[at..at + 4]
  {
    hide Be32, Read32;
    Read32IsGeneric(s, at);
    FixedWritersAreGeneric(Read32(s, at));
    BigEndianOfValue(s[at..at + 4]);
  }

  /** The success exit splits the packet exactly into fixed header, CSRCs,
      extension block, payload and padding, with no gap and no overlap. */
  lemma ParseThenEncode(p: Packet, data: seq<byte>)
    requires ParseEffect(p, data).exit.Success?
    ensures (SuccessPositions(p, data);
             var r := PartsOf(ParseEffect(p, data).packet, data);
             ValidParts(r) && Encode(r) == data)
  {
    hide ParseEffect, ParseHeader, HasPadding, HasExtension, HeaderEnd, Read16, Fixed, BlockBytes, ValidParts;
    SuccessPositions(p, data);
    var q := ParseEffect(p, data).packet;
    var r, at := PartsOf(q, data), HeaderEnd(data);
    PartsValid(q, data);
    FixedFromReads(q, data, r);
    BlockSize(r.block);
    if HasExtension(data) {
      BlockBack(data, at, q.payloadOffset);
    }
    assert BlockBytes(r.block) == data[at..q.payloadOffset];
    Glue(data, FIXED_HEADER_SIZE, at, q.payloadOffset, q.payloadOffset + q.payloadSize);
  }

  lemma BlockBack(data: seq<byte>, at: nat, end: nat)
    requires at + 4 <= end <= |data| && end == at + 4 + 4 * (Read16(data, at + 2) as int)
    ensures BlockBytes(Block(Read16(data, at), data[at + 4..end])) == data[at..end]
  {
    hide Read16, Be16;
    var n: int := Read16(data, at + 2);
    assert |data[at + 4..end]| / 4 == n;
    WriteRead16(data, at);
    WriteRead16(data, at + 2);
    assert data[at..end] == data[at..at + 2] + data[at + 2..at + 4] + data[at + 4..end];
  }

  lemma Glue(data: seq<byte>, a: nat, b: nat, c: nat, d: nat)
    requires a <= b <= c <= d <= |data|
    ensures data[..a] + data[a..b] + data[b..c] + data[c..d] + data[d..] == data
  {}

  lemma PartsValid(q: Packet, data: seq<byte>)
    requires |data| >= FIXED_HEADER_SIZE && HeaderEnd(data) <= q.payloadOffset
    requires HasExtension(data) ==> HeaderEnd(data) + 4 <= |data|
    requires HasExtension(data) ==>
               q.payloadOffset == HeaderEnd(data) + 4 + 4 * (Read16(data, HeaderEnd(data) + 2) as int)
    requires 0 <= q.payloadSize && q.payloadOffset + q.payloadSize + q.paddingSize == |data|
    requires q.paddingSize == PaddingSize(data) && (HasPadding(data) <==> q.paddingSize != 0)
    requires ParseHeader(q, data) == q
    ensures ValidParts(PartsOf(q, data))
    ensures var r := PartsOf(q, data);
            && (r.padding != [] <==> HasPadding(data)) && FIXED_HEADER_SIZE + |r.csrcs| == HeaderEnd(data)
  {
    hide Read16, Read32;
    var r := PartsOf(q, data);
    assert |r.padding| == q.paddingSize;
    if r.padding != [] {
      assert r.padding[|r.padding| - 1] == data[|data| - 1];
    }
  }

  /** True is returned for a packet that was not parsed exactly when it is short
      of its fixed header or CSRCs or has another version. */
  lemma TrueWithoutSuccessIff(p: Packet, data: seq<byte>)
    ensures Returned(ParseEffect(p, data).exit) && !ParseEffect(p, data).exit.Success?
       <==> |data| < FIXED_HEADER_SIZE || data[0] / 0x40 != 2 || |data| < HeaderEnd(data)
  {
    hide WalkExtensions, ParseHeader;
  }
}
