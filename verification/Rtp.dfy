/** RTP packets: the fixed header, CSRCs, header extension, payload and padding
    as RTPPacket::Parse finds them, and the packet object. */
module Rtp {
  import opened Bytes
  import opened ByteIo

  const FIXED_HEADER_SIZE: int := 12
  const ONE_BYTE_PROFILE: u16 := 0xBEDE
  const TWO_BYTE_PROFILE: u16 := 0x1000
  const RESERVED_ID: int := 15

  /** A map entry; `data` is where the stored pointer points. */
  datatype Extension = Extension(id: byte, length: byte, data: nat)

  type ExtensionMap = map<u16, Extension>

  /** Bytes before the value of an extension element. */
  function ElementHeader(profile: u16): nat
  {
    if profile == ONE_BYTE_PROFILE then 1 else 2
  }

  predicate Supported(profile: u16)
  {
    profile == ONE_BYTE_PROFILE || profile == TWO_BYTE_PROFILE
  }

  /** The element at position `at`: the stored pointer ignores the position. */
  function ElementAt(data: seq<byte>, offset: nat, at: nat, profile: u16): Extension
    requires at + ElementHeader(profile) <= |data|
  {
    if profile == ONE_BYTE_PROFILE then Extension(data[at] / 0x10, 1 + data[at] % 0x10, offset + 1)
    else Extension(data[at], data[at + 1], offset + 2)
  }

  /** The reserved id, or id 0 with a length, ends a one-byte list. */
  predicate Stops(profile: u16, e: Extension)
  {
    profile == ONE_BYTE_PROFILE && (e.id == RESERVED_ID || (e.id == 0 && e.length != 1))
  }

  /** The walk over the extension block data[offset..offset + capacity]. */
  function WalkExtensions(data: seq<byte>, offset: nat, capacity: nat, profile: u16, size: nat, exts: ExtensionMap)
    : ExtensionMap
    requires offset + capacity <= |data|
    decreases capacity - size
  {
    var hl := ElementHeader(profile);
    if size + hl >= capacity then exts
    else if data[offset + size] == 0 then WalkExtensions(data, offset, capacity, profile, size + 1, exts)
    else
      var e := ElementAt(data, offset, offset + size, profile);
      var exts' := exts[e.id as u16 := e];
      if Stops(profile, e) || size + hl + e.length > capacity then exts'
      else WalkExtensions(data, offset, capacity, profile, size + hl + e.length, exts')
  }

  // ---------------------------------------------------------------- one call of Parse, on values

  datatype Packet = Packet(
    marker: bool, payloadType: byte, seqNum: u16, timestamp: u32, ssrc: u32,
    payloadOffset: int, payloadSize: int, paddingSize: int, exts: ExtensionMap)

  /** Where Parse returned. */
  datatype Exit =
    | TooShort | BadVersion | CsrcOverrun | ZeroPadding
    | ExtensionHeaderOverrun | ExtensionOverrun | PayloadOverrun | Success

  /** The bool that the caller sees: three failures return -1, which is true. */
  function Returned(e: Exit): bool
  {
    e.TooShort? || e.BadVersion? || e.CsrcOverrun? || e.Success?
  }

  function ParseHeader(p: Packet, data: seq<byte>): Packet
    requires |data| >= FIXED_HEADER_SIZE
  {
    p.(marker := data[1] / 0x80 != 0, payloadType := data[1] % 0x80, seqNum := Read16(data, 2),
       timestamp := Read32(data, 4), ssrc := Read32(data, 8))
  }

  function HeaderEnd(data: seq<byte>): nat
    requires |data| >= FIXED_HEADER_SIZE
  {
    FIXED_HEADER_SIZE + 4 * (data[0] % 0x10 as int)
  }

  predicate HasPadding(data: seq<byte>)
    requires |data| > 0
  {
    data[0] / 0x20 % 2 != 0
  }

  predicate HasExtension(data: seq<byte>)
    requires |data| > 0
  {
    data[0] / 0x10 % 2 != 0
  }

  function PaddingSize(data: seq<byte>): byte
    requires |data| > 0
  {
    if HasPadding(data) then data[|data| - 1] else 0
  }

  datatype Effect = Effect(packet: Packet, exit: Exit)

  /** The extension part: where the payload starts, and the map after the walk. */
  function ParseExtension(p: Packet, data: seq<byte>): Effect
    requires |data| >= FIXED_HEADER_SIZE && p.payloadOffset == HeaderEnd(data)
  {
    var at := HeaderEnd(data);
    if at + 4 > |data| then Effect(p, ExtensionHeaderOverrun)
    else
      var profile, capacity := Read16(data, at), 4 * (Read16(data, at + 2) as int);
      if at + 4 + capacity > |data| then Effect(p, ExtensionOverrun)
      else
        var exts := if Supported(profile) then WalkExtensions(data, at + 4, capacity, profile, 0, p.exts) else p.exts;
        Effect(p.(exts := exts, payloadOffset := at + 4 + capacity), Success)
  }

  function ParsePayload(p: Packet, size: nat): Effect
  {
    if p.payloadOffset + p.paddingSize > size then Effect(p, PayloadOverrun)
    else Effect(p.(payloadSize := size - p.payloadOffset - p.paddingSize), Success)
  }

  function ParseEffect(p: Packet, data: seq<byte>): Effect
  {
    if |data| < FIXED_HEADER_SIZE then Effect(p, TooShort)
    else if data[0] / 0x40 != 2 then Effect(p, BadVersion)
    else
      var p1 := ParseHeader(p, data);
      if |data| < HeaderEnd(data) then Effect(p1, CsrcOverrun)
      else
        var p2 := p1.(payloadOffset := HeaderEnd(data), paddingSize := PaddingSize(data));
        if HasPadding(data) && p2.paddingSize == 0 then Effect(p2, ZeroPadding)
        else if !HasExtension(data) then ParsePayload(p2, |data|)
        else
          var r := ParseExtension(p2, data);
          if r.exit.Success? then ParsePayload(r.packet, |data|) else r
  }

  // ---------------------------------------------------------------- the object

  class RtpPacket {
    var marker: bool
    var payloadType: byte
    var seqNum: u16
    var timestamp: u32
    var ssrc: u32
    var payloadOffset: int
    var payloadSize: int
    var paddingSize: int
    var exts: ExtensionMap

    ghost function Value(): Packet
      reads this
    {
      Packet(marker, payloadType, seqNum, timestamp, ssrc, payloadOffset, payloadSize, paddingSize, exts)
    }

    constructor ()
      ensures exts == map[]
    {
      exts := map[];
    }

    method Parse(data: array<byte>, size: nat) returns (exit: Exit)
      requires size <= data.Length
      modifies this
      ensures Effect(Value(), exit) == ParseEffect(old(Value()), data[..size])
    {
      hide ParseHeader, ParseExtension;
      ghost var bytes := data[..size];
      if size < FIXED_HEADER_SIZE {
        return TooShort;
      }
      if data[0] / 0x40 != 2 {
        return BadVersion;
      }
      var hasPadding := data[0] / 0x20 % 2 != 0;
      var hasExt := data[0] / 0x10 % 2 != 0;
      var numberCC := data[0] % 0x10;
      assert bytes[0] == data[0];
      ReadHeader(data, size);
      if size < FIXED_HEADER_SIZE + 4 * (numberCC as int) {
        return CsrcOverrun;
      }
      payloadOffset := FIXED_HEADER_SIZE + 4 * (numberCC as int);
      paddingSize := if hasPadding then data[size - 1] else 0;
      if hasPadding && paddingSize == 0 {
        return ZeroPadding;
      }
      if hasExt {
        exit := ParseExtensionBlock(data, size);
        if !exit.Success? {
          return;
        }
      }
      if payloadOffset + paddingSize > size {
        return PayloadOverrun;
      }
      payloadSize := size - payloadOffset - paddingSize;
      return Success;
    }

    method ReadHeader(data: array<byte>, size: nat)
      requires FIXED_HEADER_SIZE <= size <= data.Length
      modifies this`marker, this`payloadType, this`seqNum, this`timestamp, this`ssrc
      ensures Value() == ParseHeader(old(Value()), data[..size])
    {
      ghost var bytes := data[..size];
      marker := data[1] / 0x80 != 0;
      payloadType := data[1] % 0x80;
      seqNum := Read2(data, 2);
      timestamp := Read4(data, 4);
      ssrc := Read4(data, 8);
      SameReads(data[..], bytes, 2);
      SameReads(data[..], bytes, 4);
      SameReads(data[..], bytes, 8);
    }

    method ParseExtensionBlock(data: array<byte>, size: nat) returns (exit: Exit)
      requires FIXED_HEADER_SIZE <= size <= data.Length && payloadOffset == HeaderEnd(data[..size])
      modifies this`payloadOffset, this`exts
      ensures Effect(Value(), exit) == ParseExtension(old(Value()), data[..size])
    {
      hide WalkExtensions;
      ghost var bytes := data[..size];
      var offset := payloadOffset + 4;
      if offset > size {
        return ExtensionHeaderOverrun;
      }
      var profile := Read2(data, payloadOffset);
      var words := Read2(data, payloadOffset + 2);
      SameReads(data[..], bytes, payloadOffset);
      var capacity: nat := 4 * (words as int);
      if offset + capacity > size {
        return ExtensionOverrun;
      }
      if Supported(profile) {
        exts := Walk(data, size, offset, capacity, profile, exts);
      }
      payloadOffset := offset + capacity;
      return Success;
    }

    /** The walk; it stays inside the block and ends. */
    static method Walk(data: array<byte>, end: nat, offset: nat, capacity: nat, profile: u16, before: ExtensionMap)
      returns (exts: ExtensionMap)
      requires offset + capacity <= end <= data.Length
      ensures exts == WalkExtensions(data[..end], offset, capacity, profile, 0, before)
    {
      exts := before;
      ghost var bytes := data[..end];
      var hl := ElementHeader(profile);
      var size := 0;
      while size + hl < capacity
        invariant 0 <= size <= capacity
        invariant WalkExtensions(bytes, offset, capacity, profile, size, exts)
               == WalkExtensions(bytes, offset, capacity, profile, 0, before)
        decreases capacity - size
      {
        if data[offset + size] == 0 {
          size := size + 1;
        } else {
          var e := ReadElement(data, end, offset, size, profile);
          exts := exts[e.id as u16 := e];
          if Stops(profile, e) {
            return;
          }
          if size + hl + e.length > capacity {
            return;
          }
          size := size + hl + e.length;
        }
      }
    }

    static method ReadElement(data: array<byte>, end: nat, offset: nat, size: nat, profile: u16) returns (e: Extension)
      requires offset + size + ElementHeader(profile) <= end <= data.Length
      ensures e == ElementAt(data[..end], offset, offset + size, profile)
    {
      if profile == ONE_BYTE_PROFILE {
        var b := data[offset + size];
        e := Extension(b / 0x10, 1 + b % 0x10, offset + 1);
      } else {
        e := Extension(data[offset + size], data[offset + size + 1], offset + 2);
      }
    }

    /** The transport-wide sequence number behind the stored pointer, if the id is known. */
    method GetTransportCcNum(data: array<byte>, id: byte) returns (found: bool, num: u16)
      requires id as u16 in exts ==> exts[id as u16].data + 2 <= data.Length
      ensures found <==> id as u16 in exts
      ensures found ==> num == Read16(data[..], exts[id as u16].data)
    {
      found, num := id as u16 in exts, 0;
      if found {
        num := Read2(data, exts[id as u16].data);
      }
    }
  }

  lemma SameReads(data: seq<byte>, bytes: seq<byte>, at: nat)
    requires |bytes| <= |data| && bytes == data[..|bytes|]
    ensures at + 2 <= |bytes| ==> Read16(bytes, at) == Read16(data, at)
    ensures at + 4 <= |bytes| ==> Read32(bytes, at) == Read32(data, at) && Read16(bytes, at + 2) == Read16(data, at + 2)
  {}
}
