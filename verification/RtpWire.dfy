/** RTP packets as bytes, with every number of RFC 3550, section 5.1, and of
    RFC 5285, sections 4.2 and 4.3, written out. */
module RtpWire {
  import opened Bytes
  import opened Rtp
  import opened RtpExtensions

  // ---------------------------------------------------------------- the fixed header

  /** The five header fields of any packet of version 2, whatever the exit; a short
      packet or one of another version changes nothing. */
  lemma FieldsOfBytes(p: Packet, data: seq<byte>)
    ensures |data| < 12 || data[0] / 0x40 != 2 ==> ParseEffect(p, data).packet == p
    ensures |data| >= 12 && data[0] / 0x40 == 2 ==>
              var q := ParseEffect(p, data).packet;
              && (q.marker <==> data[1] >= 0x80) && q.payloadType == data[1] % 0x80
              && q.seqNum == 0x100 * (data[2] as int) + data[3]
              && q.timestamp == 0x100_0000 * (data[4] as int) + 0x1_0000 * (data[5] as int) + 0x100 * (data[6] as int)
                                + data[7]
              && q.ssrc == 0x100_0000 * (data[8] as int) + 0x1_0000 * (data[9] as int) + 0x100 * (data[10] as int)
                           + data[11]
  {
    hide WalkExtensions, HeaderEnd, HasPadding, HasExtension, PaddingSize;
  }

  /** What any exit of a packet of version 2 leaves of the positions. Without room
      for the CSRCs they are untouched. Otherwise the padding size is the last byte
      if bit 5 is set, the payload starts behind the CSRCs, or behind an extension
      that fits, and the payload size is set only if everything fits. */
  lemma PositionsOfBytes(p: Packet, data: seq<byte>)
    requires |data| >= 12 && data[0] / 0x40 == 2
    ensures var q, end := ParseEffect(p, data).packet, 12 + 4 * ((data[0] as int) % 0x10);
            && (end > |data| ==> q.payloadOffset == p.payloadOffset && q.paddingSize == p.paddingSize
                                 && q.payloadSize == p.payloadSize && q.exts == p.exts)
            && (end <= |data| ==>
                  var padding: int := if data[0] / 0x20 % 2 == 1 then data[|data| - 1] else 0;
                  var start := if BlockFits(data) then end + 4 + BlockLength(data) else end;
                  && q.paddingSize == padding && q.payloadOffset == start
                  && (!BlockFits(data) ==> q.exts == p.exts)
                  && q.payloadSize == if ParseEffect(p, data).exit.Success? then |data| - start - padding
                                      else p.payloadSize)
  {
    hide WalkExtensions, Supported;
  }

  /** The words of an extension in bytes, from the two bytes behind its profile. */
  function BlockLength(data: seq<byte>): nat
    requires |data| >= 12 && 12 + 4 * ((data[0] as int) % 0x10) + 4 <= |data|
  {
    var at := 12 + 4 * ((data[0] as int) % 0x10);
    4 * (0x100 * (data[at + 2] as int) + data[at + 3])
  }

  /** There is an extension, it ends inside the packet, and the padding is not empty. */
  predicate BlockFits(data: seq<byte>)
    requires |data| >= 12
  {
    var end := 12 + 4 * ((data[0] as int) % 0x10);
    && data[0] / 0x10 % 2 == 1 && end + 4 <= |data| && end + 4 + BlockLength(data) <= |data|
    && (data[0] / 0x20 % 2 == 1 ==> data[|data| - 1] != 0)
  }

  // ---------------------------------------------------------------- extension blocks

  /** Elements in the one-byte form: identifier and length less one in one byte. */
  function OneByteForm(items: seq<Item>): seq<byte>
    requires forall i :: 0 <= i < |items| ==> OneByteItem(items[i])
  {
    if items == [] then [] else OneByteBytes(items[0]) + OneByteForm(items[1..])
  }

  function OneByteBytes(item: Item): seq<byte>
    requires OneByteItem(item)
  {
    match item
    case Pad => [0]
    case Element(id, value) => [0x10 * (id as int) + |value| - 1] + value
  }

  predicate OneByteItem(item: Item)
  {
    item.Element? ==> 1 <= item.id <= 14 && 1 <= |item.value| <= 16
  }

  /** Elements in the two-byte form: identifier and length in a byte each. */
  function TwoByteForm(items: seq<Item>): seq<byte>
    requires forall i :: 0 <= i < |items| ==> TwoByteItem(items[i])
  {
    if items == [] then [] else TwoByteBytes(items[0]) + TwoByteForm(items[1..])
  }

  function TwoByteBytes(item: Item): seq<byte>
    requires TwoByteItem(item)
  {
    match item
    case Pad => [0]
    case Element(id, value) => [id, |value|] + value
  }

  predicate TwoByteItem(item: Item)
  {
    item.Element? ==> 1 <= item.id && |item.value| <= 255
  }

  lemma {:induction false} OneByteEncodes(items: seq<Item>)
    requires forall i :: 0 <= i < |items| ==> OneByteItem(items[i])
    ensures ValidItems(0xBEDE, items) && EncodeItems(0xBEDE, items) == OneByteForm(items)
  {
    if items != [] {
      OneByteEncodes(items[1..]);
    }
  }

  lemma {:induction false} TwoByteEncodes(items: seq<Item>)
    requires forall i :: 0 <= i < |items| ==> TwoByteItem(items[i])
    ensures ValidItems(0x1000, items) && EncodeItems(0x1000, items) == TwoByteForm(items)
  {
    if items != [] {
      TwoByteEncodes(items[1..]);
    }
  }

  /** Where the extension header starts: behind twelve bytes and the CSRCs. */
  function BlockStart(data: seq<byte>): nat
    requires |data| >= 12
  {
    12 + 4 * ((data[0] as int) % 0x10)
  }

  /** Version 2, extension bit set, room for CSRCs, and no zero padding size. */
  predicate HasBlock(data: seq<byte>)
  {
    && |data| >= 12 && data[0] / 0x40 == 2 && data[0] / 0x10 % 2 == 1
    && BlockStart(data) <= |data|
    && (data[0] / 0x20 % 2 == 1 ==> data[|data| - 1] != 0)
  }

  lemma BlockParsed(p: Packet, data: seq<byte>, a: byte, b: byte, body: seq<byte>, rest: seq<byte>)
    requires HasBlock(data) && |body| % 4 == 0 && |body| < 4 * TWO16
    requires data[BlockStart(data)..] == [a, b, |body| / 4 / 0x100, |body| / 4 % 0x100] + body + rest
    ensures var at, n, profile: u16 := BlockStart(data), |body|, 0x100 * (a as int) + b;
            && at + 4 + n <= |data| && data[at + 4..at + 4 + n] == body
            && ParseEffect(p, data).packet.exts ==
               if Supported(profile) then WalkExtensions(data, at + 4, n, profile, 0, p.exts) else p.exts
  {
    hide ParseEffect, WalkExtensions, Supported, HasBlock, Read16, BlockStart;
    BlockInside(data);
    var at, tail := BlockStart(data), data[BlockStart(data)..];
    assert |tail| == |data| - at;
    var head: seq<byte> := [a, b, |body| / 4 / 0x100, |body| / 4 % 0x100];
    BlockNumbers(data, at, head);
    assert tail[..4] == head && tail[4..4 + |body|] == body;
    DropSlice(data, at, 4, 4 + |body|);
    WordCount(|body|);
    ExtensionPart(p, data, at);
  }

  lemma BlockInside(data: seq<byte>)
    requires HasBlock(data)
    ensures |data| >= 12 && BlockStart(data) <= |data|
  {}

  lemma WordCount(n: nat)
    requires n % 4 == 0 && n < 4 * TWO16
    ensures n / 4 / 0x100 < 0x100 && 4 * (0x100 * (n / 4 / 0x100) + n / 4 % 0x100) == n
  {}

  /** What Parse does with the extension once the packet is known to have one. */
  lemma ExtensionPart(p: Packet, data: seq<byte>, at: nat)
    requires HasBlock(data) && at == BlockStart(data) && at + 4 <= |data|
    requires at + 4 + 4 * (Read16(data, at + 2) as int) <= |data|
    ensures ParseEffect(p, data).packet.exts ==
            if Supported(Read16(data, at))
            then WalkExtensions(data, at + 4, 4 * (Read16(data, at + 2) as int), Read16(data, at), 0, p.exts)
            else p.exts
  {
    hide WalkExtensions, Supported, Read16, Read32;
  }

  lemma BlockNumbers(data: seq<byte>, at: nat, head: seq<byte>)
    requires |head| == 4 && at + 4 <= |data| && data[at..][..4] == head
    ensures Read16(data, at) == 0x100 * (head[0] as int) + head[1]
    ensures Read16(data, at + 2) == 0x100 * (head[2] as int) + head[3]
  {
    var tail := data[at..];
    assert forall i :: 0 <= i < 4 ==> data[at + i] == tail[i] == tail[..4][i];
  }

  /** What the map holds for one identifier after a list of items. */
  predicate Recorded(before: ExtensionMap, after: ExtensionMap, items: seq<Item>, id: byte, pointer: nat)
  {
    var k := LastIndex(items, id);
    if k >= 0 then
      id as u16 in after && after[id as u16].id == id && after[id as u16].length == |items[k].value|
      && after[id as u16].data == pointer
    else (id as u16 in after <==> id as u16 in before) && (id as u16 in after ==> after[id as u16] == before[id as u16])
  }

  /** Behind the bytes BE DE come one-byte elements: the map holds the last length
      of each identifier, and the pointer to the sixth byte of the block. */
  lemma OneByteBlock(p: Packet, data: seq<byte>, items: seq<Item>, rest: seq<byte>, id: byte)
    requires HasBlock(data) && forall i :: 0 <= i < |items| ==> OneByteItem(items[i])
    requires var n := |OneByteForm(items)|;
             && n % 4 == 0 && n < 4 * TWO16
             && data[BlockStart(data)..] == [0xBE, 0xDE, n / 4 / 0x100, n / 4 % 0x100] + OneByteForm(items) + rest
    ensures Recorded(p.exts, ParseEffect(p, data).packet.exts, items, id, BlockStart(data) + 5)
  {
    hide ParseEffect, WalkExtensions, EncodeItems, LastIndex, HasBlock, OneByteForm;
    BlockParsed(p, data, 0xBE, 0xDE, OneByteForm(items), rest);
    OneByteEncodes(items);
    AllVisited(items);
    WalkOnList(data, BlockStart(data) + 4, 0xBEDE, items, p.exts, id);
  }

  lemma AllVisited(items: seq<Item>)
    requires forall i :: 0 <= i < |items| ==> OneByteItem(items[i])
    ensures Visited(items) == items && Supported(0xBEDE) && ElementHeader(0xBEDE) == 1
  {}

  /** Behind the bytes 10 00 come two-byte elements; one without a value at the very
      end is not visited. */
  lemma TwoByteBlock(p: Packet, data: seq<byte>, items: seq<Item>, rest: seq<byte>, id: byte)
    requires HasBlock(data) && forall i :: 0 <= i < |items| ==> TwoByteItem(items[i])
    requires var n := |TwoByteForm(items)|;
             && n % 4 == 0 && n < 4 * TWO16
             && data[BlockStart(data)..] == [0x10, 0x00, n / 4 / 0x100, n / 4 % 0x100] + TwoByteForm(items) + rest
    ensures Recorded(p.exts, ParseEffect(p, data).packet.exts, Visited(items), id, BlockStart(data) + 6)
  {
    hide ParseEffect, WalkExtensions, EncodeItems, LastIndex, HasBlock, TwoByteForm, Visited;
    BlockParsed(p, data, 0x10, 0x00, TwoByteForm(items), rest);
    TwoByteEncodes(items);
    TwoByteHeader();
    VisitedPrefix(items);
    WalkOnList(data, BlockStart(data) + 4, 0x1000, items, p.exts, id);
  }

  lemma VisitedPrefix(items: seq<Item>)
    ensures |Visited(items)| <= |items| && forall k :: 0 <= k < |Visited(items)| ==> Visited(items)[k] == items[k]
  {}

  lemma TwoByteHeader()
    ensures Supported(0x1000) && ElementHeader(0x1000) == 2
  {}

  /** A one-byte element with identifier 15, or 0 with a length, ends the list: it is
      recorded itself, with the length from its low digit, and nothing after it. */
  lemma OneByteEnd(data: seq<byte>, offset: nat, items: seq<Item>, b: byte, tail: seq<byte>, exts: ExtensionMap,
                   id: byte)
    requires (forall i :: 0 <= i < |items| ==> OneByteItem(items[i])) && tail != []
    requires b / 0x10 == 15 || (b / 0x10 == 0 && b % 0x10 != 0)
    requires var block := OneByteForm(items) + ([b] + tail);
             offset + |block| <= |data| && data[offset..offset + |block|] == block
    ensures var n := |OneByteForm(items) + ([b] + tail)|;
            var m := WalkExtensions(data, offset, n, 0xBEDE, 0, exts);
            if id == b / 0x10 then id as u16 in m && m[id as u16] == Extension(id, b % 0x10 + 1, offset + 1)
            else Recorded(exts, m, items, id, offset + 1)
  {
    hide WalkExtensions, EncodeItems, OneByteForm, LastIndex, Record;
    OneByteEncodes(items);
    EndElement(b, tail);
    var n := |OneByteForm(items) + ([b] + tail)|;
    WalkStopsAt(data, offset, n, 0xBEDE, items, [b] + tail, exts);
    RecordLookup(0xBEDE, offset, items, exts, id);
    AllVisited(items);
  }

  lemma EndElement(b: byte, tail: seq<byte>)
    requires (b / 0x10 == 15 || (b / 0x10 == 0 && b % 0x10 != 0)) && tail != []
    ensures var e := ElementAt([b] + tail, 0, 0, 0xBEDE);
            e.id == b / 0x10 && e.length == b % 0x10 + 1 && Stops(0xBEDE, e) && b != 0
    ensures ElementHeader(0xBEDE) == 1
  {}

  /** Behind any other two bytes the block is skipped. */
  lemma OtherBlock(p: Packet, data: seq<byte>, a: byte, b: byte, body: seq<byte>, rest: seq<byte>)
    requires HasBlock(data) && |body| % 4 == 0 && |body| < 4 * TWO16
    requires data[BlockStart(data)..] == [a, b, |body| / 4 / 0x100, |body| / 4 % 0x100] + body + rest
    requires !(a == 0xBE && b == 0xDE) && !(a == 0x10 && b == 0x00)
    ensures ParseEffect(p, data).packet.exts == p.exts
  {
    hide ParseEffect, HasBlock;
    BlockParsed(p, data, a, b, body, rest);
  }
}
