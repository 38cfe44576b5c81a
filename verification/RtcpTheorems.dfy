/** RTCP headers and reports there and back, and compound packets split into
    exactly the packets they were put together from (RFC 3550, section 6.1). */
module RtcpTheorems {
  import opened Bytes
  import opened Rtcp

  // ---------------------------------------------------------------- common header

  /** What a header becomes on the wire and back. */
  lemma HeaderRoundTrip(h: Header)
    ensures ParseHeader(HeaderBytes(h)) ==
            Header(h.count % 0x20, h.count % 0x20 / 0x10 != 0, 2, h.packetType, h.length - h.length % 4)
  {
    var b := HeaderBytes(h);
    var q := h.length / 4;
    Be16RoundTrip((q - 1) % TWO16);
    assert Read16(b, 2) == (q - 1) % TWO16;
    LengthBack(q);
    FirstByteBack(h.padding, h.count % 0x20);
  }

  lemma LengthBack(q: nat)
    requires q < 0x4000
    ensures ((q - 1) % TWO16 + 1) * 4 % TWO16 == 4 * q
  {}

  lemma FirstByteBack(padding: bool, c: nat)
    requires c < 0x20
    ensures var b := (if padding then 0xA0 else 0x80) + c;
            b % 0x20 == c && b / 0x40 == 2 && (b / 0x10 % 2 != 0 <==> c / 0x10 != 0)
  {}

  /** A header survives exactly when its version is 2, its count has five bits,
      its length is whole words, and its padding flag equals the count's top
      bit, which is what the reader looks at. */
  lemma HeaderKeptIff(h: Header)
    ensures ParseHeader(HeaderBytes(h)) == h
       <==> h.version == 2 && h.count < 0x20 && h.length % 4 == 0 && (h.padding <==> h.count >= 0x10)
  {
    hide ParseHeader, HeaderBytes;
    HeaderRoundTrip(h);
  }

  /** The four bytes of a header: version 2, the padding flag, five bits of count,
      the type, and the length in words less one. */
  lemma HeaderOnWire(h: Header)
    requires h.length >= 4
    ensures var n := h.length / 4 - 1;
            HeaderBytes(h) ==
            [0x80 + (if h.padding then 0x20 else 0) + h.count % 0x20, h.packetType, n / 0x100, n % 0x100]
  {
    hide Be16;
    WordBytes(h.length / 4 - 1);
  }

  lemma WordBytes(n: nat)
    requires n < 0x4000
    ensures n % TWO16 == n && Be16(n) == [n / 0x100, n % 0x100]
  {}

  /** The header fields of any four bytes. The padding flag is the count's top bit,
      and the length is kept modulo 2^16. */
  lemma HeaderOfBytes(data: seq<byte>)
    requires |data| >= 4
    ensures var h := ParseHeader(data);
            && h.version < 4 && h.count < 0x20
            && data[0] == 0x40 * (h.version as int) + 0x20 * ((data[0] as int) / 0x20 % 2) + h.count
            && (h.padding <==> h.count >= 0x10) && h.packetType == data[1]
            && h.length == (4 * (0x100 * (data[2] as int) + data[3]) + 4) % 0x1_0000
  {
    FirstByteSplit(data[0]);
  }

  lemma FirstByteSplit(b: byte)
    ensures b == 0x40 * (b as int / 0x40) + 0x20 * ((b as int) / 0x20 % 2) + b % 0x20
    ensures b as int / 0x10 % 2 != 0 <==> b % 0x20 >= 0x10
  {}

  // ---------------------------------------------------------------- sender reports

  lemma SenderReads(data: seq<byte>, s: Sender)
    requires |data| >= 28 && data[4..28] == SenderBytes(s)
    ensures SenderAt(data) == s
  {
    hide Read32, Be32;
    var b := data[4..28];
    Word(data, b, 0, s.ssrc);
    Word(data, b, 4, s.ntpSec);
    Word(data, b, 8, s.ntpFrac);
    Word(data, b, 12, s.rtpTimestamp);
    Word(data, b, 16, s.packetsSent);
    Word(data, b, 20, s.octetsSent);
  }

  lemma Word(data: seq<byte>, b: seq<byte>, k: nat, v: u32)
    requires |data| >= 28 && b == data[4..28] && k + 4 <= 24 && b[k..k + 4] == Be32(v)
    ensures Read32(data, 4 + k) == v
  {
    hide Be32;
    Be32RoundTrip(v);
    Read32Slice(b, k);
    assert b[k] == data[4 + k] && b[k + 1] == data[5 + k] && b[k + 2] == data[6 + k] && b[k + 3] == data[7 + k];
  }

  /** A sender report with what follows its six fields: report blocks, extensions. */
  function SenderItem(first: byte, s: Sender, extra: seq<byte>): (b: seq<byte>)
    ensures |b| == 28 + |extra|
  {
    [first, 200] + Be16(6 + |extra| / 4)
    + (Be32(s.ssrc) + Be32(s.ntpSec) + Be32(s.ntpFrac)
       + Be32(s.rtpTimestamp) + Be32(s.packetsSent) + Be32(s.octetsSent))
    + extra
  }

  /** The wire form that Serialize writes is one without report blocks. */
  lemma SenderWireIsItem(s: Sender, blocks: nat)
    ensures SenderWire(s, blocks) == SenderItem(0x80 + blocks % 0x20, s, [])
  {
    hide HeaderBytes, Be16, Be32;
    LowBlocks(blocks);
    FirstOfHeader(blocks % 0x100);
    var none: seq<byte> := [];
    assert 6 + |none| / 4 == 6;
    assert SenderWire(s, blocks) == [0x80 + blocks % 0x20, SENDER_REPORT] + Be16(6) + SenderBytes(s) + none;
  }

  lemma LowBlocks(blocks: nat)
    ensures blocks % 0x100 % 0x20 == blocks % 0x20
  {
    var v := blocks / 0x100 * 8 + blocks % 0x100 / 0x20;
    DivMod(blocks, 0x20, v, blocks % 0x100 % 0x20);
  }

  lemma FirstOfHeader(count: byte)
    ensures HeaderBytes(Header(count, false, 2, SENDER_REPORT, 28))
         == [0x80 + count % 0x20, SENDER_REPORT] + Be16(6)
  {
    hide Be16;
  }

  /** A sender report, followed by anything, at the front of a buffer. */
  lemma SenderFront(first: byte, s: Sender, extra: seq<byte>, rest: seq<byte>)
    requires |extra| % 4 == 0 && |extra| + 24 < 4 * TWO16
    ensures var data := SenderItem(first, s, extra) + rest;
            && PacketLength(data) == 28 + |extra| && data[1] == SENDER_REPORT && data[28 + |extra|..] == rest
            && ReportOf(data) == [SenderReport(s)]
  {
    hide Read16, Read32, Be16, Be32, SenderAt;
    var data, n := SenderItem(first, s, extra) + rest, 6 + |extra| / 4;
    Be16RoundTrip(n);
    assert data[2..4] == Be16(n);
    Read16Slice(data, 2);
    assert data[4..28] == SenderBytes(s);
    SenderReads(data, s);
    LengthFits(n);
  }

  lemma LengthFits(n: nat)
    ensures (n + 1) * 4 % TWO16 <= 4 + 4 * n
  {}

  /** A sender report is read by position, whatever its length field says, unless
      the size is below four bytes or below that length modulo 2^16; then all six
      fields are 0. */
  lemma SenderByPosition(data: seq<byte>, size: nat)
    requires |data| >= 28
    ensures ParseSender(data, size) ==
            if size < 4 || size < (4 * (0x100 * (data[2] as int) + data[3]) + 4) % 0x1_0000
            then Sender(0, 0, 0, 0, 0, 0)
            else Sender(WordAt(data, 4), WordAt(data, 8), WordAt(data, 12), WordAt(data, 16), WordAt(data, 20),
                        WordAt(data, 24))
  {}

  function WordAt(data: seq<byte>, k: nat): u32
    requires k + 4 <= |data|
  {
    0x100_0000 * (data[k] as int) + 0x1_0000 * (data[k + 1] as int) + 0x100 * (data[k + 2] as int) + data[k + 3]
  }

  /** What the loop adds to the output for the packet at the front of any bytes: a
      sender report for type 200, read by position, a receiver report for 201. */
  lemma ReportByType(data: seq<byte>)
    requires |data| >= 28
    ensures ReportOf(data) ==
            if data[1] == 200 then
              [SenderReport(Sender(WordAt(data, 4), WordAt(data, 8), WordAt(data, 12), WordAt(data, 16),
                                   WordAt(data, 20), WordAt(data, 24)))]
            else if data[1] == 201 then [ReceiverReport] else []
  {
    hide ParseSender;
    LengthFits(Read16(data, 2));
    SenderByPosition(data, PacketLength(data));
  }

  // ---------------------------------------------------------------- compound packets

  /** A sender report with its report blocks, or a packet of another type with a
      body of whole words. The first byte of either is free. */
  datatype Item =
    | Sr(first: byte, sender: Sender, extra: seq<byte>)
    | Other(first: byte, packetType: byte, body: seq<byte>)

  predicate ValidItem(item: Item)
  {
    match item
    case Sr(_, _, extra) => |extra| % 4 == 0 && |extra| + 24 < 4 * TWO16
    case Other(_, packetType, body) => packetType != 200 && |body| % 4 == 0 && |body| < 4 * TWO16
  }

  ghost predicate ValidItems(items: seq<Item>)
  {
    forall i :: 0 <= i < |items| ==> ValidItem(items[i])
  }

  function EncodeItem(item: Item): seq<byte>
  {
    match item
    case Sr(first, sender, extra) => SenderItem(first, sender, extra)
    case Other(first, packetType, body) => [first, packetType] + Be16(|body| / 4) + body
  }

  function Encode(items: seq<Item>): seq<byte>
  {
    if items == [] then [] else EncodeItem(items[0]) + Encode(items[1..])
  }

  /** What the output vector should hold for an item. */
  function Expected(item: Item): seq<Report>
  {
    match item
    case Sr(_, sender, _) => [SenderReport(sender)]
    case Other(_, packetType, _) => if packetType == 201 then [ReceiverReport] else []
  }

  function AllExpected(items: seq<Item>): seq<Report>
  {
    if items == [] then [] else Expected(items[0]) + AllExpected(items[1..])
  }

  lemma ItemFront(item: Item, rest: seq<byte>)
    requires ValidItem(item)
    ensures var data := EncodeItem(item) + rest;
            && |EncodeItem(item)| >= 4 && AfterFirst(data) == rest && PacketLength(data) <= |data|
            && data[PacketLength(data)..] == rest
            && (data[1] == SENDER_REPORT ==> |data| >= 28)
            && ReportOf(data) == Expected(item)
  {
    var data := EncodeItem(item) + rest;
    match item {
      case Sr(first, sender, extra) =>
        SenderFront(first, sender, extra, rest);
      case Other(first, packetType, body) =>
        OtherFront(first, packetType, body, rest);
    }
  }

  lemma OtherFront(first: byte, packetType: byte, body: seq<byte>, rest: seq<byte>)
    requires packetType != SENDER_REPORT && |body| % 4 == 0 && |body| < 4 * TWO16
    ensures var data := [first, packetType] + Be16(|body| / 4) + body + rest;
            && PacketLength(data) == 4 + |body| && data[4 + |body|..] == rest && data[1] == packetType
  {
    var data := [first, packetType] + Be16(|body| / 4) + body + rest;
    Be16RoundTrip(|body| / 4);
    assert data[2..4] == Be16(|body| / 4);
    Read16Slice(data, 2);
  }

  /** A compound packet followed by a tail the loop can read. */
  lemma {:induction false} SplitItems(items: seq<Item>, tail: seq<byte>)
    requires ValidItems(items) && Readable(tail)
    ensures Readable(Encode(items) + tail)
    ensures var t := ParseCompound(tail);
            ParseCompound(Encode(items) + tail) == Compound(|items| + t.count, AllExpected(items) + t.output)
    decreases |items|
  {
    hide Readable, ParseCompound, EncodeItem, Expected, ReportOf;
    var t := ParseCompound(tail);
    if items == [] {
      assert Encode(items) + tail == tail;
    } else {
      var rest := Encode(items[1..]) + tail;
      SplitItems(items[1..], tail);
      ItemFront(items[0], rest);
      var data := EncodeItem(items[0]) + rest;
      Assoc(EncodeItem(items[0]), Encode(items[1..]), tail);
      ReadableFront(data);
      CompoundStep(data);
      Assoc(Expected(items[0]), AllExpected(items[1..]), t.output);
    }
  }

  lemma ReadableFront(data: seq<byte>)
    requires |data| >= 4 && (data[1] == SENDER_REPORT ==> |data| >= 28)
    requires PacketLength(data) <= |data| && Readable(data[PacketLength(data)..])
    ensures Readable(data)
  {}

  /** Concatenated packets are counted one by one and every sender report is
      returned with its six fields, in order; fewer than four stray bytes at the
      end are ignored. */
  lemma CompoundSplits(items: seq<Item>, tail: seq<byte>)
    requires ValidItems(items) && |tail| < 4
    ensures Readable(Encode(items) + tail)
    ensures ParseCompound(Encode(items) + tail) == Compound(|items|, AllExpected(items))
  {
    SplitItems(items, tail);
  }

  /** A last packet whose length runs past the end is counted and reported like the
      others. */
  lemma CutShort(items: seq<Item>, tail: seq<byte>)
    requires ValidItems(items) && Readable(tail) && |tail| >= 4
    requires 4 + 4 * (0x100 * (tail[2] as int) + tail[3]) > |tail|
    ensures Readable(Encode(items) + tail)
    ensures ParseCompound(Encode(items) + tail) == Compound(|items| + 1, AllExpected(items) + ReportOf(tail))
  {
    hide ReportOf, Encode, AllExpected;
    SplitItems(items, tail);
    assert ReportOf(tail) + [] == ReportOf(tail);
  }

  /** The count is the number of packets exactly when fewer than four bytes
      follow them; a packet cut short is counted too. */
  lemma CountExactIff(items: seq<Item>, tail: seq<byte>)
    requires ValidItems(items) && Readable(tail)
    ensures Readable(Encode(items) + tail)
    ensures ParseCompound(Encode(items) + tail).count == |items| <==> |tail| < 4
  {
    SplitItems(items, tail);
  }
}
