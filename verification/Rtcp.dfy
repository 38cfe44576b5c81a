/** RTCP: the common header, sender reports with their clock fields, the delay
    field of a report block, and the splitting of compound packets. The doubles
    of the clock conversions are real numbers here. */
module Rtcp {
  import opened Bytes
  import opened ByteIo

  const COMMON_HEADER_SIZE: int := 4
  const SENDER_REPORT_SIZE: int := 24
  const SENDER_REPORT: byte := 200
  const RECEIVER_REPORT: byte := 201

  // ---------------------------------------------------------------- common header

  datatype Header = Header(count: byte, padding: bool, version: byte, packetType: byte, length: u16)

  /** The padding flag is taken from bit 4, which belongs to the count. */
  function ParseHeader(data: seq<byte>): Header
    requires |data| >= COMMON_HEADER_SIZE
  {
    Header(data[0] % 0x20, data[0] / 0x10 % 2 != 0, data[0] / 0x40, data[1], (Read16(data, 2) + 1) * 4 % TWO16)
  }

  function HeaderBytes(h: Header): (s: seq<byte>)
    ensures |s| == COMMON_HEADER_SIZE
  {
    [(if h.padding then 0xA0 else 0x80) + h.count % 0x20, h.packetType] + Be16((h.length / 4 - 1) % TWO16)
  }

  class CommonHeader {
    var count: byte
    var padding: bool
    var version: byte
    var packetType: byte
    var length: u16

    ghost function Value(): Header
      reads this
    {
      Header(count, padding, version, packetType, length)
    }

    constructor (packetType: byte, count: byte, length: u16)
      ensures Value() == Header(count, false, 2, packetType, length)
    {
      this.count, this.padding, this.version, this.packetType, this.length := count, false, 2, packetType, length;
    }

    /** Returns the header size, or 0 when there is no room for one. */
    method Parse(data: array<byte>, at: nat, size: nat) returns (len: nat)
      requires at + size <= data.Length
      modifies this
      ensures len == if size < COMMON_HEADER_SIZE then 0 else COMMON_HEADER_SIZE
      ensures len == 0 ==> Value() == old(Value())
      ensures len != 0 ==> Value() == ParseHeader(data[at..at + size])
    {
      if size < COMMON_HEADER_SIZE {
        return 0;
      }
      ghost var bytes := data[at..at + size];
      version := data[at] / 0x40;
      padding := data[at] / 0x10 % 2 != 0;
      count := data[at] % 0x20;
      packetType := data[at + 1];
      var words: int := Read2(data, at + 2);
      assert words == Read16(bytes, 2);
      length := (words + 1) * 4 % TWO16;
      return COMMON_HEADER_SIZE;
    }

    method Serialize(data: array<byte>, size: nat) returns (len: nat)
      requires size <= data.Length
      modifies data
      ensures len == if size < COMMON_HEADER_SIZE then 0 else COMMON_HEADER_SIZE
      ensures len == 0 ==> unchanged(data)
      ensures len != 0 ==> Written(old(data[..]), data[..], 0, HeaderBytes(Value()))
    {
      if size < COMMON_HEADER_SIZE {
        return 0;
      }
      hide BitOr;
      var flags := if padding then 5 else 4;
      CountBelowFlags(flags, count % 0x20);
      var first := BitOr(flags * 0x20, count % 0x20);
      var words := (length / 4 - 1) % TWO16;
      assert HeaderBytes(Value()) == [first, packetType] + Be16(words);
      data[0] := first;
      data[1] := packetType;
      Write2(data, 2, words);
      return COMMON_HEADER_SIZE;
    }
  }

  lemma CountBelowFlags(flags: nat, count: nat)
    requires count < 0x20
    ensures BitOr(flags * 0x20, count) == flags * 0x20 + count
  {
    assert Pow2(5) == 0x20;
    OrIsAdd(flags, count, 5);
  }

  // ---------------------------------------------------------------- sender reports

  datatype Sender = Sender(ssrc: u32, ntpSec: u32, ntpFrac: u32, rtpTimestamp: u32, packetsSent: u32, octetsSent: u32)

  const NO_SENDER: Sender := Sender(0, 0, 0, 0, 0, 0)

  function SenderBytes(s: Sender): (b: seq<byte>)
    ensures |b| == SENDER_REPORT_SIZE
  {
    Be32(s.ssrc) + Be32(s.ntpSec) + Be32(s.ntpFrac) + Be32(s.rtpTimestamp) + Be32(s.packetsSent) + Be32(s.octetsSent)
  }

  /** A serialised report: its blocks are counted but not written. */
  function SenderWire(s: Sender, blocks: nat): (b: seq<byte>)
    ensures |b| == COMMON_HEADER_SIZE + SENDER_REPORT_SIZE
  {
    HeaderBytes(Header(blocks % 0x100, false, 2, SENDER_REPORT, 28)) + SenderBytes(s)
  }

  /** The buffer holds what the constructor reads: nothing for a size below a
      header, the header otherwise, and all 28 bytes unless the length field
      asks for more than `size`. */
  predicate SenderReadable(data: seq<byte>, size: nat)
  {
    size < COMMON_HEADER_SIZE || (
      |data| >= COMMON_HEADER_SIZE
      && (size < ParseHeader(data).length || |data| >= COMMON_HEADER_SIZE + SENDER_REPORT_SIZE))
  }

  /** What the constructor reads from a packet of `size` bytes. */
  function ParseSender(data: seq<byte>, size: nat): Sender
    requires SenderReadable(data, size)
  {
    if size < COMMON_HEADER_SIZE || size < ParseHeader(data).length then NO_SENDER
    else SenderAt(data)
  }

  function SenderAt(data: seq<byte>): Sender
    requires |data| >= COMMON_HEADER_SIZE + SENDER_REPORT_SIZE
  {
    Sender(Read32(data, 4), Read32(data, 8), Read32(data, 12), Read32(data, 16), Read32(data, 20), Read32(data, 24))
  }

  lemma ShiftedRead(data: seq<byte>, at: nat, k: nat)
    requires at + k + 4 <= |data|
    ensures Read32(data[at..], k) == Read32(data, at + k)
  {}

  /** Seconds between 1900 and 1970. */
  const EPOCH_OFFSET: int := 2208988800

  /** Fraction units of the NTP format in one microsecond. */
  const UNITS_PER_US: real := 4294.967296

  class SendReportPacket {
    var ssrc: u32
    var ntpSec: u32
    var ntpFrac: u32
    var rtpTimestamp: u32
    var packetsSent: u32
    var octetsSent: u32
    var blocks: nat

    ghost function Value(): Sender
      reads this
    {
      Sender(ssrc, ntpSec, ntpFrac, rtpTimestamp, packetsSent, octetsSent)
    }

    constructor (s: Sender, blocks: nat)
      ensures Value() == s && this.blocks == blocks
    {
      ssrc, ntpSec, ntpFrac := s.ssrc, s.ntpSec, s.ntpFrac;
      rtpTimestamp, packetsSent, octetsSent := s.rtpTimestamp, s.packetsSent, s.octetsSent;
      this.blocks := blocks;
    }

    /** Builds a report from a buffer position; the fields stay zero when the
        length field asks for more than `size` bytes. */
    constructor Parse(data: array<byte>, at: nat, size: nat)
      requires at <= data.Length && SenderReadable(data[at..], size)
      ensures Value() == ParseSender(data[at..], size) && blocks == 0
    {
      ssrc, ntpSec, ntpFrac, rtpTimestamp, packetsSent, octetsSent, blocks := 0, 0, 0, 0, 0, 0, 0;
      new;
      hide ParseHeader, Read32;
      var header := new CommonHeader(0, 0, 0);
      var len := header.Parse(data, at, Min(size, data.Length - at));
      if len == 0 {
        return;
      }
      ghost var n := Min(size, data.Length - at);
      SliceSlice(data[..], at, data.Length, 0, n);
      assert data[..][at..data.Length] == data[at..] && data[..][at + 0..at + n] == data[at..at + n];
      ParseHeaderPrefix(data[at..], data[at..at + n]);
      if size < header.length {
        return;
      }
      ReadFields(data, at);
    }

    method ReadFields(data: array<byte>, at: nat)
      requires at + COMMON_HEADER_SIZE + SENDER_REPORT_SIZE <= data.Length
      modifies this`ssrc, this`ntpSec, this`ntpFrac, this`rtpTimestamp, this`packetsSent, this`octetsSent
      ensures Value() == SenderAt(data[at..])
    {
      hide Read32;
      ghost var bytes := data[at..];
      forall k: nat | k <= 24
        ensures Read32(bytes, k) == Read32(data[..], at + k)
      {
        ShiftedRead(data[..], at, k);
      }
      ssrc := Read4(data, at + 4);
      ntpSec := Read4(data, at + 8);
      ntpFrac := Read4(data, at + 12);
      rtpTimestamp := Read4(data, at + 16);
      packetsSent := Read4(data, at + 20);
      octetsSent := Read4(data, at + 24);
    }

    /** A fresh 28-byte packet. */
    method Serialize() returns (data: array<byte>, size: nat)
      ensures fresh(data) && size == data.Length && data[..] == SenderWire(Value(), blocks)
    {
      data := new byte[COMMON_HEADER_SIZE + SENDER_REPORT_SIZE];
      var header := new CommonHeader(SENDER_REPORT, blocks % 0x100, 28);
      var len := header.Serialize(data, data.Length);
      ghost var head := HeaderBytes(header.Value());
      assert data[..4] == head;
      Write4(data, len, ssrc);
      assert data[..8] == head + Be32(ssrc);
      Write4(data, len + 4, ntpSec);
      assert data[..12] == head + Be32(ssrc) + Be32(ntpSec);
      Write4(data, len + 8, ntpFrac);
      assert data[..16] == head + Be32(ssrc) + Be32(ntpSec) + Be32(ntpFrac);
      Write4(data, len + 12, rtpTimestamp);
      Write4(data, len + 16, packetsSent);
      Write4(data, len + 20, octetsSent);
      size := len + 24;
      SenderPieces(data[..], head, Value());
    }

    /** From microseconds since 1970; conversion of the seconds to 32 bits is
        defined for times below 2^32 seconds. */
    method SetTimestamp(time: u64)
      requires time < TWO32 * 1_000_000
      modifies this`ntpSec, this`ntpFrac
      ensures ntpSec == NtpSeconds(time) && ntpFrac == NtpFraction(time)
    {
      var sec := time / 1_000_000;
      ntpSec := (sec + EPOCH_OFFSET) % TWO32;
      FractionBound(time);
      ntpFrac := ((time - sec * 1_000_000) as real * UNITS_PER_US).Floor;
    }

    /** Back to microseconds; times before 1970 would leave the unsigned range. */
    method GetTimestamp() returns (ts: nat)
      requires ntpSec >= EPOCH_OFFSET
      ensures ts == Microseconds(ntpSec, ntpFrac)
    {
      ts := ntpSec - EPOCH_OFFSET;
      ts := ts * 1_000_000;
      ts := (ts as real + ntpFrac as real / UNITS_PER_US).Floor;
    }
  }

  lemma SenderPieces(data: seq<byte>, head: seq<byte>, s: Sender)
    requires |data| == 28 && |head| == 4
    requires data[..16] == head + Be32(s.ssrc) + Be32(s.ntpSec) + Be32(s.ntpFrac)
    requires data[16..20] == Be32(s.rtpTimestamp) && data[20..24] == Be32(s.packetsSent)
    requires data[24..28] == Be32(s.octetsSent)
    ensures data == head + SenderBytes(s)
  {
    assert data == data[..16] + data[16..20] + data[20..24] + data[24..28];
  }

  lemma ParseHeaderPrefix(bytes: seq<byte>, front: seq<byte>)
    requires COMMON_HEADER_SIZE <= |front| <= |bytes| && front == bytes[..|front|]
    ensures ParseHeader(front) == ParseHeader(bytes)
  {}

  // ---------------------------------------------------------------- clock conversions

  function NtpSeconds(time: u64): u32
  {
    (time / 1_000_000 + EPOCH_OFFSET) % TWO32
  }

  function NtpFraction(time: u64): int
  {
    ((time % 1_000_000) as real * UNITS_PER_US).Floor
  }

  function Microseconds(sec: u32, frac: u32): nat
    requires sec >= EPOCH_OFFSET
  {
    ((sec - EPOCH_OFFSET) as real * 1_000_000.0 + frac as real / UNITS_PER_US).Floor
  }

  lemma FractionBound(time: u64)
    ensures 0 <= NtpFraction(time) < TWO32
  {
    var us := (time % 1_000_000) as real;
    assert us <= 999_999.0;
    assert us * UNITS_PER_US <= 999_999.0 * UNITS_PER_US;
  }

  /** The conversion there and back is possible at all exactly below 2085978496
      seconds; it keeps the multiples of 15625 us and takes one microsecond off
      every other time. */
  lemma TimestampRoundTrip(time: u64)
    requires time < TWO32 * 1_000_000
    ensures NtpSeconds(time) >= EPOCH_OFFSET <==> time < 2085978496 * 1_000_000
    ensures time < 2085978496 * 1_000_000 ==>
              (FractionBound(time); Microseconds(NtpSeconds(time), NtpFraction(time))
                                    == if time % 15625 == 0 then time else time - 1)
  {
    FractionBound(time);
    var sec, us, f := time / 1_000_000, time % 1_000_000, NtpFraction(time);
    if time < 2085978496 * 1_000_000 {
      FractionBack(us, f);
      FractionExactIff(us, f);
      var x := f as real / UNITS_PER_US;
      assert NtpSeconds(time) - EPOCH_OFFSET == sec;
      FloorShift(sec * 1_000_000, x);
      assert time == 15625 * (64 * sec) + us;
    }
  }

  /** 4294.967296 is 2^26 / 15625, and 2^26 is invertible modulo 15625. */
  lemma FractionExactIff(us: nat, f: int)
    requires f == (us as real * UNITS_PER_US).Floor
    ensures f as real / UNITS_PER_US == us as real <==> us % 15625 == 0
  {
    if us % 15625 == 0 {
      var k := us / 15625;
      assert us as real * UNITS_PER_US == (k * 0x400_0000) as real;
    } else if f as real / UNITS_PER_US == us as real {
      assert f as real == us as real * UNITS_PER_US;
      assert (f * 15625) as real == (us * 0x400_0000) as real;
      assert f * 15625 == us * 0x400_0000;
      WholeUnits(us, f);
    }
  }

  lemma WholeUnits(us: nat, f: int)
    requires f * 15625 == us * 0x400_0000
    ensures us % 15625 == 0
  {
    assert 0x400_0000 * 12659 == 15625 * 54369991 + 1;
    assert us == 15625 * (f * 12659 - us * 54369991);
  }

  lemma FloorShift(n: int, x: real)
    ensures (n as real + x).Floor == n + x.Floor
  {}

  lemma FractionBack(us: nat, f: int)
    requires f == (us as real * UNITS_PER_US).Floor
    ensures us as real - 1.0 < f as real / UNITS_PER_US <= us as real
  {
    var p := us as real * UNITS_PER_US;
    assert p - 1.0 < f as real <= p;
  }

  // ---------------------------------------------------------------- delay since the last report

  /** `(ms / 1000) << 16 | (uint32_t)((ms % 1000) * 65.535)`. */
  function DelayUnits(ms: u32): nat
  {
    ms / 1000 * 0x1_0000 % TWO32 + ((ms % 1000) as real * 65.535).Floor
  }

  function DelayMilliseconds(units: u32): int
  {
    ((units / 0x1_0000 * 1000) as real + (units % 0x1_0000) as real / 65.635).Floor
  }

  lemma DelayFraction(r: nat)
    requires r < 1000
    ensures var f := (r as real * 65.535).Floor;
            && 0 <= f < 0x1_0000
            && r - 2 <= (f as real / 65.635).Floor <= r
            && ((f as real / 65.635).Floor == r <==> r == 0)
  {
    var p := r as real * 65.535;
    var f := p.Floor;
    assert p - 1.0 < f as real <= p;
    assert p <= 999.0 * 65.535;
    var x := f as real / 65.635;
    assert x * 65.635 == f as real;
    assert x <= r as real;
    assert r > 0 ==> x < r as real;
    assert x > r as real - 2.0;
  }

  /** The seconds are kept modulo 2^16. The two conversions use different
      constants, so what is left of a delay comes back up to two milliseconds
      short; the delay itself comes back for whole seconds below 2^16 only. */
  lemma DelayRoundTrip(ms: u32)
    ensures DelayUnits(ms) < TWO32
    ensures var kept := ms % 65536000; kept - 2 <= DelayMilliseconds(DelayUnits(ms)) <= kept
    ensures DelayMilliseconds(DelayUnits(ms)) == ms <==> ms < 65536000 && ms % 1000 == 0
  {
    hide DelayUnits, DelayMilliseconds;
    var s, r := ms / 1000 % 0x1_0000, ms % 1000;
    KeptSeconds(ms);
    DelayFraction(r);
    var f := (r as real * 65.535).Floor;
    DelayHalf(ms, s, f);
    DelayBack(s, f);
  }

  lemma KeptSeconds(ms: u32)
    ensures ms % 65536000 == 1000 * (ms / 1000 % 0x1_0000) + ms % 1000
    ensures ms / 1000 * 0x1_0000 % TWO32 == ms / 1000 % 0x1_0000 * 0x1_0000
  {
    var t := ms / 1000;
    var q, s := t / 0x1_0000, t % 0x1_0000;
    DivMod(ms, 65536000, q, 1000 * s + ms % 1000);
    DivMod(t * 0x1_0000, TWO32, q, s * 0x1_0000);
  }

  lemma DelayHalf(ms: u32, s: nat, f: nat)
    requires s == ms / 1000 % 0x1_0000 && f == ((ms % 1000) as real * 65.535).Floor && f < 0x1_0000
    ensures DelayUnits(ms) == s * 0x1_0000 + f < TWO32
  {
    KeptSeconds(ms);
  }

  lemma DelayBack(s: nat, f: nat)
    requires s < 0x1_0000 && f < 0x1_0000
    ensures DelayMilliseconds(s * 0x1_0000 + f) == 1000 * s + (f as real / 65.635).Floor
  {
    DivMod(s * 0x1_0000 + f, 0x1_0000, s, f);
    FloorShift(s * 1000, f as real / 65.635);
  }

  // ---------------------------------------------------------------- the same in integers

  /** The fraction field is the part of the second in units of 2^-32 s, rounded
      down. */
  lemma FractionInIntegers(time: u64)
    ensures NtpFraction(time) == time % 1_000_000 * 0x1_0000_0000 / 1_000_000
    ensures NtpSeconds(time) == (time / 1_000_000 + 2_208_988_800) % 0x1_0000_0000
  {
    var us := time % 1_000_000;
    FloorOfQuotient(us * 0x1_0000_0000, 1_000_000, us as real * UNITS_PER_US);
  }

  /** The time read back is the seconds since 1970 and the fraction in
      microseconds, rounded down. */
  lemma MicrosecondsInIntegers(sec: u32, frac: u32)
    requires sec >= 2_208_988_800
    ensures Microseconds(sec, frac) == (sec - 2_208_988_800) * 1_000_000 + frac * 1_000_000 / 0x1_0000_0000
  {
    var x := frac as real / UNITS_PER_US;
    assert x * UNITS_PER_US == frac as real;
    FloorOfQuotient(frac * 1_000_000, 0x1_0000_0000, x);
    FloorShift((sec - 2_208_988_800) * 1_000_000, x);
  }

  lemma FloorOfQuotient(a: nat, b: nat, x: real)
    requires b > 0 && x * b as real == a as real
    ensures x.Floor == a / b
  {
    var q, r := a / b, a % b;
    assert a == q * b + r;
    assert (x - q as real) * b as real == r as real;
    QuotientBetween(x - q as real, b, r);
  }

  lemma QuotientBetween(y: real, b: nat, r: nat)
    requires b > 0 && r < b && y * b as real == r as real
    ensures 0.0 <= y < 1.0
  {}

  /** The delay field holds the seconds modulo 2^16 and 65.535 units per
      millisecond; it is read with 65.635. */
  lemma DelayInIntegers(ms: u32, units: u32)
    ensures DelayUnits(ms) == ms / 1000 % 0x1_0000 * 0x1_0000 + ms % 1000 * 65535 / 1000
    ensures DelayMilliseconds(units) == units / 0x1_0000 * 1000 + units % 0x1_0000 * 1000 / 65635
  {
    KeptSeconds(ms);
    FloorOfQuotient(ms % 1000 * 65535, 1000, (ms % 1000) as real * 65.535);
    var x := (units % 0x1_0000) as real / 65.635;
    assert x * 65.635 == (units % 0x1_0000) as real;
    FloorOfQuotient(units % 0x1_0000 * 1000, 65635, x);
    FloorShift(units / 0x1_0000 * 1000, x);
  }

  class ReceiverReportBlock {
    const buffer: array<byte>

    ghost predicate Valid()
      reads this
    {
      buffer.Length == 24
    }

    constructor ()
      ensures Valid() && fresh(buffer) && buffer[..] == Zeros(24)
    {
      buffer := new byte[24](_ => 0);
      new;
      assert buffer[..] == Zeros(24);
    }

    method SetDelaySinceLastSrMs(ms: u32)
      requires Valid()
      modifies buffer
      ensures Written(old(buffer[..]), buffer[..], 20, Be32(DelayUnits(ms)))
    {
      hide DelayUnits, BitOr, Be32;
      var high := ms / 1000 * 0x1_0000 % TWO32;
      var low := ((ms % 1000) as real * 65.535).Floor;
      DelayHalves(ms, high, low);
      var dlsr := BitOr(high, low);
      Write4(buffer, 20, dlsr);
    }

    method GetDelaySinceLastSrMs() returns (ms: int)
      requires Valid()
      ensures ms == DelayMilliseconds(Read32(buffer[..], 20))
    {
      var dlsr := Read4(buffer, 20);
      ms := ((dlsr / 0x1_0000 * 1000) as real + (dlsr % 0x1_0000) as real / 65.635).Floor;
    }
  }

  lemma DelayHalves(ms: u32, high: int, low: int)
    requires high == ms / 1000 * 0x1_0000 % TWO32 && low == ((ms % 1000) as real * 65.535).Floor
    ensures high >= 0 && low >= 0 && BitOr(high, low) == DelayUnits(ms)
  {
    hide BitOr;
    DelayFraction(ms % 1000);
    LowHalf(high, low);
  }

  lemma LowHalf(high: nat, low: nat)
    requires high % 0x1_0000 == 0 && low < 0x1_0000
    ensures BitOr(high, low) == high + low
  {
    Pow2Bytes();
    OrIsAdd(high / 0x1_0000, low, 16);
  }

  // ---------------------------------------------------------------- compound packets

  datatype Report = SenderReport(sender: Sender) | ReceiverReport

  datatype Compound = Compound(count: nat, output: seq<Report>)

  /** The length of the packet at the front, from its own length field. */
  function PacketLength(data: seq<byte>): nat
    requires |data| >= COMMON_HEADER_SIZE
  {
    COMMON_HEADER_SIZE + 4 * (Read16(data, 2) as int)
  }

  function ReportOf(data: seq<byte>): seq<Report>
    requires |data| >= COMMON_HEADER_SIZE
    requires data[1] == SENDER_REPORT ==> |data| >= COMMON_HEADER_SIZE + SENDER_REPORT_SIZE
  {
    if data[1] == SENDER_REPORT then [SenderReport(ParseSender(data, PacketLength(data)))]
    else if data[1] == RECEIVER_REPORT then [ReceiverReport]
    else []
  }

  /** Every sender report the loop meets has its 28 bytes in the buffer; the
      source reads them without a check. */
  predicate Readable(data: seq<byte>)
    decreases |data|
  {
    |data| < COMMON_HEADER_SIZE || (
      && (data[1] == SENDER_REPORT ==> |data| >= COMMON_HEADER_SIZE + SENDER_REPORT_SIZE)
      && (PacketLength(data) <= |data| ==> Readable(data[PacketLength(data)..])))
  }

  /** The loop: a packet is counted even when its length runs past the end. */
  function ParseCompound(data: seq<byte>): Compound
    requires Readable(data)
    decreases |data|
  {
    if |data| < COMMON_HEADER_SIZE then Compound(0, [])
    else
      var n := PacketLength(data);
      var rest := if n > |data| then Compound(0, []) else ParseCompound(data[n..]);
      Compound(1 + rest.count, ReportOf(data) + rest.output)
  }

  method Parse(data: array<byte>, size: nat) returns (cnt: nat, output: seq<Report>)
    requires size <= data.Length && Readable(data[..size])
    ensures Compound(cnt, output) == ParseCompound(data[..size])
  {
    hide ReportOf, ParseSender, ParseHeader, Readable, ParseCompound;
    cnt, output := 0, [];
    var at, len: int := 0, size;
    ghost var rest := data[..size];
    ghost var all := ParseCompound(rest);
    EmptyCompound();
    while len >= 4
      invariant len >= 0 ==> 0 <= at && at + len == size && rest == data[at..size]
      invariant len < 0 ==> rest == []
      invariant Readable(rest)
      invariant all == Compound(cnt + ParseCompound(rest).count, output + ParseCompound(rest).output)
      decreases len
    {
      var pt := data[at + 1];
      var sliceLen := Read2(data, at + 2);
      assert pt == rest[1] && sliceLen == Read16(rest, 2);
      var packetLen: nat := COMMON_HEADER_SIZE + 4 * (sliceLen as int);
      CompoundStep(rest);
      var reports := ReadReport(data, at, size, pt, packetLen);
      Assoc(output, reports, ParseCompound(AfterFirst(rest)).output);
      output := output + reports;
      rest := AfterFirst(rest);
      len := len - packetLen;
      at := at + packetLen;
      cnt := cnt + 1;
    }
    CompoundDone(rest);
  }

  /** What follows the front packet; nothing if its length runs past the end. */
  function AfterFirst(data: seq<byte>): seq<byte>
    requires |data| >= COMMON_HEADER_SIZE
  {
    if PacketLength(data) > |data| then [] else data[PacketLength(data)..]
  }

  lemma EmptyCompound()
    ensures Readable([]) && ParseCompound([]) == Compound(0, [])
  {}

  lemma CompoundDone(data: seq<byte>)
    requires |data| < COMMON_HEADER_SIZE
    ensures Readable(data) && ParseCompound(data) == Compound(0, [])
  {}

  lemma CompoundStep(data: seq<byte>)
    requires Readable(data) && |data| >= COMMON_HEADER_SIZE
    ensures data[1] == SENDER_REPORT ==> |data| >= COMMON_HEADER_SIZE + SENDER_REPORT_SIZE
    ensures Readable(AfterFirst(data))
    ensures var next := ParseCompound(AfterFirst(data));
            ParseCompound(data) == Compound(1 + next.count, ReportOf(data) + next.output)
  {
    hide ReportOf;
  }

  /** The switch over the packet type. */
  method ReadReport(data: array<byte>, at: nat, size: nat, pt: byte, packetLen: nat) returns (reports: seq<Report>)
    requires at + COMMON_HEADER_SIZE <= size <= data.Length
    requires pt == data[at + 1] && packetLen == PacketLength(data[at..size])
    requires pt == SENDER_REPORT ==> at + COMMON_HEADER_SIZE + SENDER_REPORT_SIZE <= size
    ensures reports == ReportOf(data[at..size])
  {
    ghost var rest := data[at..size];
    if pt == SENDER_REPORT {
      var p := new SendReportPacket.Parse(data, at, packetLen);
      ParseSenderPrefix(data[at..], rest, packetLen);
      return [SenderReport(Sender(p.ssrc, p.ntpSec, p.ntpFrac, p.rtpTimestamp, p.packetsSent, p.octetsSent))];
    } else if pt == RECEIVER_REPORT {
      return [ReceiverReport];
    }
    return [];
  }

  lemma ParseSenderPrefix(data: seq<byte>, front: seq<byte>, size: nat)
    requires COMMON_HEADER_SIZE + SENDER_REPORT_SIZE <= |front| <= |data| && front == data[..|front|]
    ensures ParseSender(data, size) == ParseSender(front, size)
  {}
}
