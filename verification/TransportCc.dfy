/** The transport-wide congestion control feedback field of an RTCP packet:
    packet statuses, status chunks and receive deltas, as TransportCCFeedBack
    writes and reads them. The functions say what a call computes; class
    TransportCcFeedback holds the fields and the loops. */
module TransportCc {
  import opened Bytes

  datatype Status = NotReceived | SmallDelta | LargeOrNegativeDelta | Reserved

  function Symbol(s: Status): (n: nat)
    ensures n < 4
  {
    match s
    case NotReceived => 0
    case SmallDelta => 1
    case LargeOrNegativeDelta => 2
    case Reserved => 3
  }

  function StatusOf(n: nat): Status
  {
    if n == 0 then NotReceived else if n == 1 then SmallDelta else if n == 2 then LargeOrNegativeDelta else Reserved
  }

  // ---------------------------------------------------------------- receive times and deltas

  /** The encoder's running time; it starts at the first received packet. */
  datatype Clock = Unset | Running(time: u64)

  /** Conversion of an unsigned value to a 32-bit int. */
  function ToInt(n: nat): int
  {
    var r := n % TWO32;
    if r >= 0x8000_0000 then r - TWO32 else r
  }

  /** `(t / 64000) & 0x7FFFFF`. */
  function ReferenceOf(t: u64): (r: nat)
    ensures r < 0x80_0000
  {
    t / 64000 % 0x80_0000
  }

  /** The running time just before a received packet is quantised. */
  function Base(c: Clock, t: u64): u64
  {
    match c
    case Unset => 64000 * ReferenceOf(t)
    case Running(time) => time
  }

  function Delta(c: Clock, t: u64): int
  {
    var time := Base(c, t);
    if t > time then ToInt((t - time) / 250) else -ToInt((time - t) / 250)
  }

  function DeltaStatus(d: int): Status
  {
    if d < 0 || d > 127 then LargeOrNegativeDelta else SmallDelta
  }

  /** One entry of the map, with 0 for a packet that was not received. */
  function Advance(c: Clock, t: u64): Clock
  {
    if t == 0 then c else Running((Base(c, t) + Delta(c, t) * 250) % TWO64)
  }

  function Statuses(c: Clock, times: seq<u64>): (s: seq<Status>)
    ensures |s| == |times|
    decreases |times|
  {
    if times == [] then []
    else [if times[0] == 0 then NotReceived else DeltaStatus(Delta(c, times[0]))]
         + Statuses(Advance(c, times[0]), times[1..])
  }

  function Deltas(c: Clock, times: seq<u64>): seq<int>
    decreases |times|
  {
    if times == [] then []
    else (if times[0] == 0 then [] else [Delta(c, times[0])]) + Deltas(Advance(c, times[0]), times[1..])
  }

  /** The encoder's time after each received packet, 0 for the others. */
  function Quantised(c: Clock, times: seq<u64>): (q: seq<u64>)
    ensures |q| == |times|
    decreases |times|
  {
    if times == [] then []
    else var c' := Advance(c, times[0]);
         [if times[0] == 0 then 0 else c'.time] + Quantised(c', times[1..])
  }

  /** The reference time written in the header, if any packet was received. */
  function Reference(times: seq<u64>): (r: nat)
    ensures r < 0x80_0000
  {
    if times == [] then 0 else if times[0] != 0 then ReferenceOf(times[0]) else Reference(times[1..])
  }

  predicate AnyReceived(times: seq<u64>)
  {
    exists i :: 0 <= i < |times| && times[i] != 0
  }

  /** `delta * 250` stays inside a 32-bit int at every received packet; signed
      overflow would leave the encoder undefined. */
  predicate NoOverflow(c: Clock, times: seq<u64>)
    decreases |times|
  {
    times == [] || (
      && (times[0] != 0 ==> -0x8000_0000 <= Delta(c, times[0]) * 250 < 0x8000_0000)
      && NoOverflow(Advance(c, times[0]), times[1..]))
  }

  // ---------------------------------------------------------------- the wire form

  /** Seven two-bit symbols below the chunk's two leading one bits. */
  function ChunkBits(s: seq<Status>): nat
  {
    if s == [] then 3 else 4 * ChunkBits(s[..|s| - 1]) + Symbol(s[|s| - 1])
  }

  function Unreceived(n: nat): (s: seq<Status>)
    ensures |s| == n
  {
    seq(n, _ => NotReceived)
  }

  /** A short last chunk is filled up with NotReceived symbols. */
  function Padded(s: seq<Status>): (p: seq<Status>)
    requires |s| <= 7
    ensures |p| == 7
  {
    s + Unreceived(7 - |s|)
  }

  /** The value of a two-bit status chunk. */
  function Chunk(s: seq<Status>): nat
    requires |s| <= 7
  {
    ChunkBits(Padded(s))
  }

  function Chunks(s: seq<Status>): seq<byte>
  {
    if s == [] then [] else Be16(Chunk(s[..Min(7, |s|)])) + Chunks(s[Min(7, |s|)..])
  }

  /** A delta on the wire: one unsigned byte, or two bytes in two's complement. */
  function DeltaBytes(d: int): seq<byte>
  {
    if d < 0 || d > 127 then Be16(d % TWO16) else [d]
  }

  function AllDeltaBytes(ds: seq<int>): seq<byte>
  {
    if ds == [] then [] else DeltaBytes(ds[0]) + AllDeltaBytes(ds[1..])
  }

  /** Zero bytes up to a multiple of four. */
  function Filler(len: nat): (s: seq<byte>)
    ensures |s| < 4 && (len + |s|) % 4 == 0
  {
    Zeros((4 - len % 4) % 4)
  }

  /** Reference time and feedback count. The count is written one byte late and
      then overwritten by the first chunk; the byte meant for it stays 0. */
  function TimeHeader(times: seq<u64>): seq<byte>
  {
    if AnyReceived(times) then Be32(Reference(times) * 0x100) else []
  }

  function Header(first: u32, times: seq<u64>): seq<byte>
  {
    (Be16(first) + Be16(|times|)) + TimeHeader(times)
  }

  function Payload(times: seq<u64>): seq<byte>
  {
    Chunks(Statuses(Unset, times)) + AllDeltaBytes(Deltas(Unset, times))
  }

  function Body(first: u32, times: seq<u64>): seq<byte>
  {
    Header(first, times) + Payload(times)
  }

  /** Everything Serialize writes for the map entries `times` starting at key `first`. */
  function Wire(first: u32, times: seq<u64>): seq<byte>
  {
    Body(first, times) + Filler(|Body(first, times)|)
  }

  // ---------------------------------------------------------------- reading status chunks

  function TwoBitStatus(chunk: u16, j: nat): Status
    requires j < 7
  {
    StatusOf(chunk / Pow2(12 - 2 * j) % 4)
  }

  function OneBitStatus(chunk: u16, j: nat): Status
    requires j < 14
  {
    StatusOf(chunk / Pow2(13 - j) % 2)
  }

  /** The statuses of one chunk: two-bit symbols, one-bit symbols, or a run. */
  function Expand(chunk: u16): seq<Status>
  {
    if chunk >= 0x8000 then
      if chunk / 0x4000 % 2 == 1 then seq(7, j requires 0 <= j < 7 => TwoBitStatus(chunk, j))
      else seq(14, j requires 0 <= j < 14 => OneBitStatus(chunk, j))
    else seq(chunk % 0x2000, _ => StatusOf(chunk / 0x2000))
  }

  /** Where the status loop stops, and what it collected. */
  datatype Scan = Truncated | Scanned(statuses: seq<Status>, next: nat)

  function ScanStatuses(data: seq<byte>, pos: nat, count: nat, done: seq<Status>): (r: Scan)
    requires pos <= |data|
    ensures r.Scanned? ==> |r.statuses| >= count && r.next <= |data|
    decreases |data| - pos
  {
    if |done| >= count then Scanned(done, pos)
    else if pos + 2 > |data| then Truncated
    else ScanStatuses(data, pos + 2, count, done + Expand(Read16(data, pos)))
  }

  // ---------------------------------------------------------------- reading deltas

  /** What the decoder records for one status; a reserved status leaves no entry. */
  datatype Entry = Absent | At(time: u64)

  /** A two-byte delta as a signed number. */
  function SignedDelta(u: u16): int
  {
    if u >= 0x8000 then u - TWO16 else u
  }

  /** The effect of one status: the entry, the delta bytes used and the new time. */
  datatype Reading = Short | Read(entry: Entry, used: nat, time: u64)

  function ReadOne(status: Status, bytes: seq<byte>, time: u64): (r: Reading)
    ensures r.Read? ==> r.used <= |bytes|
  {
    match status
    case NotReceived => Read(At(0), 0, time)
    case SmallDelta =>
      if |bytes| < 1 then Short
      else var t := (time + 250 * (bytes[0] as int)) % TWO64; Read(At(t), 1, t)
    case LargeOrNegativeDelta =>
      if |bytes| < 2 then Short
      else var t := (time + 250 * SignedDelta(Read16(bytes, 0))) % TWO64; Read(At(t), 2, t)
    case Reserved => Read(Absent, 0, time)
  }

  /** The entries of the delta section; it ends early when the bytes run out. */
  function Decode(statuses: seq<Status>, bytes: seq<byte>, time: u64): (e: seq<Entry>)
    ensures |e| <= |statuses|
    decreases |statuses|
  {
    if statuses == [] then []
    else match ReadOne(statuses[0], bytes, time)
      case Short => []
      case Read(entry, used, t) => [entry] + Decode(statuses[1..], bytes[used..], t)
  }

  /** Entry i goes to key base + i, in 32-bit arithmetic. */
  function Store(m: map<u32, u64>, base: u32, entries: seq<Entry>): map<u32, u64>
  {
    if entries == [] then m
    else
      var n := |entries| - 1;
      var m' := Store(m, base, entries[..n]);
      match entries[n]
      case Absent => m'
      case At(t) => m'[(base + n) % TWO32 := t]
  }

  // ---------------------------------------------------------------- one call of Parse, on values

  datatype Feedback = Feedback(packets: map<u32, u64>, feedbackPacketCount: byte, referenceTime: u32)

  /** The decoder's first time: a 32-bit product of the unshifted header field. */
  function StartTime(referenceTime: u32): u64
  {
    referenceTime * 64000 % TWO32
  }

  function ParseEffect(fb: Feedback, data: seq<byte>): Feedback
  {
    if |data| < 8 then fb
    else
      var base, count := Read32(data, 0), Read16(data, 2);
      var reference := Read32(data, 4) - Read32(data, 4) % 0x100;
      var fb' := fb.(referenceTime := reference, feedbackPacketCount := data[7]);
      match ScanStatuses(data, 8, count, [])
      case Truncated => fb'
      case Scanned(statuses, next) =>
        fb'.(packets := Store(fb.packets, base, Decode(statuses[..count], data[next..], StartTime(reference))))
  }
}
