/** The loss window of an incoming RTP session: a ring of 256 slots, a running
    count of lost packets and the next expected sequence number. `Step` is one
    call of AddPacket on values, with the widths of the C++ fields; class
    LossSession is the mutable object. Module LossHistory says what the window
    is a fast form of. */
module LossWindow {
  import opened Bytes

  const SIZE: int := 256

  /** One slot; `createdAtTime` is zero while the packet is outstanding and
      `extSeq` is -1 in a slot that was never used. */
  datatype PacketInfo = PacketInfo(lossAtTime: u64, createdAtTime: u64, sentAtTime: u64, retry: byte, extSeq: int)

  const EMPTY: PacketInfo := PacketInfo(0, 0, 0, 0, -1)

  /** What AddPacket reads of a packet. */
  datatype Packet = Packet(extSeq: u32, recvTimeMs: u64)

  function Arrival(p: Packet): PacketInfo
  {
    PacketInfo(0, p.recvTimeMs, 0, 0, p.extSeq)
  }

  function Outstanding(seqNum: u32, now: u64): PacketInfo
  {
    PacketInfo(now, 0, 0, 0, seqNum)
  }

  predicate IsCountInTotalLost(p: PacketInfo)
  {
    p.createdAtTime == 0 && p.extSeq != -1
  }

  const NACK_WAIT_TIME: u64 := 20
  const JITTER_TIME: u64 := 5

  /** Due for a retransmission request; the time differences are unsigned 64-bit. */
  predicate IsLost(p: PacketInfo, now: u64, rtt: u32)
  {
    && p.createdAtTime == 0
    && (now - p.lossAtTime) % TWO64 > JITTER_TIME
    && (now - p.sentAtTime) % TWO64 > Max(NACK_WAIT_TIME, rtt)
    && p.retry < 20
    && p.extSeq != -1
  }

  // ---------------------------------------------------------------- one call, on values

  datatype State = State(ring: seq<PacketInfo>, totalLost: u16, nextSeq: u32)

  type Window = s: State | |s.ring| == SIZE witness Initial()

  function Initial(): (s: State)
    ensures |s.ring| == SIZE
  {
    State(seq(SIZE, _ => EMPTY), 0, 0)
  }

  /** Overwrite the slot of `info`; a lost packet that is covered stops counting. */
  function Store(s: Window, info: PacketInfo): (t: Window)
    requires info.extSeq >= 0
    ensures t.nextSeq == s.nextSeq
  {
    var pos := info.extSeq % SIZE;
    State(s.ring[pos := info],
          if IsCountInTotalLost(s.ring[pos]) then (s.totalLost - 1) % TWO16 else s.totalLost,
          s.nextSeq)
  }

  /** The loop: every number from nextSeq up to `limit` becomes outstanding. */
  function FillGap(s: Window, limit: u32, now: u64): (t: Window)
    requires s.nextSeq <= limit
    ensures t.nextSeq == limit
    decreases limit - s.nextSeq
  {
    if s.nextSeq == limit then s
    else FillGap(SkipOne(s, now), limit, now)
  }

  function SkipOne(s: Window, now: u64): (t: Window)
    requires s.nextSeq < TWO32 - 1
    ensures t.nextSeq == s.nextSeq + 1
  {
    var t := Store(s, Outstanding(s.nextSeq, now));
    t.(nextSeq := s.nextSeq + 1, totalLost := (t.totalLost + 1) % TWO16)
  }

  predicate Resets(s: Window, p: Packet)
  {
    p.extSeq > s.nextSeq && p.extSeq - s.nextSeq >= SIZE - 1
  }

  function Step(s: Window, p: Packet): (t: Window)
  {
    var s0: Window := if Resets(s, p) then Initial() else s;
    if s0.nextSeq == 0 then
      s0.(ring := s0.ring[p.extSeq % SIZE := Arrival(p)], nextSeq := (p.extSeq + 1) % TWO32)
    else if s0.nextSeq <= p.extSeq then
      Store(FillGap(s0, p.extSeq, p.recvTimeMs), Arrival(p)).(nextSeq := (p.extSeq + 1) % TWO32)
    else
      Store(s0, Arrival(p))
  }

  /** The state after a run of packets. */
  function Run(ps: seq<Packet>): (s: Window)
  {
    if ps == [] then Initial() else Step(Run(ps[..|ps| - 1]), ps[|ps| - 1])
  }

  // ---------------------------------------------------------------- the object

  class LossSession {
    const packets: array<PacketInfo>
    var totalLost: u16
    var nextSeq: u32

    ghost predicate Valid()
      reads this
    {
      packets.Length == SIZE
    }

    ghost function Value(): Window
      reads this, packets
      requires Valid()
    {
      State(packets[..], totalLost, nextSeq)
    }

    constructor ()
      ensures Valid() && fresh(packets)
      ensures Value() == Initial()
    {
      packets := new PacketInfo[SIZE](_ => EMPTY);
      totalLost := 0;
      nextSeq := 0;
      new;
      assert packets[..] == Initial().ring;
    }

    method Reset()
      requires Valid()
      modifies this, packets
      ensures Valid() && Value() == Initial()
    {
      forall i | 0 <= i < SIZE {
        packets[i] := EMPTY;
      }
      totalLost := 0;
      nextSeq := 0;
      assert packets[..] == Initial().ring;
    }

    /** `if (isCountInTotalLost(packets[pos])) totalLost--; packets[pos] = info`. */
    method Put(info: PacketInfo)
      requires Valid() && info.extSeq >= 0
      modifies this`totalLost, packets
      ensures Valid() && Value() == Store(old(Value()), info)
    {
      var pos := info.extSeq % SIZE;
      if IsCountInTotalLost(packets[pos]) {
        totalLost := (totalLost - 1) % TWO16;
      }
      packets[pos] := info;
    }

    method AddPacket(packet: Packet) returns (lost: u16)
      requires Valid()
      modifies this, packets
      ensures Valid() && Value() == Step(old(Value()), packet)
      ensures lost == totalLost
    {
      var extSeq := packet.extSeq;
      if extSeq > nextSeq && extSeq - nextSeq >= SIZE - 1 {
        Reset();
      }
      if nextSeq == 0 {
        packets[extSeq % SIZE] := Arrival(packet);
        nextSeq := (extSeq + 1) % TWO32;
        return totalLost;
      }
      if nextSeq <= extSeq {
        ghost var start := Value();
        while nextSeq < extSeq
          invariant nextSeq <= extSeq
          invariant FillGap(Value(), extSeq, packet.recvTimeMs) == FillGap(start, extSeq, packet.recvTimeMs)
        {
          Put(Outstanding(nextSeq, packet.recvTimeMs));
          nextSeq := nextSeq + 1;
          totalLost := (totalLost + 1) % TWO16;
        }
        assert nextSeq == extSeq;
        Put(Arrival(packet));
        nextSeq := (nextSeq + 1) % TWO32;
      } else {
        Put(Arrival(packet));
      }
      return totalLost;
    }
  }
}
