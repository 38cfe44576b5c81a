/** What goes wrong in the header: the exact conditions under which a packet is
    filed under its own number, the parsed times are the encoder's own, and a
    received packet is parsed as not received. */
module TransportCcHeader {
  import opened Bytes
  import opened TransportCc
  import opened TransportCcCodec
  import opened TransportCcCount
  import opened TransportCcDecoder
  import opened TransportCcQuantisation
  import opened TransportCcResults
  import opened TransportCcRoundTrip

  // ---------------------------------------------------------------- sequence numbers

  lemma HalvesMatch(first: u32, n: nat)
    requires n < TWO16
    ensures first % TWO16 * TWO16 + n == first <==> first == n * 0x1_0001
  {
    if first == n * 0x1_0001 {
      DivMod(first, TWO16, n, n);
    }
  }

  /** Packet i is filed under its own number exactly when the first number is
      0x10001 times the number of packets. */
  lemma NumberMatchesIff(fb: Feedback, first: u32, times: seq<u64>, i: nat)
    requires AnyReceived(times) && |times| < TWO16 && DeltasFit(Unset, times)
    requires i < |times| && first + |times| <= TWO32
    ensures var parsed, key := ParseEffect(fb, Wire(first, times)).packets, (DecodedBase(first, times) + i) % TWO32;
            && MapsTo(parsed, key, if times[i] == 0 then 0 else DecodedTime(times, i))
            && (key == first + i <==> first == |times| * 0x1_0001)
  {
    hide ParseEffect, Wire, DeltasFit, AnyReceived, DecodedTime;
    RoundTripEntry(fb, first, times, i);
    HalvesMatch(first, |times|);
    assert (DecodedBase(first, times) + i) % TWO32 == first + i <==> DecodedBase(first, times) == first;
  }

  /** The keys a fresh receiver records, for any deltas. */
  lemma ParsedKeys(fb: Feedback, first: u32, times: seq<u64>)
    requires fb.packets == map[] && AnyReceived(times) && |times| < TWO16
    ensures KeysFrom(ParseEffect(fb, Wire(first, times)).packets, DecodedBase(first, times), |times|)
  {
    hide ParseEffect, Wire, Body, Filler, Store, Decode, Statuses, Deltas, AllDeltaBytes, AnyReceived, DecodedBase,
      StartOnWire, KeysFrom;
    ParseOfWire(fb, first, times);
    EveryEntryRead(Unset, times, StartOnWire(times), Filler(|Body(first, times)|));
    StoredKeys(DecodedBase(first, times),
               Decode(Statuses(Unset, times), DeltaSection(first, times), StartOnWire(times)));
  }

  /** A map comes back under its own keys exactly if some packet was received,
      the count fits 16 bits, the keys have no gap, and the first of them is
      0x10001 times their number. */
  lemma OwnKeysIff(fb: Feedback, m: map<u32, u64>)
    requires m != map[] && fb.packets == map[]
    ensures var first, times := SortedKeys(m.Keys)[0], Times(m);
            ParseEffect(fb, Wire(first, times)).packets.Keys == m.Keys <==>
              && AnyReceived(times) && |times| < TWO16
              && Contiguous(m, first, |times|) && first == |times| * 0x1_0001
  {
    hide SortedKeys, Times, ParseEffect, Wire, AnyReceived, Contiguous, KeysFrom, DecodedBase;
    var first, times := SortedKeys(m.Keys)[0], Times(m);
    var parsed := ParseEffect(fb, Wire(first, times)).packets;
    if AnyReceived(times) && |times| < TWO16 {
      ParsedKeys(fb, first, times);
      FirstIsLeast(m);
      SameKeysIff(m, parsed, first, times);
    } else {
      TooFew(fb, first, times);
      assert |parsed.Keys| == |parsed|;
    }
  }

  lemma SameKeysIff(m: map<u32, u64>, parsed: map<u32, u64>, first: u32, times: seq<u64>)
    requires KeysFrom(parsed, DecodedBase(first, times), |times|) && |times| < TWO16
    requires first in m && forall k :: k in m ==> first <= k
    ensures parsed.Keys == m.Keys <==> Contiguous(m, first, |times|) && first == |times| * 0x1_0001
  {
    hide KeysFrom, Contiguous;
    var n, base := |times|, DecodedBase(first, times);
    HalvesMatch(first, n);
    if parsed.Keys == m.Keys {
      SameKeysFrom(m, parsed, base, n);
      NoWrapAround(m, first, times);
      RangeWithLeast(m, first, base, n);
    }
    if Contiguous(m, first, n) && first == n * 0x1_0001 {
      ContiguousFits(m, first, n);
      SameRange(m, parsed, first, n);
    }
  }

  lemma NoWrapAround(m: map<u32, u64>, first: u32, times: seq<u64>)
    requires KeysFrom(m, DecodedBase(first, times), |times|) && |times| < TWO16
    requires forall k :: k in m ==> first <= k
    ensures DecodedBase(first, times) + |times| <= TWO32
  {
    hide DecodedBase;
    BaseBound(first, times);
    if first > 0 {
      assert 0 !in m;
      ZeroOutside(DecodedBase(first, times), |times|);
    }
  }

  lemma BaseBound(first: u32, times: seq<u64>)
    ensures first == 0 ==> DecodedBase(first, times) < TWO16
  {}

  lemma ZeroOutside(base: u32, n: nat)
    requires n < TWO16 && (0 - base) % TWO32 >= n
    ensures base + n <= TWO32
  {}

  lemma ContiguousFits(m: map<u32, u64>, first: u32, n: nat)
    requires Contiguous(m, first, n)
    ensures first + n <= TWO32
  {
    if n > 0 {
      assert first + n - 1 in m;
    }
  }

  /** No packet with a 16-bit number comes back under any number of its map. */
  lemma NumbersNeverMatch(fb: Feedback, m: map<u32, u64>, first: u32, times: seq<u64>)
    requires times == Times(m) && Contiguous(m, first, |times|) && 0 < |times| && first + |times| <= TWO16
    requires fb.packets == map[]
    ensures ParseEffect(fb, Wire(first, times)).packets.Keys !! m.Keys
  {
    hide Times, ParseEffect, Wire, AnyReceived, Store;
    if |times| == TWO16 {
      CountWraps(fb, first, times);
    } else if AnyReceived(times) {
      ParsedKeys(fb, first, times);
      forall k: u32 | k in m
        ensures (k - DecodedBase(first, times)) % TWO32 >= |times|
      {
        BelowBase(first, |times|, k);
      }
    } else {
      NothingReceivedParse(fb, first, times);
    }
  }

  lemma BelowBase(first: u32, n: nat, k: u32)
    requires 0 < n && first <= k < first + n <= TWO16 && first < TWO16 && n < TWO16
    ensures (k - (first % TWO16 * TWO16 + n % TWO16)) % TWO32 >= n
  {
    var b := first % TWO16 * TWO16 + n % TWO16;
    assert b == first * TWO16 + n;
    assert k < b && b + n <= TWO32;
  }

  // ---------------------------------------------------------------- absolute times

  /** The parsed times are the encoder's own exactly when the reference time in
      the header is zero, that is for a first arrival within the first 64 ms of
      a cycle of 2^23 * 64 ms. */
  lemma AbsoluteTimesIff(fb: Feedback, first: u32, times: seq<u64>)
    requires AnyReceived(times) && |times| < TWO16 && DeltasFit(Unset, times)
    ensures ParseEffect(fb, Wire(first, times)).packets
         == Store(fb.packets, DecodedBase(first, times), Expected(times, Quantised(Unset, times), 0))
       <==> Reference(times) == 0
  {
    hide ParseEffect, Wire, Store, Quantised, DeltasFit, AnyReceived, Reference, Offset, Expected, DecodedBase;
    var q, k := Quantised(Unset, times), Offset(times);
    RoundTrip(fb, first, times);
    OffsetZeroIff(times);
    if k != 0 {
      var i := OffsetVisible(times, q, k);
      StoreDiffers(fb.packets, DecodedBase(first, times), Expected(times, q, k), Expected(times, q, 0), i);
    }
  }

  /** A fresh receiver holds the encoder's own times exactly if, besides, some
      packet was received, the count fits 16 bits and every delta fits. */
  lemma FreshAbsoluteTimesIff(fb: Feedback, first: u32, times: seq<u64>)
    requires fb.packets == map[] && 0 < |times| <= TWO32 && NoOverflow(Unset, times)
    ensures ParseEffect(fb, Wire(first, times)).packets
         == Store(map[], DecodedBase(first, times), Expected(times, Quantised(Unset, times), 0))
       <==> AnyReceived(times) && |times| < TWO16 && DeltasFit(Unset, times) && Reference(times) == 0
  {
    hide ParseEffect, Wire, Store, Quantised, DeltasFit, NoOverflow, AnyReceived, Reference, Offset, Expected,
      DecodedBase;
    if !(AnyReceived(times) && |times| < TWO16) {
      StoreSize(DecodedBase(first, times), Expected(times, Quantised(Unset, times), 0));
      TooFew(fb, first, times);
    } else if DeltasFit(Unset, times) {
      AbsoluteTimesIff(fb, first, times);
    } else if Offset(times) == 0 {
      MisfitShows(fb, first, times);
    } else {
      OffsetParsed(fb, first, times);
    }
  }

  /** An offset shows in the first received packet, whose delta always fits. */
  lemma OffsetParsed(fb: Feedback, first: u32, times: seq<u64>)
    requires AnyReceived(times) && |times| < TWO16 && NoOverflow(Unset, times) && Offset(times) != 0
    ensures ParseEffect(fb, Wire(first, times)).packets
         != Store(fb.packets, DecodedBase(first, times), Expected(times, Quantised(Unset, times), 0))
  {
    hide ParseEffect, Wire, Body, Filler, Store, Decode, Quantised, NoOverflow, AnyReceived, Reference, Expected,
      Statuses, Deltas, AllDeltaBytes, Offset, DecodedBase, StartOnWire;
    var q := Quantised(Unset, times);
    var entries := Decode(Statuses(Unset, times), DeltaSection(first, times), StartOnWire(times));
    OffsetZeroIff(times);
    ParseOfWire(fb, first, times);
    var tail := Filler(|Body(first, times)|);
    EveryEntryRead(Unset, times, StartOnWire(times), tail);
    StartIsOff(times);
    var j := FirstReadsBack(times, StartOnWire(times), Offset(times), tail);
    OffsetShows(q[j], Offset(times));
    StoreDiffers(fb.packets, DecodedBase(first, times), entries, Expected(times, q, 0), j);
  }

  lemma StartIsOff(times: seq<u64>)
    ensures StartOnWire(times) == (64000 * Reference(times) + Offset(times)) % TWO64
  {}

  lemma {:induction false} FirstReadsBack(times: seq<u64>, time: u64, k: int, tail: seq<byte>) returns (j: nat)
    requires AnyReceived(times) && NoOverflow(Unset, times) && time == (64000 * Reference(times) + k) % TWO64
    ensures j < |times| && times[j] != 0
    ensures var entries := Decode(Statuses(Unset, times), AllDeltaBytes(Deltas(Unset, times)) + tail, time);
            j < |entries| && entries[j] == At((Quantised(Unset, times)[j] + k) % TWO64)
    decreases |times|
  {
    hide ReadOne, DeltaBytes, DeltaStatus, Delta, Decode;
    var t, rest, c' := times[0], times[1..], Advance(Unset, times[0]);
    var more := AllDeltaBytes(Deltas(c', rest)) + tail;
    if t == 0 {
      assert Deltas(Unset, times) == Deltas(c', rest);
      NotReceivedStep(Statuses(c', rest), more, time);
      j := FirstReadsBack(rest, time, k, tail);
      assert Quantised(Unset, times)[j + 1] == Quantised(Unset, rest)[j];
      j := j + 1;
    } else {
      var d := Delta(Unset, t);
      FirstDeltaFits(t);
      AdvanceModulo(Base(Unset, t), d, k, time);
      DeltaReadsBack(d, more, time);
      DeltaBytesCons(d, Deltas(c', rest), tail);
      assert Statuses(Unset, times) == [DeltaStatus(d)] + Statuses(c', rest);
      assert Deltas(Unset, times) == [d] + Deltas(c', rest);
      ReadThen(DeltaStatus(d), Statuses(c', rest), DeltaBytes(d), more, time, (time + 250 * d) % TWO64);
      j := 0;
    }
  }

  lemma FirstDeltaFits(t: u64)
    requires t != 0 && -0x8000_0000 <= Delta(Unset, t) * 250 < 0x8000_0000
    ensures -0x8000 <= Delta(Unset, t) < 0x8000
  {
    hide Delta;
    FirstDelta(t);
  }

  lemma OffsetVisible(times: seq<u64>, q: seq<u64>, k: int) returns (i: nat)
    requires AnyReceived(times) && |q| == |times| < TWO16 && k != 0 && -TWO64 < k < TWO64
    ensures i < |times|
    ensures var a, b := Expected(times, q, k), Expected(times, q, 0); a[i].At? && b[i].At? && a[i] != b[i]
  {
    hide Expected;
    i :| 0 <= i < |times| && times[i] != 0;
    OffsetShows(q[i], k);
  }

  lemma OffsetShows(q: u64, k: int)
    requires k != 0 && -TWO64 < k < TWO64
    ensures (q + k) % TWO64 != q % TWO64
  {}

  lemma OffsetZeroIff(times: seq<u64>)
    ensures Offset(times) == 0 <==> Reference(times) == 0
    ensures -TWO64 < Offset(times) < TWO64
  {
    hide Reference;
    SameProductIff(Reference(times));
  }

  /** 64000 * 256 * r is 64000 * r modulo 2^32 only for r = 0. */
  lemma SameProductIff(r: nat)
    requires r < 0x80_0000
    ensures r * 0x100 * 64000 % TWO32 == 64000 * r <==> r == 0
  {
    if r * 0x100 * 64000 % TWO32 == 64000 * r {
      var q := r * 0x100 * 64000 / TWO32;
      assert r * 0x100 * 64000 == TWO32 * q + 64000 * r;
      assert r * 31875 == 0x80_0000 * q;
      OddFactor(r, q);
    }
  }

  /** 31875 is invertible modulo 2^23. */
  lemma OddFactor(r: nat, q: int)
    requires r < 0x80_0000 && r * 31875 == 0x80_0000 * q
    ensures r == 0
  {
    assert 31875 * 4764203 == 0x80_0000 * 18103 + 1;
    var k := q * 4764203 - r * 18103;
    assert r == 0x80_0000 * k;
  }

  // ---------------------------------------------------------------- received packets that look lost

  /** The sum of the deltas up to packet i, in microseconds. */
  function Elapsed(c: Clock, times: seq<u64>, i: nat): int
    requires i < |times|
    decreases i
  {
    (if times[0] == 0 then 0 else 250 * Delta(c, times[0]))
    + (if i == 0 then 0 else Elapsed(Advance(c, times[0]), times[1..], i - 1))
  }

  /** The running time is the start plus the deltas, in 64-bit arithmetic. */
  lemma {:induction false} QuantisedIsElapsed(c: Clock, times: seq<u64>, i: nat)
    requires i < |times| && times[i] != 0
    ensures Quantised(c, times)[i] == (StartOf(c, times) + Elapsed(c, times, i)) % TWO64
    decreases i
  {
    hide Delta, StartOf;
    var t, rest, c' := times[0], times[1..], Advance(c, times[0]);
    StartOfNext(c, times);
    if t != 0 {
      StartOfFirst(c, times);
    }
    if i > 0 {
      QuantisedIsElapsed(c', rest, i - 1);
      assert Quantised(c, times)[i] == Quantised(c', rest)[i - 1];
      if t != 0 {
        ModAdd(StartOf(c, times) + 250 * Delta(c, t), Elapsed(c', rest, i - 1), TWO64);
      }
    }
  }

  /** Deltas of two bytes add up to far less than 2^64. */
  lemma {:induction false} ElapsedBound(c: Clock, times: seq<u64>, i: nat)
    requires DeltasFit(c, times) && i < |times|
    ensures -(250 * 0x8000) * (i + 1) <= Elapsed(c, times, i) <= 250 * 0x8000 * (i + 1)
    decreases i
  {
    hide Delta, Advance;
    assert times[0] != 0 ==> -0x8000 <= Delta(c, times[0]) < 0x8000;
    if i > 0 {
      ElapsedBound(Advance(c, times[0]), times[1..], i - 1);
    }
  }

  /** A packet that was received is parsed as not received exactly when the
      deltas up to it cancel the decoder's start time. */
  lemma LooksLostIff(m: map<u32, u64>, first: u32, times: seq<u64>, fb: Feedback, i: nat)
    requires Sendable(m, first, times) && i < |times| && times[i] != 0
    ensures MapsTo(ParseEffect(fb, Wire(first, times)).packets, (DecodedBase(first, times) + i) % TWO32, 0)
       <==> StartTime(Reference(times) * 0x100) + Elapsed(Unset, times, i) == 0
  {
    hide ParseEffect, Wire, Quantised, DeltasFit, Reference, AnyReceived, DecodedBase, DecodedTime, Elapsed,
      StartTime, Contiguous;
    FeedbackRoundTrip(m, first, times, fb, i);
    AnyOrderTime(times, i);
  }

  lemma AnyOrderTime(times: seq<u64>, i: nat)
    requires DeltasFit(Unset, times) && i < |times| < TWO16 && times[i] != 0
    ensures DecodedTime(times, i) == 0 <==> StartTime(Reference(times) * 0x100) + Elapsed(Unset, times, i) == 0
  {
    hide Quantised, DeltasFit, Reference, Elapsed, StartTime;
    QuantisedIsElapsed(Unset, times, i);
    ElapsedBound(Unset, times, i);
    StartZeroIff(Reference(times));
    DecodedZero(StartTime(Reference(times) * 0x100), 64000 * Reference(times), Elapsed(Unset, times, i));
  }

  lemma DecodedZero(start: u64, reference: int, elapsed: int)
    requires start < TWO32 && -TWO64 < elapsed < TWO64 - TWO32
    ensures (start + ((reference + elapsed) % TWO64 - reference)) % TWO64 == 0 <==> start + elapsed == 0
  {
    ModAdd(reference + elapsed, start - reference, TWO64);
  }

  /** For arrivals in order, less than half a cycle of the time format after the
      first: exactly when the reference time is a multiple of 2^15 and the packet
      arrived in the first 250 us of the first packet's 64 ms tick. */
  lemma LooksLostInOrderIff(m: map<u32, u64>, first: u32, times: seq<u64>, fb: Feedback, i: nat)
    requires Sendable(m, first, times) && i < |times| && times[i] != 0
    requires NonDecreasing(times) && times[i] < TickStart(times) + SPAN
    ensures MapsTo(ParseEffect(fb, Wire(first, times)).packets, (DecodedBase(first, times) + i) % TWO32, 0)
       <==> Reference(times) % 0x8000 == 0 && times[i] < TickStart(times) + 250
  {
    hide ParseEffect, Wire, Quantised, DeltasFit, Reference, AnyReceived, DecodedBase, DecodedTime, Contiguous,
      TickStart, NonDecreasing, StartTime;
    FeedbackRoundTrip(m, first, times, fb, i);
    InOrderTime(times, i);
  }

  lemma InOrderTime(times: seq<u64>, i: nat)
    requires DeltasFit(Unset, times) && i < |times| && times[i] != 0
    requires NonDecreasing(times) && times[i] < TickStart(times) + SPAN
    ensures DecodedTime(times, i) == 0 <==> Reference(times) % 0x8000 == 0 && times[i] < TickStart(times) + 250
  {
    hide Quantised, DeltasFit, NoOverflow, Reference, TickStart, Floor250, NonDecreasing, StartTime;
    DeltasFitNoOverflow(Unset, times);
    RoundsDownOnAnyClock(times, i);
    TickBefore(times, i);
    StartZeroIff(Reference(times));
    FloorInTick(times[i], TickStart(times));
    SumZero(StartTime(Reference(times) * 0x100), Floor250(times[i]) - TickStart(times));
  }

  lemma SumZero(start: nat, d: nat)
    requires start < TWO32 && d < SPAN
    ensures (start + d) % TWO64 == 0 <==> start == 0 && d == 0
  {}

  lemma {:induction false} TickBefore(times: seq<u64>, i: nat)
    requires i < |times| && times[i] != 0 && NonDecreasing(times)
    ensures TickStart(times) <= times[i] && TickStart(times) % 250 == 0
    decreases i
  {
    if times[0] == 0 {
      var rest := times[1..];
      assert forall j :: 0 <= j < |rest| ==> rest[j] == times[j + 1];
      TickBefore(rest, i - 1);
    } else {
      ReferenceOnGrid(times[0] / 64000);
    }
  }

  lemma FloorInTick(t: nat, start: nat)
    requires start <= t && start % 250 == 0
    ensures start <= Floor250(t) <= t
    ensures Floor250(t) == start <==> t < start + 250
  {
    SameGridOffset(start / 250, t - start);
  }

  /** 256 * 64000 is 125 * 2^17, and 125 is invertible modulo 2^15. */
  lemma StartZeroIff(r: nat)
    requires r < 0x80_0000
    ensures 0 <= StartTime(r * 0x100) < TWO32
    ensures StartTime(r * 0x100) == 0 <==> r % 0x8000 == 0
  {
    var q := r * 125 / 0x8000;
    assert r * 125 == 0x8000 * q + r * 125 % 0x8000;
    DivMod(r * 0x100 * 64000, TWO32, q, 0x2_0000 * (r * 125 % 0x8000));
    if r * 125 % 0x8000 == 0 {
      assert 125 * 30933 == 0x8000 * 118 + 1;
      assert r == 0x8000 * (q * 30933 - r * 118);
    }
  }

  /** A packet on its own, for every time the encoder is defined on. */
  lemma OnePacketLooksLostIff(fb: Feedback, first: u32, t: u64)
    requires t != 0 && NoOverflow(Unset, [t])
    ensures MapsTo(ParseEffect(fb, Wire(first, [t])).packets, DecodedBase(first, [t]), 0)
       <==> ReferenceOf(t) % 0x8000 == 0 && t % 64000 < 250
  {
    hide ParseEffect, Wire, Quantised, DecodedBase, StartTime;
    OnePacket(t);
    RoundTripEntry(fb, first, [t], 0);
    StartZeroIff(ReferenceOf(t));
  }

  lemma OnePacket(t: u64)
    requires t != 0 && NoOverflow(Unset, [t])
    ensures AnyReceived([t]) && DeltasFit(Unset, [t]) && Reference([t]) == ReferenceOf(t)
    ensures Quantised(Unset, [t]) == [64000 * ReferenceOf(t) + 250 * (t % 64000 / 250)]
  {
    FirstArrivalIff(t);
    FirstDelta(t);
    assert [t][1..] == [] && [t][0] != 0;
  }

  /** A packet received in the first 250 us of the clock is parsed as not received. */
  lemma EarlyPacketLooksLost(fb: Feedback, first: u32, t: u64)
    requires 0 < t < 250
    ensures MapsTo(ParseEffect(fb, Wire(first, [t])).packets, DecodedBase(first, [t]), 0)
  {
    hide ParseEffect, Wire, NoOverflow, DecodedBase, ReferenceOf;
    assert t / 64000 == 0 && t % 64000 == t;
    FewTicks(t);
    OnePacketLooksLostIff(fb, first, t);
  }

  /** So is one received at 2^15 ticks of 64 ms. */
  lemma RoundTickLooksLost(fb: Feedback, first: u32, t: u64)
    requires t == 64000 * 0x8000
    ensures MapsTo(ParseEffect(fb, Wire(first, [t])).packets, DecodedBase(first, [t]), 0)
  {
    hide ParseEffect, Wire, NoOverflow, DecodedBase, ReferenceOf;
    assert t / 64000 == 0x8000 && t % 64000 == 0;
    FewTicks(t);
    OnePacketLooksLostIff(fb, first, t);
  }

  lemma FewTicks(t: u64)
    requires t != 0 && t / 64000 < 0x80_0000
    ensures NoOverflow(Unset, [t]) && ReferenceOf(t) == t / 64000
  {
    hide NoOverflow;
    FirstArrivalIff(t);
  }
}
