/** The 16-bit packet count and the missing time header: what comes back when
    no packet was received or the count wraps, and the exact condition of the
    feedback round trip for a fresh receiver. */
module TransportCcCount {
  import opened Bytes
  import opened TransportCc
  import opened TransportCcCodec
  import opened TransportCcDecoder
  import opened TransportCcRoundTrip

  // ---------------------------------------------------------------- nothing received

  /** k chunks of seven NotReceived symbols each. */
  function EmptyChunks(k: nat): (s: seq<byte>)
    ensures |s| == 2 * k
  {
    if k == 0 then [] else Be16(0xC000) + EmptyChunks(k - 1)
  }

  lemma {:induction false} ChunksOfUnreceived(n: nat)
    ensures Chunks(Unreceived(n)) == EmptyChunks((n + 6) / 7)
    decreases n
  {
    if n > 0 {
      var m := Min(7, n);
      assert Unreceived(n)[..m] == Unreceived(m) && Unreceived(n)[m..] == Unreceived(n - m);
      EmptyChunk(m);
      ChunksOfUnreceived(n - m);
    }
  }

  lemma EmptyChunk(m: nat)
    requires m <= 7
    ensures Chunk(Unreceived(m)) == 0xC000
  {
    ChunkBitsPadded([], 7);
    assert Padded(Unreceived(m)) == [] + Unreceived(7);
    assert Pow2(14) == 0x4000 by { assert Pow2(7) == 128; }
  }

  /** Too few empty chunks, then zero words, never complete the status list. */
  lemma {:induction false} ScanRunsOut(data: seq<byte>, pos: nat, count: nat, done: seq<Status>, k: nat, z: nat)
    requires pos <= |data| && data[pos..] == EmptyChunks(k) + Zeros(z)
    requires |done| + 7 * k < count
    ensures ScanStatuses(data, pos, count, done) == Truncated
    decreases 2 * k + z
  {
    hide Expand, EmptyChunks;
    assert |data[pos..]| == |data| - pos == 2 * k + z;
    if k > 0 {
      ChunkAhead(data, pos, k, z);
      ScanRunsOut(data, pos + 2, count, done + Expand(0xC000), k - 1, z);
    } else if z >= 2 {
      ZerosAhead(data, pos, z);
      assert done + [] == done;
      ScanRunsOut(data, pos + 2, count, done, 0, z - 2);
    }
  }

  lemma ChunkAhead(data: seq<byte>, pos: nat, k: nat, z: nat)
    requires pos <= |data| && k > 0 && data[pos..] == EmptyChunks(k) + Zeros(z)
    ensures pos + 2 <= |data| && Read16(data, pos) == 0xC000 && |Expand(0xC000)| == 7
    ensures data[pos + 2..] == EmptyChunks(k - 1) + Zeros(z)
  {
    var rest := data[pos..];
    assert rest == Be16(0xC000) + (EmptyChunks(k - 1) + Zeros(z));
    assert data[pos] == rest[0] == 0xC0 && data[pos + 1] == rest[1] == 0;
    assert data[pos + 2..] == rest[2..];
  }

  lemma ZerosAhead(data: seq<byte>, pos: nat, z: nat)
    requires pos <= |data| && z >= 2 && data[pos..] == EmptyChunks(0) + Zeros(z)
    ensures pos + 2 <= |data| && Read16(data, pos) == 0 && Expand(0) == []
    ensures data[pos + 2..] == EmptyChunks(0) + Zeros(z - 2)
  {
    var rest := data[pos..];
    assert data[pos] == rest[0] == 0 && data[pos + 1] == rest[1] == 0;
    assert data[pos + 2..] == rest[2..];
  }

  lemma {:induction false} UnreceivedEntries(times: seq<u64>)
    requires !AnyReceived(times)
    ensures Statuses(Unset, times) == Unreceived(|times|) && Deltas(Unset, times) == []
  {
    if times != [] {
      assert times[0] == 0;
      assert forall i :: 0 <= i < |times[1..]| ==> times[1..][i] == times[i + 1];
      UnreceivedEntries(times[1..]);
    }
  }

  /** k packets recorded as not received. */
  function AllLost(k: nat): (e: seq<Entry>)
    ensures |e| == k
  {
    seq(k, _ => At(0))
  }

  /** Without a single received packet the time header is not written and the
      chunks start four bytes early. The parser records nothing, or as many
      packets as the count has left of the number modulo 2^16. */
  lemma NothingReceivedParse(fb: Feedback, first: u32, times: seq<u64>)
    requires !AnyReceived(times)
    ensures ParseEffect(fb, Wire(first, times)).packets ==
            if |times| < TWO16 then fb.packets
            else Store(fb.packets, DecodedBase(first, times), AllLost(|times| % TWO16))
  {
    hide ScanStatuses, Wire, AnyReceived, Decode, Store, DecodedBase, AllLost, Read16, Read32, StartTime;
    if times == [] {
      NoWire(first);
    } else if |times| < TWO16 {
      EmptyWire(first, times);
      ScanEmptyWire(Wire(first, times), first, |times|);
    } else {
      EmptyWire(first, times);
      var data, n, count := Wire(first, times), |times|, |times| % TWO16;
      ScanLongEmptyWire(data, first, n);
      var scan := ScanStatuses(data, 8, count, []);
      CountReads(first, times);
      ParseScanned(fb, data, scan);
      DecodeUnreceived(scan.statuses[..count], data[scan.next..], StartTime(ReferenceWord(data)));
    }
  }

  lemma NoWire(first: u32)
    ensures |Wire(first, [])| == 4
  {
    assert !AnyReceived([]);
  }

  /** A fresh receiver records nothing exactly for fewer than 2^16 packets or a
      multiple of 2^16. */
  lemma NothingRecordedIff(fb: Feedback, first: u32, times: seq<u64>)
    requires !AnyReceived(times) && fb.packets == map[]
    ensures ParseEffect(fb, Wire(first, times)).packets == map[] <==> |times| < TWO16 || |times| % TWO16 == 0
  {
    hide ParseEffect, Wire, AnyReceived, Store, DecodedBase;
    NothingReceivedParse(fb, first, times);
    StoreSize(DecodedBase(first, times), AllLost(|times| % TWO16));
  }

  lemma EmptyWire(first: u32, times: seq<u64>)
    requires !AnyReceived(times) && |times| > 0
    ensures exists z: nat ::
              Wire(first, times) == Be16(first) + Be16(|times|) + EmptyChunks((|times| + 6) / 7) + Zeros(z)
              && |Wire(first, times)| % 4 == 0
  {
    hide Chunks, Statuses, Deltas, AnyReceived, EmptyChunks;
    UnreceivedEntries(times);
    ChunksOfUnreceived(|times|);
    var body := Be16(first) + Be16(|times|) + EmptyChunks((|times| + 6) / 7);
    assert AllDeltaBytes([]) == [] && TimeHeader(times) == [];
    assert Body(first, times) == body;
    assert Wire(first, times) == body + Zeros((4 - |body| % 4) % 4);
  }

  lemma ScanEmptyWire(data: seq<byte>, first: u32, n: nat)
    requires 0 < n < TWO16 && |data| % 4 == 0
    requires exists z: nat :: data == Be16(first) + Be16(n) + EmptyChunks((n + 6) / 7) + Zeros(z)
    ensures |data| >= 8 && Read16(data, 2) == n && ScanStatuses(data, 8, n, []) == Truncated
  {
    hide ScanStatuses, EmptyChunks, Read16, Be16, Zeros;
    var c := (n + 6) / 7;
    var z: nat :| data == Be16(first) + Be16(n) + EmptyChunks(c) + Zeros(z);
    EmptyWireCount(data, first, n, EmptyChunks(c), Zeros(z));
    ChunksNeeded(n);
    if c == 1 {
      OneChunk(data, first, n, z);
    } else {
      MoreChunks(data, first, n, c, z);
    }
  }

  lemma EmptyWireCount(data: seq<byte>, first: u32, n: nat, chunks: seq<byte>, zeros: seq<byte>)
    requires data == Be16(first) + Be16(n) + chunks + zeros && n < TWO16
    ensures |data| >= 4 && Read16(data, 2) == n
  {
    hide Be16, Read16;
    assert data[..4] == Be16(first) + Be16(n);
    FirstBytes(data, first, n);
  }

  lemma MoreChunks(data: seq<byte>, first: u32, n: nat, c: nat, z: nat)
    requires data == Be16(first) + Be16(n) + EmptyChunks(c) + Zeros(z) && c >= 2 && 7 * (c - 2) < n
    ensures |data| >= 8 && ScanStatuses(data, 8, n, []) == Truncated
  {
    hide ScanStatuses, EmptyChunks, Be16, Zeros;
    ChunksDrop(data, first, n, c, z);
    ScanRunsOut(data, 8, n, [], c - 2, z);
  }

  /** The only chunk is taken for the header. */
  lemma OneChunk(data: seq<byte>, first: u32, n: nat, z: nat)
    requires data == Be16(first) + Be16(n) + EmptyChunks(1) + Zeros(z) && |data| % 4 == 0 && n > 0
    ensures |data| >= 8 && ScanStatuses(data, 8, n, []) == Truncated
  {
    hide ScanStatuses, EmptyChunks, Be16, Zeros;
    PaddedLength(z);
    ZerosDrop(data, first, n, z);
    ScanRunsOut(data, 8, n, [], 0, z - 2);
  }

  lemma ChunksNeeded(n: nat)
    requires n > 0
    ensures (n + 6) / 7 >= 1 && 7 * ((n + 6) / 7 - 2) < n
  {}

  lemma PaddedLength(z: nat)
    requires (6 + z) % 4 == 0
    ensures z >= 2
  {}

  /** The first four bytes, as the parser reads them. */
  lemma CountReads(first: u32, times: seq<u64>)
    ensures var data := Wire(first, times);
            |data| >= 4 && Read32(data, 0) == DecodedBase(first, times) && Read16(data, 2) == |times| % TWO16
  {
    hide Be16, Read16, Read32, Payload, Filler, TimeHeader;
    var data := Wire(first, times);
    FirstBytes(data, first, |times|);
    assert data[..4] == Be16(first) + Be16(|times|);
  }

  lemma FirstBytes(data: seq<byte>, first: u32, n: nat)
    ensures |data| >= 4 && data[..4] == Be16(first) + Be16(n) ==>
              Read32(data, 0) == first % TWO16 * TWO16 + n % TWO16 && Read16(data, 2) == n % TWO16
  {
    hide Be16, Read16;
    if |data| >= 4 && data[..4] == Be16(first) + Be16(n) {
      Be16RoundTrip(first);
      Be16RoundTrip(n);
      assert data[0..2] == data[..4][0..2] == Be16(first);
      assert data[2..4] == data[..4][2..4] == Be16(n);
      Read16Slice(data, 0);
      Read16Slice(data, 2);
      WordOfHalves(data);
    }
  }

  lemma WordOfHalves(data: seq<byte>)
    requires |data| >= 4
    ensures Read32(data, 0) == Read16(data, 0) * TWO16 + Read16(data, 2)
  {}

  /** With a count that wrapped there are more than enough empty chunks. */
  lemma ScanLongEmptyWire(data: seq<byte>, first: u32, n: nat)
    requires n >= TWO16
    requires exists z: nat :: data == Be16(first) + Be16(n) + EmptyChunks((n + 6) / 7) + Zeros(z)
    ensures |data| >= 8
    ensures var r := ScanStatuses(data, 8, n % TWO16, []); r.Scanned? && AllUnreceived(r.statuses)
  {
    hide ScanStatuses, EmptyChunks, Be16;
    var c := (n + 6) / 7;
    var z: nat :| data == Be16(first) + Be16(n) + EmptyChunks(c) + Zeros(z);
    ChunksDrop(data, first, n, c, z);
    ScanUnreceived(data, 8, n % TWO16, [], c - 2, z);
  }

  predicate AllUnreceived(s: seq<Status>)
  {
    forall i :: 0 <= i < |s| ==> s[i] == NotReceived
  }

  /** Enough empty chunks complete the status list with NotReceived symbols. */
  lemma {:induction false} ScanUnreceived(data: seq<byte>, pos: nat, count: nat, done: seq<Status>, k: nat, z: nat)
    requires pos <= |data| && data[pos..] == EmptyChunks(k) + Zeros(z)
    requires AllUnreceived(done) && |done| + 7 * k >= count
    ensures var r := ScanStatuses(data, pos, count, done); r.Scanned? && AllUnreceived(r.statuses)
    decreases k
  {
    hide Expand, EmptyChunks, Read16;
    if |done| < count {
      ChunkAhead(data, pos, k, z);
      EmptyExpands();
      ScanUnreceived(data, pos + 2, count, done + Expand(0xC000), k - 1, z);
    }
  }

  lemma EmptyExpands()
    ensures AllUnreceived(Expand(0xC000)) && |Expand(0xC000)| == 7
  {
    EmptyChunk(0);
    ExpandChunkBits([]);
    assert Unreceived(0) == [];
  }

  lemma {:induction false} DecodeUnreceived(statuses: seq<Status>, bytes: seq<byte>, time: u64)
    requires AllUnreceived(statuses)
    ensures Decode(statuses, bytes, time) == AllLost(|statuses|)
    decreases |statuses|
  {
    if statuses != [] {
      NotReceivedStep(statuses[1..], bytes, time);
      assert statuses == [NotReceived] + statuses[1..];
      DecodeUnreceived(statuses[1..], bytes, time);
      assert AllLost(|statuses|) == [At(0)] + AllLost(|statuses| - 1);
    }
  }

  lemma ChunksDrop(data: seq<byte>, first: u32, n: nat, c: nat, z: nat)
    requires data == Be16(first) + Be16(n) + EmptyChunks(c) + Zeros(z) && c >= 2
    ensures data[8..] == EmptyChunks(c - 2) + Zeros(z)
  {
    hide EmptyChunks, Be16;
    EmptyChunksDrop(c);
    assert data == (Be16(first) + Be16(n)) + (EmptyChunks(c) + Zeros(z));
    Split(Be16(first) + Be16(n), EmptyChunks(c) + Zeros(z));
    DropSlice(data, 4, 4, |data| - 4);
    assert (EmptyChunks(c) + Zeros(z))[4..] == EmptyChunks(c)[4..] + Zeros(z);
  }

  lemma ZerosDrop(data: seq<byte>, first: u32, n: nat, z: nat)
    requires data == Be16(first) + Be16(n) + EmptyChunks(1) + Zeros(z) && z >= 2
    ensures data[8..] == EmptyChunks(0) + Zeros(z - 2)
  {
    hide EmptyChunks;
    Split(Be16(first) + Be16(n) + EmptyChunks(1), Zeros(z));
    assert data[6..] == Zeros(z);
    DropSlice(data, 6, 2, z);
    assert Zeros(z)[2..] == Zeros(z - 2) && EmptyChunks(0) == [] by { EmptyChunksDrop(2); }
  }

  lemma EmptyChunksDrop(c: nat)
    requires c >= 2
    ensures EmptyChunks(c)[4..] == EmptyChunks(c - 2) && EmptyChunks(0) == []
  {
    assert EmptyChunks(c) == Be16(0xC000) + (Be16(0xC000) + EmptyChunks(c - 2));
  }

  // ---------------------------------------------------------------- how many packets come back

  /** Entries make at most one key each, and exactly one each if none is absent. */
  lemma {:induction false} StoreSize(base: u32, entries: seq<Entry>)
    requires |entries| <= TWO32
    ensures |Store(map[], base, entries)| <= |entries|
    ensures (forall i :: 0 <= i < |entries| ==> entries[i].At?) ==> |Store(map[], base, entries)| == |entries|
    decreases |entries|
  {
    if entries != [] {
      var n := |entries| - 1;
      var m := Store(map[], base, entries[..n]);
      StoreSize(base, entries[..n]);
      if entries[n].At? {
        var k := (base + n) % TWO32;
        KeyIndex(base, n);
        StoreLookup(map[], base, entries[..n], k);
        NewKey(m, k, entries[n].time);
      }
    }
  }

  lemma NewKey(m: map<u32, u64>, k: u32, t: u64)
    requires k !in m
    ensures |m[k := t]| == |m| + 1
  {
    assert m[k := t].Keys == m.Keys + {k};
  }

  /** Never more packets come back than the 16-bit count says. */
  lemma CountWraps(fb: Feedback, first: u32, times: seq<u64>)
    requires fb.packets == map[]
    ensures |ParseEffect(fb, Wire(first, times)).packets| <= |times| % TWO16
  {
    hide Wire, DecodedBase, Read16, Read32, ScanStatuses, Decode, Store, StartTime;
    var data := Wire(first, times);
    CountReads(first, times);
    if |data| >= 8 {
      var scan := ScanStatuses(data, 8, |times| % TWO16, []);
      if scan.Scanned? {
        ParseScanned(fb, data, scan);
        StoreSize(Read32(data, 0), Decode(scan.statuses[..|times| % TWO16], data[scan.next..],
                                          StartTime(ReferenceWord(data))));
      }
    }
  }

  /** What the receiver of a map should hold: one entry per packet, at the
      encoder's times moved by the decoder's offset. */
  function Returned(first: u32, times: seq<u64>): map<u32, u64>
  {
    Store(map[], DecodedBase(first, times), Expected(times, Quantised(Unset, times), Offset(times)))
  }

  /** A fresh receiver gets every packet back, if and only if some packet was
      received, the count fits 16 bits and every delta fits its two bytes. */
  lemma FreshRoundTripIff(fb: Feedback, first: u32, times: seq<u64>)
    requires fb.packets == map[] && 0 < |times| <= TWO32 && NoOverflow(Unset, times)
    ensures ParseEffect(fb, Wire(first, times)).packets == Returned(first, times)
       <==> AnyReceived(times) && |times| < TWO16 && DeltasFit(Unset, times)
  {
    hide ParseEffect, Wire, AnyReceived, DeltasFit, NoOverflow, Store, DecodedBase, Expected, Quantised, Offset;
    if AnyReceived(times) && |times| < TWO16 {
      if DeltasFit(Unset, times) {
        RoundTrip(fb, first, times);
      } else {
        MisfitShows(fb, first, times);
      }
    } else {
      StoreSize(DecodedBase(first, times), Expected(times, Quantised(Unset, times), Offset(times)));
      TooFew(fb, first, times);
    }
  }

  lemma TooFew(fb: Feedback, first: u32, times: seq<u64>)
    requires fb.packets == map[] && 0 < |times| && !(AnyReceived(times) && |times| < TWO16)
    ensures |ParseEffect(fb, Wire(first, times)).packets| < |times|
  {
    hide ParseEffect, Wire, AnyReceived, Store;
    if |times| < TWO16 {
      NothingReceivedParse(fb, first, times);
    } else {
      CountWraps(fb, first, times);
    }
  }
}
