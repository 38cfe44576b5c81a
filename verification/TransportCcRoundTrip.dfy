/** What the decoder makes of the encoder's bytes: the same packets in the same
    order, the same relative times, and exactly how far the absolute times and
    sequence numbers go wrong. */
module TransportCcRoundTrip {
  import opened Bytes
  import opened TransportCc
  import opened TransportCcCodec
  import opened TransportCcDecoder

  // ---------------------------------------------------------------- chunks

  lemma StatusOfSymbol(s: Status)
    ensures StatusOf(Symbol(s)) == s
  {}

  /** Symbol j of a chunk is found by shifting and masking. */
  lemma {:induction false} ChunkSymbol(s: seq<Status>, j: nat)
    requires j < |s|
    ensures ChunkBits(s) / Pow2(2 * (|s| - 1 - j)) % 4 == Symbol(s[j])
  {
    hide Pow2;
    var k := |s| - 1 - j;
    if k == 0 {
      DivideByOne(ChunkBits(s));
    } else {
      ChunkSymbol(s[..|s| - 1], j);
      QuarterThenDivide(ChunkBits(s[..|s| - 1]), Symbol(s[|s| - 1]), 2 * k - 2);
    }
  }

  lemma DivideByOne(v: nat)
    ensures v / Pow2(0) == v
  {}

  lemma QuarterThenDivide(v: nat, low: nat, k: nat)
    requires low < 4
    ensures (4 * v + low) / Pow2(k + 2) == v / Pow2(k)
  {
    var p, w := Pow2(k), 4 * v + low;
    Pow2Four(k);
    assert w / 2 / 2 == v;
    HalveThenDivide(w, 2 * p);
    HalveThenDivide(w / 2, p);
  }

  /** A chunk expands to the seven symbols it was packed from. */
  lemma ExpandChunkBits(s: seq<Status>)
    requires |s| <= 7
    ensures Chunk(s) < TWO16 && Expand(Chunk(s)) == Padded(s)
  {
    ChunkIsU16(s);
    var c, p := Chunk(s), Padded(s);
    assert c / 0x4000 % 2 == 1;
    assert |Expand(c)| == 7;
    forall j: nat | j < 7 ensures Expand(c)[j] == p[j] {
      ChunkSymbol(p, j);
      assert 2 * (7 - 1 - j) == 12 - 2 * j;
      StatusOfSymbol(p[j]);
      assert TwoBitStatus(c, j) == p[j];
      assert Expand(c)[j] == TwoBitStatus(c, j);
    }
  }

  lemma {:induction false} ChunksLength(s: seq<Status>)
    ensures |Chunks(s)| == 2 * ((|s| + 6) / 7)
    decreases |s|
  {
    if s != [] {
      ChunksLength(s[Min(7, |s|)..]);
    }
  }

  /** Reading written chunks yields the statuses, then filler symbols. */
  lemma {:induction false} ScanChunks(data: seq<byte>, pos: nat, s: seq<Status>, done: seq<Status>)
    requires pos + |Chunks(s)| <= |data|
    requires data[pos..pos + |Chunks(s)|] == Chunks(s)
    ensures var count := |done| + |s|; var r := ScanStatuses(data, pos, count, done);
            r.Scanned? && r.next == pos + |Chunks(s)| && r.statuses[..count] == done + s
    decreases |s|
  {
    hide Chunk, Expand, Read16;
    var count := |done| + |s|;
    if s != [] {
      var m := Min(7, |s|);
      var front, rest := s[..m], s[m..];
      ExpandChunkBits(front);
      ChunkWord(data, pos, front, Chunks(rest));
      var done' := done + Padded(front);
      assert ScanStatuses(data, pos, count, done) == ScanStatuses(data, pos + 2, count, done');
      if |s| >= 7 {
        assert Padded(front) == front;
        Assoc(done, front, rest);
        assert s == front + rest;
        assert data[pos + 2..pos + 2 + |Chunks(rest)|] == Chunks(rest);
        ScanChunks(data, pos + 2, rest, done');
      } else {
        assert rest == [] && front == s;
        assert done'[..count] == done + s;
      }
    } else {
      assert done[..count] == done + s;
    }
  }

  lemma ChunkWord(data: seq<byte>, pos: nat, front: seq<Status>, rest: seq<byte>)
    requires |front| <= 7 && Chunk(front) < TWO16
    requires pos + 2 + |rest| <= |data| && data[pos..pos + 2 + |rest|] == Be16(Chunk(front)) + rest
    ensures Read16(data, pos) == Chunk(front)
    ensures data[pos + 2..pos + 2 + |rest|] == rest
  {
    hide Chunk;
    var w := data[pos..pos + 2 + |rest|];
    Split(Be16(Chunk(front)), rest);
    assert w[0] == data[pos] && w[1] == data[pos + 1];
    assert w[2..] == data[pos + 2..pos + 2 + |rest|];
    Be16RoundTrip(Chunk(front));
  }

  // ---------------------------------------------------------------- deltas

  /** Every delta fits its two bytes on the wire. */
  predicate DeltasFit(c: Clock, times: seq<u64>)
    decreases |times|
  {
    times == [] || (
      && (times[0] != 0 ==> -0x8000 <= Delta(c, times[0]) < 0x8000)
      && DeltasFit(Advance(c, times[0]), times[1..]))
  }

  lemma {:induction false} DeltasFitNoOverflow(c: Clock, times: seq<u64>)
    requires DeltasFit(c, times)
    ensures NoOverflow(c, times)
    decreases |times|
  {
    if times != [] {
      DeltasFitNoOverflow(Advance(c, times[0]), times[1..]);
    }
  }

  /** The decoded entries for the encoder's times shifted by k. */
  function Expected(times: seq<u64>, quantised: seq<u64>, k: int): (e: seq<Entry>)
    requires |times| == |quantised|
    ensures |e| == |times|
    ensures forall i :: 0 <= i < |times| ==>
              e[i] == if times[i] == 0 then At(0) else At((quantised[i] + k) % TWO64)
    decreases |times|
  {
    if times == [] then []
    else [if times[0] == 0 then At(0) else At((quantised[0] + k) % TWO64)]
         + Expected(times[1..], quantised[1..], k)
  }

  /** One delta comes back as it was written. */
  lemma DeltaReadsBack(d: int, rest: seq<byte>, time: u64)
    requires -0x8000 <= d < 0x8000
    ensures var t := (time + 250 * d) % TWO64;
            ReadOne(DeltaStatus(d), DeltaBytes(d) + rest, time) == Read(At(t), |DeltaBytes(d)|, t)
  {
    var bytes := DeltaBytes(d) + rest;
    if d < 0 || d > 127 {
      var u := d % TWO16;
      Be16RoundTrip(u);
      assert Read16(bytes, 0) == Read16(Be16(u), 0);
      assert SignedDelta(u) == d;
    } else {
      assert bytes[0] == d;
    }
  }

  /** The encoder's time before the next received packet. */
  function StartOf(c: Clock, times: seq<u64>): int
  {
    match c
    case Unset => 64000 * Reference(times)
    case Running(time) => time
  }

  /** The delta section of the encoder, decoded from a start time that is off by k. */
  lemma {:induction false} DecodeEncoded(c: Clock, times: seq<u64>, time: u64, k: int, tail: seq<byte>)
    requires DeltasFit(c, times) && time == (StartOf(c, times) + k) % TWO64
    ensures Decode(Statuses(c, times), AllDeltaBytes(Deltas(c, times)) + tail, time)
         == Expected(times, Quantised(c, times), k)
    decreases |times|
  {
    hide ReadOne, DeltaBytes, DeltaStatus, Delta, Decode;
    if times == [] {
      DecodeNothing(AllDeltaBytes(Deltas(c, times)) + tail, time);
    } else {
      var t, rest, c' := times[0], times[1..], Advance(c, times[0]);
      var more := AllDeltaBytes(Deltas(c', rest)) + tail;
      if t == 0 {
        assert Deltas(c, times) == Deltas(c', rest);
        assert Quantised(c, times)[1..] == Quantised(c', rest);
        NotReceivedStep(Statuses(c', rest), more, time);
        DecodeEncoded(c', rest, time, k, tail);
      } else {
        var d := Delta(c, t);
        assert StartOf(c, times) == Base(c, t);
        var time' := (time + 250 * d) % TWO64;
        AdvanceModulo(Base(c, t), d, k, time);
        DeltaReadsBack(d, more, time);
        DecodeEncoded(c', rest, time', k, tail);
        DeltaBytesCons(d, Deltas(c', rest), tail);
        ReadThen(DeltaStatus(d), Statuses(c', rest), DeltaBytes(d), more, time, time');
        assert Statuses(c, times) == [DeltaStatus(d)] + Statuses(c', rest);
        assert Deltas(c, times) == [d] + Deltas(c', rest);
        assert Quantised(c, times)[1..] == Quantised(c', rest);
      }
    }
  }

  /** A delta that does not fit comes back as another one. */
  lemma MisfitReadsBack(d: int, rest: seq<byte>, time: u64) returns (time': u64)
    requires -0x8000_0000 <= 250 * d < 0x8000_0000 && !(-0x8000 <= d < 0x8000)
    ensures ReadOne(DeltaStatus(d), DeltaBytes(d) + rest, time) == Read(At(time'), |DeltaBytes(d)|, time')
    ensures time' != (time + 250 * d) % TWO64
  {
    var u, bytes := d % TWO16, DeltaBytes(d) + rest;
    Be16RoundTrip(u);
    assert Read16(bytes, 0) == Read16(Be16(u), 0);
    var e := SignedDelta(u);
    time' := (time + 250 * e) % TWO64;
    DifferentModulo(time + 250 * e, time + 250 * d);
  }

  lemma DifferentModulo(x: int, y: int)
    requires x != y && -TWO64 < x - y < TWO64
    ensures x % TWO64 != y % TWO64
  {}

  /** If some delta does not fit, the first such packet is decoded at another time. */
  lemma {:induction false} DecodeMisfit(c: Clock, times: seq<u64>, time: u64, k: int, tail: seq<byte>) returns (j: nat)
    requires NoOverflow(c, times) && !DeltasFit(c, times) && time == (StartOf(c, times) + k) % TWO64
    ensures var entries := Decode(Statuses(c, times), AllDeltaBytes(Deltas(c, times)) + tail, time);
            j < |entries| && j < |times| && entries[j].At? && times[j] != 0
            && entries[j] != Expected(times, Quantised(c, times), k)[j]
    decreases |times|
  {
    hide ReadOne, DeltaBytes, DeltaStatus, Delta, Expected, StartOf, Decode;
    var t, rest, c' := times[0], times[1..], Advance(c, times[0]);
    var more := AllDeltaBytes(Deltas(c', rest)) + tail;
    if t == 0 {
      assert Deltas(c, times) == Deltas(c', rest);
      NotReceivedStep(Statuses(c', rest), more, time);
      StartOfNext(c, times);
      j := DecodeMisfit(c', rest, time, k, tail);
      j := ExpectedNext(c, times, k, j);
    } else {
      var d := Delta(c, t);
      StartOfFirst(c, times);
      AdvanceModulo(Base(c, t), d, k, time);
      DeltaBytesCons(d, Deltas(c', rest), tail);
      assert Statuses(c, times) == [DeltaStatus(d)] + Statuses(c', rest);
      assert Deltas(c, times) == [d] + Deltas(c', rest);
      if -0x8000 <= d < 0x8000 {
        var time' := (time + 250 * d) % TWO64;
        DeltaReadsBack(d, more, time);
        ReadThen(DeltaStatus(d), Statuses(c', rest), DeltaBytes(d), more, time, time');
        StartOfNext(c, times);
        j := DecodeMisfit(c', rest, time', k, tail);
        j := ExpectedNext(c, times, k, j);
      } else {
        var time' := MisfitReadsBack(d, more, time);
        ReadThen(DeltaStatus(d), Statuses(c', rest), DeltaBytes(d), more, time, time');
        j := 0;
      }
    }
  }

  /** Whatever the deltas are, every packet gets an entry. */
  lemma {:induction false} EveryEntryRead(c: Clock, times: seq<u64>, time: u64, tail: seq<byte>)
    ensures var entries := Decode(Statuses(c, times), AllDeltaBytes(Deltas(c, times)) + tail, time);
            |entries| == |times| && forall i :: 0 <= i < |entries| ==> entries[i].At?
    decreases |times|
  {
    hide ReadOne, DeltaBytes, DeltaStatus, Delta, Decode;
    if times == [] {
      DecodeNothing(AllDeltaBytes(Deltas(c, times)) + tail, time);
    } else {
      var t, rest, c' := times[0], times[1..], Advance(c, times[0]);
      var more := AllDeltaBytes(Deltas(c', rest)) + tail;
      if t == 0 {
        assert Deltas(c, times) == Deltas(c', rest);
        NotReceivedStep(Statuses(c', rest), more, time);
        EveryEntryRead(c', rest, time, tail);
      } else {
        var d := Delta(c, t);
        var time' := DeltaReads(d, more, time);
        DeltaBytesCons(d, Deltas(c', rest), tail);
        assert Statuses(c, times) == [DeltaStatus(d)] + Statuses(c', rest);
        assert Deltas(c, times) == [d] + Deltas(c', rest);
        ReadThen(DeltaStatus(d), Statuses(c', rest), DeltaBytes(d), more, time, time');
        EveryEntryRead(c', rest, time', tail);
      }
    }
  }

  lemma DeltaReads(d: int, rest: seq<byte>, time: u64) returns (time': u64)
    ensures ReadOne(DeltaStatus(d), DeltaBytes(d) + rest, time) == Read(At(time'), |DeltaBytes(d)|, time')
  {
    time' := ReadOne(DeltaStatus(d), DeltaBytes(d) + rest, time).time;
  }

  lemma StartOfFirst(c: Clock, times: seq<u64>)
    requires times != [] && times[0] != 0
    ensures StartOf(c, times) == Base(c, times[0])
  {}

  lemma StartOfNext(c: Clock, times: seq<u64>)
    requires times != []
    ensures var c' := Advance(c, times[0]);
            StartOf(c', times[1..]) == if times[0] == 0 then StartOf(c, times) else c'.time
  {}

  lemma ExpectedNext(c: Clock, times: seq<u64>, k: int, j: nat) returns (i: nat)
    requires j < |times| - 1
    ensures i == j + 1 && times[i] == times[1..][j]
    ensures Expected(times, Quantised(c, times), k)[i]
         == Expected(times[1..], Quantised(Advance(c, times[0]), times[1..]), k)[j]
  {
    i := j + 1;
    assert Quantised(c, times)[1..] == Quantised(Advance(c, times[0]), times[1..]);
  }

  lemma NotReceivedStep(statuses: seq<Status>, bytes: seq<byte>, time: u64)
    ensures Decode([NotReceived] + statuses, bytes, time) == [At(0)] + Decode(statuses, bytes, time)
  {
    assert ([NotReceived] + statuses)[1..] == statuses;
    assert bytes[0..] == bytes;
  }

  lemma ReadThen(s: Status, statuses: seq<Status>, head: seq<byte>, more: seq<byte>, time: u64, time': u64)
    requires ReadOne(s, head + more, time) == Read(At(time'), |head|, time')
    ensures Decode([s] + statuses, head + more, time) == [At(time')] + Decode(statuses, more, time')
  {
    hide ReadOne;
    assert ([s] + statuses)[1..] == statuses;
    Split(head, more);
  }

  lemma DeltaBytesCons(d: int, ds: seq<int>, tail: seq<byte>)
    ensures AllDeltaBytes([d] + ds) + tail == DeltaBytes(d) + (AllDeltaBytes(ds) + tail)
  {
    hide DeltaBytes;
    assert ([d] + ds)[1..] == ds;
    Assoc(DeltaBytes(d), AllDeltaBytes(ds), tail);
  }

  /** Both sides add the same delta; the offset stays k modulo 2^64. */
  lemma AdvanceModulo(base: int, d: int, k: int, time: u64)
    requires time == (base + k) % TWO64
    ensures (time + 250 * d) % TWO64 == ((base + d * 250) % TWO64 + k) % TWO64
  {
    ModAdd(base + k, 250 * d, TWO64);
    ModAdd(base + d * 250, k, TWO64);
  }

  // ---------------------------------------------------------------- the header

  /** The base number the decoder reads: the low 16 bits of the base and of the
      count as one word. */
  function DecodedBase(first: u32, times: seq<u64>): u32
  {
    first % TWO16 * TWO16 + |times| % TWO16
  }

  /** The four header numbers as the decoder reads them. */
  lemma HeaderReadsBack(first: u32, times: seq<u64>, rest: seq<byte>)
    requires AnyReceived(times) && |times| < TWO16
    ensures var data := Header(first, times) + rest;
            && |Header(first, times)| == 8
            && Read32(data, 0) == DecodedBase(first, times) && Read16(data, 0) == first % TWO16
            && Read16(data, 2) == |times|
            && Read32(data, 4) == Reference(times) * 0x100 && data[7] == 0
  {
    hide Reference, AnyReceived, Be16, Be32, Read16, Read32;
    var data, word := Header(first, times) + rest, Reference(times) * 0x100;
    Be16RoundTrip(first);
    Be16RoundTrip(|times|);
    Be32RoundTrip(word);
    assert data == Be16(first) + Be16(|times|) + Be32(word) + rest;
    assert data[..2] == Be16(first) && data[2..4] == Be16(|times|) && data[4..8] == Be32(word);
    HeaderWords(data, first, |times|, word);
  }

  lemma HeaderWords(data: seq<byte>, first: nat, n: nat, word: nat)
    requires |data| >= 8 && data[..2] == Be16(first) && data[2..4] == Be16(n) && data[4..8] == Be32(word)
    ensures Read16(data, 0) == Read16(Be16(first), 0) && Read16(data, 2) == Read16(Be16(n), 0)
    ensures Read32(data, 4) == Read32(Be32(word), 0) && data[7] == word % 0x100
    ensures Read32(data, 0) == Read16(data, 0) * TWO16 + Read16(data, 2)
  {
    assert data[0] == data[..2][0] && data[1] == data[..2][1];
    assert data[2] == data[2..4][0] && data[3] == data[2..4][1];
    assert data[4] == data[4..8][0] && data[5] == data[4..8][1] && data[6] == data[4..8][2] && data[7] == data[4..8][3];
  }

  // ---------------------------------------------------------------- the round trip

  /** What follows the chunks of the wire form. */
  function DeltaSection(first: u32, times: seq<u64>): seq<byte>
  {
    AllDeltaBytes(Deltas(Unset, times)) + Filler(|Body(first, times)|)
  }

  /** The statuses are read back whatever the deltas are. */
  lemma WireScans(first: u32, times: seq<u64>)
    requires AnyReceived(times) && |times| < TWO16
    ensures var data := Wire(first, times);
            var r := ScanStatuses(data, 8, |times|, []);
            && |data| >= 8 && r.Scanned? && r.statuses[..|times|] == Statuses(Unset, times)
            && data[r.next..] == DeltaSection(first, times)
  {
    hide Chunks, AllDeltaBytes, ScanStatuses, Statuses, Deltas, Reference, AnyReceived;
    var head, chunks := Header(first, times), Chunks(Statuses(Unset, times));
    var deltas, filler := AllDeltaBytes(Deltas(Unset, times)), Filler(|Body(first, times)|);
    var data := Wire(first, times);
    HeaderReadsBack(first, times, []);
    WireLayout(head, chunks, deltas, filler);
    assert data == head + (chunks + deltas) + filler;
    assert data[8..8 + |chunks|] == chunks && data[8 + |chunks|..] == deltas + filler;
    ScanChunks(data, 8, Statuses(Unset, times), []);
    assert [] + Statuses(Unset, times) == Statuses(Unset, times);
  }

  lemma WireLayout(head: seq<byte>, chunks: seq<byte>, deltas: seq<byte>, filler: seq<byte>)
    ensures var data := head + (chunks + deltas) + filler;
            data[|head|..|head| + |chunks|] == chunks && data[|head| + |chunks|..] == deltas + filler
  {
    var data := head + (chunks + deltas) + filler;
    assert data == (head + chunks) + (deltas + filler);
    Split(head + chunks, deltas + filler);
    assert data[..|head + chunks|][|head|..] == chunks;
  }

  /** How far the decoder's start time is from the encoder's reference time. */
  function Offset(times: seq<u64>): int
  {
    Reference(times) * 0x100 * 64000 % TWO32 - 64000 * Reference(times)
  }

  /** Parsing what Serialize wrote reduces to decoding the delta section. */
  lemma ParseOfWire(fb: Feedback, first: u32, times: seq<u64>)
    requires AnyReceived(times) && |times| < TWO16
    ensures ParseEffect(fb, Wire(first, times)) ==
            Feedback(Store(fb.packets, DecodedBase(first, times),
                           Decode(Statuses(Unset, times), DeltaSection(first, times), StartOnWire(times))),
                     0, Reference(times) * 0x100)
  {
    hide ParseEffect, ScanStatuses, Decode, Reference, Statuses, AnyReceived, Wire, Header, Store, ReferenceWord,
      StartTime, DecodedBase, DeltaSection, StartOnWire, Offset, Read32, Read16;
    var data := Wire(first, times);
    var rest := WireSplit(first, times);
    HeaderReadsBack(first, times, rest);
    WireScans(first, times);
    ParseScanned(fb, data, ScanStatuses(data, 8, |times|, []));
    StartOffset(times, data);
  }

  /** Parsing what Serialize wrote: one entry per packet in order, packets not
      received stay not received, and the others are the encoder's times moved
      by one constant. The feedback count is lost. */
  lemma RoundTrip(fb: Feedback, first: u32, times: seq<u64>)
    requires AnyReceived(times) && |times| < TWO16 && DeltasFit(Unset, times)
    ensures ParseEffect(fb, Wire(first, times)) ==
            Feedback(Store(fb.packets, DecodedBase(first, times),
                           Expected(times, Quantised(Unset, times), Offset(times))),
                     0, Reference(times) * 0x100)
  {
    hide ParseEffect, Wire, Store, Decode, Quantised, DeltasFit, Reference, Expected, Statuses, Deltas, Offset,
      AllDeltaBytes, DecodedBase;
    ParseOfWire(fb, first, times);
    DecodeEncoded(Unset, times, StartOnWire(times), Offset(times), Filler(|Body(first, times)|));
  }

  lemma MisfitShows(fb: Feedback, first: u32, times: seq<u64>)
    requires AnyReceived(times) && |times| < TWO16 && NoOverflow(Unset, times) && !DeltasFit(Unset, times)
    ensures ParseEffect(fb, Wire(first, times)).packets
         != Store(fb.packets, DecodedBase(first, times), Expected(times, Quantised(Unset, times), Offset(times)))
  {
    hide ParseEffect, Wire, Body, Header, Payload, TimeHeader, Filler, Store, Decode, Quantised, DeltasFit, NoOverflow,
      AnyReceived, Reference, Expected, Statuses, Deltas, Offset, AllDeltaBytes, DecodedBase;
    var entries := Decode(Statuses(Unset, times), DeltaSection(first, times), StartOnWire(times));
    var j := DecodeMisfit(Unset, times, StartOnWire(times), Offset(times), Filler(|Body(first, times)|));
    ParseOfWire(fb, first, times);
    StoreDiffers(fb.packets, DecodedBase(first, times), entries,
                 Expected(times, Quantised(Unset, times), Offset(times)), j);
  }

  /** That is what comes back if and only if every delta fits its two bytes. */
  lemma RoundTripIff(fb: Feedback, first: u32, times: seq<u64>)
    requires AnyReceived(times) && |times| < TWO16 && NoOverflow(Unset, times)
    ensures ParseEffect(fb, Wire(first, times)) ==
            Feedback(Store(fb.packets, DecodedBase(first, times),
                           Expected(times, Quantised(Unset, times), Offset(times))),
                     0, Reference(times) * 0x100)
       <==> DeltasFit(Unset, times)
  {
    hide *;
    if DeltasFit(Unset, times) {
      RoundTrip(fb, first, times);
    } else {
      MisfitShows(fb, first, times);
    }
  }

  /** Two lists that record different times at one place make different maps. */
  lemma StoreDiffers(m: map<u32, u64>, base: u32, a: seq<Entry>, b: seq<Entry>, j: nat)
    requires j < |a| <= TWO32 && j < |b| <= TWO32 && a[j].At? && b[j].At? && a[j] != b[j]
    ensures Store(m, base, a) != Store(m, base, b)
  {
    hide Store;
    var k := (base + j) % TWO32;
    KeyIndex(base, j);
    StoreLookup(m, base, a, k);
    StoreLookup(m, base, b, k);
  }

  lemma KeyIndex(base: u32, i: nat)
    requires i < TWO32
    ensures ((base + i) % TWO32 - base) % TWO32 == i
  {}

  lemma WireSplit(first: u32, times: seq<u64>) returns (rest: seq<byte>)
    ensures Wire(first, times) == Header(first, times) + rest
  {
    hide Header, Payload, Filler;
    rest := Payload(times) + Filler(|Body(first, times)|);
    Assoc(Header(first, times), Payload(times), Filler(|Body(first, times)|));
  }

  /** The decoder's start time, k off the encoder's. */
  function StartOnWire(times: seq<u64>): u64
  {
    (64000 * Reference(times) + Offset(times)) % TWO64
  }

  lemma StartOffset(times: seq<u64>, data: seq<byte>)
    requires |data| >= 8 && Read32(data, 4) == Reference(times) * 0x100
    ensures ReferenceWord(data) == Reference(times) * 0x100
    ensures StartTime(ReferenceWord(data)) == StartOnWire(times)
  {}
}
