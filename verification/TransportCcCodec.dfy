/** The feedback object: its fields, and the loops of Serialize and Parse,
    proved against the functions of module TransportCc. */
module TransportCcCodec {
  import opened Bytes
  import opened ByteIo
  import opened TransportCc

  // ---------------------------------------------------------------- map order

  lemma {:induction false} Minimum(ks: set<u32>) returns (m: u32)
    requires ks != {}
    ensures m in ks && forall j :: j in ks ==> m <= j
  {
    m :| m in ks;
    if ks != {m} {
      var rest := ks - {m};
      var n := Minimum(rest);
      assert forall j :: j in ks ==> j == m || j in rest;
      if n < m {
        m := n;
      }
    }
  }

  lemma HasMinimum(ks: set<u32>)
    requires ks != {}
    ensures exists k :: k in ks && forall j :: j in ks ==> k <= j
  {
    var m := Minimum(ks);
  }

  function MinimumKey(ks: set<u32>): (k: u32)
    requires ks != {}
    ensures k in ks && forall j :: j in ks ==> k <= j
  {
    HasMinimum(ks);
    var k :| k in ks && forall j :: j in ks ==> k <= j;
    k
  }

  /** The order in which the map is iterated. */
  function SortedKeys(ks: set<u32>): (s: seq<u32>)
    ensures forall k :: k in s <==> k in ks
    ensures forall i, j :: 0 <= i < j < |s| ==> s[i] < s[j]
    ensures |s| == |ks|
  {
    if ks == {} then []
    else var k := MinimumKey(ks);
         var rest := SortedKeys(ks - {k});
         SortedCons(ks, k, rest);
         [k] + rest
  }

  lemma SortedCons(ks: set<u32>, k: u32, rest: seq<u32>)
    requires k in ks && forall j :: j in ks ==> k <= j
    requires forall j :: j in rest <==> j in ks - {k}
    requires forall i, j :: 0 <= i < j < |rest| ==> rest[i] < rest[j]
    requires |rest| == |ks - {k}|
    ensures var s := [k] + rest;
            && (forall j :: j in s <==> j in ks) && |s| == |ks|
            && (forall i, j :: 0 <= i < j < |s| ==> s[i] < s[j])
  {
    var s := [k] + rest;
    forall j | 1 <= j < |s| ensures s[0] < s[j] {
      assert s[j] == rest[j - 1] && rest[j - 1] in rest;
    }
  }

  function Times(m: map<u32, u64>): (t: seq<u64>)
    ensures |t| == |m.Keys|
  {
    var keys := SortedKeys(m.Keys);
    seq(|keys|, i requires 0 <= i < |keys| => m[keys[i]])
  }

  // ---------------------------------------------------------------- chunk packing

  lemma {:induction false} ChunkBitsPadded(s: seq<Status>, k: nat)
    ensures ChunkBits(s + Unreceived(k)) == ChunkBits(s) * Pow2(2 * k)
  {
    var p := s + Unreceived(k);
    if k == 0 {
      assert p == s;
    } else {
      ChunkBitsPadded(s, k - 1);
      assert p[..|p| - 1] == s + Unreceived(k - 1) && p[|p| - 1] == NotReceived;
      assert ChunkBits(p) == 4 * ChunkBits(s + Unreceived(k - 1));
      Pow2Four(2 * k - 2);
      FourTimes(ChunkBits(s), Pow2(2 * k - 2));
    }
  }

  lemma FourTimes(v: nat, w: nat)
    ensures 4 * (v * w) == v * (4 * w)
  {}

  lemma Pow2Four(k: nat)
    ensures Pow2(k + 2) == 4 * Pow2(k)
  {}

  lemma SymbolPlace(v: nat, sym: nat, k: nat)
    requires sym < 4
    ensures BitOr(v * Pow2(k + 2), sym * Pow2(k)) == (4 * v + sym) * Pow2(k)
  {
    var p := Pow2(k);
    Pow2Four(k);
    MulAtMost(sym, 3, p);
    OrIsAdd(v, sym * p, k + 2);
    MulAssoc(v, 4, p);
    MulSum(v * 4, sym, p);
  }

  lemma ChunkIsU16(s: seq<Status>)
    requires |s| <= 7
    ensures 0xC000 <= Chunk(s) < TWO16
  {
    ChunkBitsRange(Padded(s));
    assert Pow2(14) == 0x4000 by { assert Pow2(7) == 128; }
  }

  lemma {:induction false} ChunkBitsRange(s: seq<Status>)
    ensures 3 * Pow2(2 * |s|) <= ChunkBits(s) < 4 * Pow2(2 * |s|)
  {
    if s != [] {
      ChunkBitsRange(s[..|s| - 1]);
      assert Pow2(2 * |s|) == 4 * Pow2(2 * |s| - 2);
    }
  }

  /** One more symbol, or-ed in below the ones already there. */
  lemma ChunkBitsStep(s: seq<Status>, next: Status, k: nat)
    ensures BitOr(ChunkBits(s) * Pow2(k + 2), Symbol(next) * Pow2(k)) == ChunkBits(s + [next]) * Pow2(k)
  {
    assert (s + [next])[..|s|] == s;
    SymbolPlace(ChunkBits(s), Symbol(next), k);
  }

  /** The inner loop of Serialize: `chunk |= state << (12 - 2 * j)`. */
  method PackChunk(s: seq<Status>) returns (chunk: u16)
    requires |s| <= 7
    ensures chunk == Chunk(s)
  {
    var c: nat := 0xC000;
    var j := 0;
    assert Pow2(14) == 0x4000 by { assert Pow2(7) == 128; }
    while j < |s|
      invariant j <= |s|
      invariant c == ChunkBits(s[..j]) * Pow2(14 - 2 * j)
    {
      ChunkBitsStep(s[..j], s[j], 12 - 2 * j);
      assert s[..j + 1] == s[..j] + [s[j]];
      c := BitOr(c, Symbol(s[j]) * Pow2(12 - 2 * j));
      j := j + 1;
    }
    assert s[..j] == s;
    ChunkBitsPadded(s, 7 - |s|);
    ChunkIsU16(s);
    chunk := c;
  }

  // ---------------------------------------------------------------- appending to the buffer

  /** data[..at] is extended by `bytes`; the rest of the buffer is untouched. */
  ghost predicate Appended(before: seq<byte>, after: seq<byte>, at: nat, bytes: seq<byte>)
  {
    && at + |bytes| <= |before| == |after|
    && after[..at + |bytes|] == before[..at] + bytes
    && after[at + |bytes|..] == before[at + |bytes|..]
  }

  lemma WrittenAppends(before: seq<byte>, after: seq<byte>, at: nat, bytes: seq<byte>)
    requires Written(before, after, at, bytes)
    ensures Appended(before, after, at, bytes)
  {}

  lemma AppendedTwice(a: seq<byte>, b: seq<byte>, c: seq<byte>, at: nat, x: seq<byte>, y: seq<byte>)
    requires Appended(a, b, at, x) && Appended(b, c, at + |x|, y)
    ensures Appended(a, c, at, x + y)
  {
    assert c[..at + |x + y|] == a[..at] + (x + y);
    assert c[at + |x + y|..] == b[at + |x + y|..] == a[at + |x|..][|y|..];
  }

  lemma Extend(a: seq<byte>, b: seq<byte>, c: seq<byte>, at: nat, x: seq<byte>, y: seq<byte>)
    requires Appended(a, b, at, x) && Written(b, c, at + |x|, y)
    ensures Appended(a, c, at, x + y)
  {
    WrittenAppends(b, c, at + |x|, y);
    AppendedTwice(a, b, c, at, x, y);
  }

  method WriteChunks(data: array<byte>, at: nat, statuses: seq<Status>) returns (len: nat)
    requires at + |Chunks(statuses)| <= data.Length
    modifies data
    ensures Appended(old(data[..]), data[..], at, Chunks(statuses))
    ensures len == at + |Chunks(statuses)|
  {
    len := at;
    ghost var done: seq<byte> := [];
    var rest := statuses;
    while rest != []
      invariant len == at + |done|
      invariant Appended(old(data[..]), data[..], at, done)
      invariant done + Chunks(rest) == Chunks(statuses)
      decreases |rest|
    {
      ghost var before := data[..];
      var chunk := PackChunk(rest[..Min(7, |rest|)]);
      ghost var bytes := Be16(chunk);
      rest := rest[Min(7, |rest|)..];
      Assoc(done, bytes, Chunks(rest));
      Write2(data, len, chunk);
      Extend(old(data[..]), before, data[..], at, done, bytes);
      done := done + bytes;
      len := len + 2;
    }
    assert done == Chunks(statuses);
  }

  method WriteDeltas(data: array<byte>, at: nat, deltas: seq<int>) returns (len: nat)
    requires at + |AllDeltaBytes(deltas)| <= data.Length
    modifies data
    ensures Appended(old(data[..]), data[..], at, AllDeltaBytes(deltas))
    ensures len == at + |AllDeltaBytes(deltas)|
  {
    len := at;
    ghost var done: seq<byte> := [];
    var rest := deltas;
    while rest != []
      invariant len == at + |done|
      invariant Appended(old(data[..]), data[..], at, done)
      invariant done + AllDeltaBytes(rest) == AllDeltaBytes(deltas)
      decreases |rest|
    {
      ghost var before := data[..];
      var delta := rest[0];
      ghost var bytes := DeltaBytes(delta);
      rest := rest[1..];
      Assoc(done, bytes, AllDeltaBytes(rest));
      if delta < 0 || delta > 127 {
        Write2(data, len, delta % TWO16);
        assert Written(before, data[..], at + |done|, bytes);
        len := len + 2;
      } else {
        Write1(data, len, delta);
        assert Written(before, data[..], at + |done|, bytes);
        len := len + 1;
      }
      Extend(old(data[..]), before, data[..], at, done, bytes);
      done := done + bytes;
    }
    assert done == AllDeltaBytes(deltas);
  }

  lemma ZerosSnoc(n: nat)
    ensures Zeros(n) + [0] == Zeros(n + 1)
  {}

  method WriteFiller(data: array<byte>, at: nat) returns (len: nat)
    requires at + |Filler(at)| <= data.Length
    modifies data
    ensures Appended(old(data[..]), data[..], at, Filler(at))
    ensures len == at + |Filler(at)|
  {
    hide Appended, Written, Filler, Zeros;
    len := at;
    ghost var n := FillerIsZeros(at);
    AppendedNothing(data[..], at);
    while len % 4 != 0
      invariant at <= len <= at + n
      invariant Appended(old(data[..]), data[..], at, Zeros(len - at))
      decreases at + n - len
    {
      ghost var before := data[..];
      FillerEnds(at, len, n);
      Write1(data, len, 0);
      Extend(old(data[..]), before, data[..], at, Zeros(len - at), [0]);
      ZerosSnoc(len - at);
      len := len + 1;
    }
    FillerEnds(at, len, n);
  }

  lemma FillerIsZeros(at: nat) returns (n: nat)
    ensures Filler(at) == Zeros(n) && n < 4 && (at + n) % 4 == 0
  {
    n := (4 - at % 4) % 4;
  }

  lemma AppendedNothing(data: seq<byte>, at: nat)
    requires at <= |data|
    ensures Appended(data, data, at, Zeros(0))
  {
    assert Zeros(0) == [];
  }

  lemma FillerEnds(at: nat, len: nat, n: nat)
    requires at <= len <= at + n && n < 4 && (at + n) % 4 == 0
    ensures len % 4 == 0 <==> len == at + n
  {}

  /** Chunks, deltas and filler, in this order. */
  method WritePayload(data: array<byte>, at: nat, statuses: seq<Status>, deltas: seq<int>) returns (len: nat)
    requires var end := at + |Chunks(statuses) + AllDeltaBytes(deltas)|; end + |Filler(end)| <= data.Length
    modifies data
    ensures var payload := Chunks(statuses) + AllDeltaBytes(deltas);
            var bytes := payload + Filler(at + |payload|);
            len == at + |bytes| && Appended(old(data[..]), data[..], at, bytes)
  {
    hide Chunks, AllDeltaBytes, Appended, Filler;
    ghost var state0 := data[..];
    var len1 := WriteChunks(data, at, statuses);
    ghost var state1 := data[..];
    var len2 := WriteDeltas(data, len1, deltas);
    ghost var state2 := data[..];
    AppendedTwice(state0, state1, state2, at, Chunks(statuses), AllDeltaBytes(deltas));
    len := WriteFiller(data, len2);
    AppendedTwice(state0, state2, data[..], at, Chunks(statuses) + AllDeltaBytes(deltas), Filler(len2));
  }

  lemma AppendedKeeps(before: seq<byte>, after: seq<byte>, at: nat, n: nat)
    requires at + n <= |before| == |after| && after[at + n..] == before[at + n..]
    ensures forall k :: at + n <= k < |after| ==> after[k] == before[k]
  {
    forall k | at + n <= k < |after| ensures after[k] == before[k] {
      assert after[k] == after[at + n..][k - at - n];
    }
  }

  // ---------------------------------------------------------------- the encoder's pass over the map

  /** The reference time is in place; the first four bytes and all from the
      tenth on are untouched. */
  ghost predicate TimeWritten(before: seq<byte>, after: seq<byte>, reference: nat)
  {
    && 9 <= |before| == |after|
    && after[..4] == before[..4] && after[4..8] == Be32(reference * 0x100)
    && after[9..] == before[9..]
  }

  /** The reference time takes four bytes at 4; the feedback count is then
      written as two bytes at 7, so its value spills over the header's end. */
  method WriteReference(data: array<byte>, reference: nat, feedbackPacketCount: byte)
    requires data.Length >= 9 && reference < 0x80_0000
    modifies data
    ensures TimeWritten(old(data[..]), data[..], reference)
    ensures data[8] == feedbackPacketCount
  {
    hide Written, TimeWritten;
    Write4(data, 4, reference * 0x100);
    ghost var before := data[..];
    Write2(data, 7, feedbackPacketCount);
    TimeThenCount(old(data[..]), before, data[..], reference, feedbackPacketCount);
  }

  lemma TimeThenCount(a: seq<byte>, b: seq<byte>, c: seq<byte>, reference: nat, count: byte)
    requires 9 <= |a| && Written(a, b, 4, Be32(reference * 0x100)) && Written(b, c, 7, Be16(count))
    ensures TimeWritten(a, c, reference) && c[8] == count
  {
    hide Be32;
    var word := Be32(reference * 0x100);
    assert word[3] == 0 && Be16(count) == [0, count] by { LastByteZero(reference); }
    assert b[4..8] == word && b[..4] == a[..4] && b[8..] == a[8..];
    assert c[..7] == b[..7] && c[7] == 0 == word[3] == b[4..8][3] == b[7] && c[9..] == b[9..];
    assert c[4..8] == b[4..8] && c[..4] == b[..4] && b[9..] == a[9..];
  }

  lemma LastByteZero(v: nat)
    ensures Be32(v * 0x100)[3] == 0
  {}

  lemma TimeInPlace(before: seq<byte>, after: seq<byte>, reference: nat)
    requires TimeWritten(before, after, reference)
    ensures after[..8] == before[..4] + Be32(reference * 0x100)
    ensures forall k :: 9 <= k < |after| ==> after[k] == before[k]
  {
    hide Be32;
    AppendedKeeps(before, after, 9, 0);
    assert after[..8] == after[..4] + after[4..8];
  }

  /** The loop over the map entries: statuses and deltas are collected, and the
      first received packet writes the reference time. */
  method WriteTimes(data: array<byte>, times: seq<u64>, feedbackPacketCount: byte)
    returns (len: nat, statuses: seq<Status>, deltas: seq<int>)
    requires NoOverflow(Unset, times) && data.Length >= if AnyReceived(times) then 9 else 4
    modifies data
    ensures statuses == Statuses(Unset, times) && deltas == Deltas(Unset, times)
    ensures len == 4 + |TimeHeader(times)|
    ensures data[..len] == old(data[..4]) + TimeHeader(times)
    ensures forall k :: (if AnyReceived(times) then 9 else 4) <= k < data.Length ==> data[k] == old(data[k])
  {
    hide Statuses, Deltas, Delta, Reference, AnyReceived, TimeWritten, Be32;
    ReferenceStep(times);
    NoneReceived();
    len, statuses, deltas := 4, [], [];
    var firstReceived := false;
    var time: u64 := 0;
    ghost var clock := Unset;
    var i := 0;
    while i < |times|
      invariant i <= |times| && len == if firstReceived then 8 else 4
      invariant firstReceived <==> AnyReceived(times[..i])
      invariant clock == if firstReceived then Running(time) else Unset
      invariant NoOverflow(clock, times[i..])
      invariant statuses + Statuses(clock, times[i..]) == Statuses(Unset, times)
      invariant deltas + Deltas(clock, times[i..]) == Deltas(Unset, times)
      invariant !firstReceived ==> Reference(times[i..]) == Reference(times) && data[..] == old(data[..])
      invariant firstReceived ==> TimeWritten(old(data[..]), data[..], Reference(times))
    {
      var t := times[i];
      assert times[i..][0] == t && times[i..][1..] == times[i + 1..];
      assert times[..i + 1] == times[..i] + [t];
      AnyReceivedSnoc(times[..i], t);
      EntryStep(clock, times[i..], statuses, deltas);
      ReferenceStep(times[i..]);
      if t != 0 {
        if !firstReceived {
          SomeReceived(times, i);
          firstReceived := true;
          var reference := ReferenceOf(t);
          time := reference * 64000;
          WriteReference(data, reference, feedbackPacketCount);
          len := len + 4;
        }
        var delta := if t > time then ToInt((t - time) / 250) else -ToInt((time - t) / 250);
        DeltaFrom(clock, t, time);
        statuses := statuses + [DeltaStatus(delta)];
        deltas := deltas + [delta];
        time := (time + delta * 250) % TWO64;
      } else {
        statuses := statuses + [NotReceived];
      }
      clock := Advance(clock, t);
      i := i + 1;
    }
    assert times[..i] == times && times[i..] == [];
    EntriesDone(clock);
    if firstReceived {
      TimeInPlace(old(data[..]), data[..], Reference(times));
    }
  }

  lemma DeltaFrom(c: Clock, t: u64, time: u64)
    requires time == Base(c, t)
    ensures Delta(c, t) == if t > time then ToInt((t - time) / 250) else -ToInt((time - t) / 250)
  {}

  lemma EntriesDone(c: Clock)
    ensures Statuses(c, []) == [] && Deltas(c, []) == []
  {}

  lemma ReferenceStep(times: seq<u64>)
    ensures Reference(times) == if times == [] then 0
                                else if times[0] != 0 then ReferenceOf(times[0]) else Reference(times[1..])
    ensures Reference(times) < 0x80_0000
  {}

  /** Moving one entry from the rest of the map to what was collected so far. */
  lemma EntryStep(c: Clock, times: seq<u64>, statuses: seq<Status>, deltas: seq<int>)
    requires times != []
    ensures var t, c' := times[0], Advance(c, times[0]);
            && statuses + Statuses(c, times)
               == statuses + [if t == 0 then NotReceived else DeltaStatus(Delta(c, t))] + Statuses(c', times[1..])
            && deltas + Deltas(c, times)
               == deltas + (if t == 0 then [] else [Delta(c, t)]) + Deltas(c', times[1..])
  {
    hide Delta, Advance, DeltaStatus;
    var t, c' := times[0], Advance(c, times[0]);
    Assoc(statuses, [if t == 0 then NotReceived else DeltaStatus(Delta(c, t))], Statuses(c', times[1..]));
    Assoc(deltas, if t == 0 then [] else [Delta(c, t)], Deltas(c', times[1..]));
  }

  lemma SomeReceived(times: seq<u64>, i: nat)
    requires i < |times| && times[i] != 0
    ensures AnyReceived(times)
  {}

  lemma NoneReceived()
    ensures !AnyReceived([])
  {}

  lemma AnyReceivedSnoc(times: seq<u64>, t: u64)
    ensures AnyReceived(times + [t]) <==> AnyReceived(times) || t != 0
  {
    assert (times + [t])[|times|] == t;
    if AnyReceived(times) {
      var i :| 0 <= i < |times| && times[i] != 0;
      assert (times + [t])[i] != 0;
    }
  }

  // ---------------------------------------------------------------- the decoder's loops

  /** The bits of one chunk, pushed one status at a time. */
  method ExpandChunk(chunk: u16) returns (statuses: seq<Status>)
    ensures statuses == Expand(chunk)
  {
    hide TwoBitStatus, OneBitStatus;
    statuses := [];
    if chunk / 0x8000 != 0 {
      if chunk / 0x4000 % 2 != 0 {
        for j := 0 to 7
          invariant |statuses| == j && forall k :: 0 <= k < j ==> statuses[k] == TwoBitStatus(chunk, k)
        {
          var status := TwoBitStatus(chunk, j);
          statuses := statuses + [status];
        }
      } else {
        for j := 0 to 14
          invariant |statuses| == j && forall k :: 0 <= k < j ==> statuses[k] == OneBitStatus(chunk, k)
        {
          var status := OneBitStatus(chunk, j);
          statuses := statuses + [status];
        }
      }
    } else {
      var status := StatusOf(chunk / 0x2000);
      for j := 0 to chunk % 0x2000
        invariant |statuses| == j && forall k :: 0 <= k < j ==> statuses[k] == status
      {
        statuses := statuses + [status];
      }
    }
  }

  method ReadStatuses(data: array<byte>, size: nat, count: nat) returns (r: Scan)
    requires 8 <= size <= data.Length
    ensures r == ScanStatuses(data[..size], 8, count, [])
  {
    var len := 8;
    var statuses: seq<Status> := [];
    while |statuses| < count
      invariant len <= size
      invariant ScanStatuses(data[..size], len, count, statuses) == ScanStatuses(data[..size], 8, count, [])
      decreases size - len
    {
      if len + 2 > size {
        return Truncated;
      }
      var chunk := Read2(data, len);
      assert chunk == Read16(data[..size], len);
      len := len + 2;
      var more := ExpandChunk(chunk);
      statuses := statuses + more;
    }
    return Scanned(statuses, len);
  }

  /** A signed 16-bit big-endian read. */
  method ReadShort(data: array<byte>, at: nat) returns (v: int)
    requires at + 2 <= data.Length
    ensures v == SignedDelta(Read16(data[..], at)) == SignedOf(BigEndianValue(data[at..at + 2]), 2, 2)
  {
    var u := Read2(data, at);
    assert Pow256(2) == TWO16;
    v := AsSigned(u, 2);
  }

  // ---------------------------------------------------------------- the object

  class TransportCcFeedback {
    var packets: map<u32, u64>
    var feedbackPacketCount: byte
    var referenceTime: u32

    ghost function Value(): Feedback
      reads this
    {
      Feedback(packets, feedbackPacketCount, referenceTime)
    }

    constructor (feedbackPacketCount: byte)
      ensures Value() == Feedback(map[], feedbackPacketCount, 0)
    {
      packets := map[];
      this.feedbackPacketCount := feedbackPacketCount;
      referenceTime := 0;
    }

    method InsertPacket(transportNum: u32, timeUs: u64)
      modifies this
      ensures Value() == old(Value()).(packets := old(packets)[transportNum := timeUs])
    {
      packets := packets[transportNum := timeUs];
    }

    /** Writes the field into a buffer that has room for it, and returns its length. */
    method Serialize(data: array<byte>) returns (len: nat)
      requires NoOverflow(Unset, Times(packets))
      requires packets != map[] ==> data.Length >= |Wire(SortedKeys(packets.Keys)[0], Times(packets))|
      modifies data
      ensures packets == map[] ==> len == 0 && unchanged(data)
      ensures packets != map[] ==>
                var wire := Wire(SortedKeys(packets.Keys)[0], Times(packets));
                len == |wire| && data[..len] == wire
                && forall k :: len <= k < data.Length ==> data[k] == old(data[k])
    {
      hide Statuses, Deltas, Chunks, AllDeltaBytes, TimeHeader, SortedKeys, Times, Appended, Filler, Wire, Be16,
        AnyReceived;
      if packets == map[] {
        return 0;
      }
      var first, times := SortedKeys(packets.Keys)[0], Times(packets);
      WireLongEnough(first, times);
      WireParts(first, times, |Header(first, times)| + |Payload(times)|);
      Write2(data, 0, first);
      Write2(data, 2, |times|);
      assert data[..4] == Be16(first) + Be16(|times|);
      var len0, statuses, deltas := WriteTimes(data, times, feedbackPacketCount);
      ghost var before := data[..];
      len := WritePayload(data, len0, statuses, deltas);
      FieldWritten(before, data[..], len0, first, times);
    }

    /** Reads the first `size` bytes of a buffer. */
    method Parse(data: array<byte>, size: nat)
      requires size <= data.Length
      modifies this
      ensures Value() == ParseEffect(old(Value()), data[..size])
    {
      hide Decode, ScanStatuses, Store, StartTime;
      if size < 8 {
        return;
      }
      ghost var bytes := data[..size];
      SamePrefix(data[..], bytes);
      var baseSeqNumber := Read4(data, 0);
      var packetStatusCount := Read2(data, 2);
      var word := Read4(data, 4);
      referenceTime := word - word % 0x100;
      feedbackPacketCount := data[7];
      var scan := ReadStatuses(data, size, packetStatusCount);
      if scan.Scanned? {
        ReadEntries(data, size, scan.next, scan.statuses[..packetStatusCount], baseSeqNumber);
      }
    }

    /** The loop over the statuses: read each delta and record the packet. */
    method ReadEntries(data: array<byte>, size: nat, at: nat, statuses: seq<Status>, baseSeqNumber: u32)
      requires at <= size <= data.Length
      modifies this`packets
      ensures packets == Store(old(packets), baseSeqNumber,
                               Decode(statuses, data[..size][at..], StartTime(referenceTime)))
    {
      hide Decode, Store, StartTime, ReadOne;
      var len, time := at, StartTime(referenceTime);
      ghost var bytes := data[..size];
      assert |bytes| == size;
      ghost var all := Decode(statuses, bytes[at..], time);
      ghost var done: seq<Entry> := [];
      EmptyLoop(old(packets), baseSeqNumber, bytes[at..], time);
      var i := 0;
      while i < |statuses|
        invariant i == |done| <= |statuses| && at <= len <= size
        invariant done + Decode(statuses[i..], bytes[len..], time) == all
        invariant packets == Store(old(packets), baseSeqNumber, done)
      {
        DecodeStep(statuses[i..], bytes[len..], time);
        assert statuses[i..][1..] == statuses[i + 1..] && statuses[i..][0] == statuses[i];
        var r := ReadDelta(data, size, len, statuses[i], time);
        if r.Short? {
          assert done == all;
          return;
        }
        if r.entry.At? {
          packets := packets[(baseSeqNumber + i) % TWO32 := r.entry.time];
        }
        StoreSnoc(old(packets), baseSeqNumber, done, r.entry);
        assert bytes[len..][r.used..] == bytes[len + r.used..];
        Assoc(done, [r.entry], Decode(statuses[i + 1..], bytes[len + r.used..], r.time));
        done := done + [r.entry];
        len, time, i := len + r.used, r.time, i + 1;
      }
      EmptyLoop(old(packets), baseSeqNumber, bytes[len..], time);
      assert statuses[i..] == [] && done == all;
    }
  }

  lemma SamePrefix(data: seq<byte>, bytes: seq<byte>)
    requires 8 <= |bytes| <= |data| && bytes == data[..|bytes|]
    ensures Read32(bytes, 0) == Read32(data, 0) && Read16(bytes, 2) == Read16(data, 2)
    ensures Read32(bytes, 4) == Read32(data, 4) && bytes[7] == data[7]
  {}

  /** One case of the switch. */
  method ReadDelta(data: array<byte>, size: nat, len: nat, status: Status, time: u64) returns (r: Reading)
    requires len <= size <= data.Length
    ensures r == ReadOne(status, data[..size][len..], time)
  {
    ghost var bytes := data[..size][len..];
    assert |bytes| == size - len;
    match status {
      case NotReceived =>
        return Read(At(0), 0, time);
      case SmallDelta =>
        if len + 1 > size {
          return Short;
        }
        var delta := (data[len] as int) * 250;
        var t := (time + delta) % TWO64;
        return Read(At(t), 1, t);
      case LargeOrNegativeDelta =>
        if len + 2 > size {
          return Short;
        }
        var aux := ReadShort(data, len);
        assert Read16(bytes, 0) == Read16(data[..], len);
        var t := (time + aux * 250) % TWO64;
        return Read(At(t), 2, t);
      case Reserved =>
        return Read(Absent, 0, time);
    }
  }

  lemma DecodeStep(statuses: seq<Status>, bytes: seq<byte>, time: u64)
    requires statuses != []
    ensures var r := ReadOne(statuses[0], bytes, time);
            Decode(statuses, bytes, time) ==
            if r.Short? then [] else [r.entry] + Decode(statuses[1..], bytes[r.used..], r.time)
  {}

  lemma EmptyLoop(m: map<u32, u64>, base: u32, bytes: seq<byte>, time: u64)
    ensures Decode([], bytes, time) == [] && Store(m, base, []) == m
  {}

  /** Header and at least one chunk. */
  lemma WireLongEnough(first: u32, times: seq<u64>)
    requires times != []
    ensures |Wire(first, times)| >= 4 + |TimeHeader(times)| + 2
    ensures |TimeHeader(times)| == if AnyReceived(times) then 4 else 0
  {
    hide Statuses, Deltas, AllDeltaBytes, AnyReceived;
    assert Statuses(Unset, times) != [];
    assert |Chunks(Statuses(Unset, times))| >= 2;
  }

  /** The four pieces written one after the other make up the wire form. */
  lemma WireParts(first: u32, times: seq<u64>, len: nat)
    requires len == |Header(first, times)| + |Payload(times)|
    ensures Wire(first, times) == Header(first, times) + (Payload(times) + Filler(len))
  {}

  /** The payload and its filler complete the field. */
  lemma FieldWritten(before: seq<byte>, after: seq<byte>, at: nat, first: u32, times: seq<u64>)
    requires at <= |before| && before[..at] == Header(first, times)
    requires Appended(before, after, at, Payload(times) + Filler(at + |Payload(times)|))
    ensures var n := |Wire(first, times)|;
            && n == at + |Payload(times) + Filler(at + |Payload(times)|)| <= |after| && after[..n] == Wire(first, times)
            && forall k :: n <= k < |after| ==> after[k] == before[k]
  {
    hide Header, Payload, Filler, Wire;
    WireParts(first, times, at + |Payload(times)|);
    AppendedKeeps(before, after, at, |Payload(times) + Filler(at + |Payload(times)|)|);
  }

  lemma StoreSnoc(m: map<u32, u64>, base: u32, done: seq<Entry>, entry: Entry)
    ensures Store(m, base, done + [entry])
         == match entry
            case Absent => Store(m, base, done)
            case At(t) => Store(m, base, done)[(base + |done|) % TWO32 := t]
  {
    assert (done + [entry])[..|done|] == done;
  }
}
