/** The field against the format itself (draft-holmer-rmcat-transport-wide-cc-extensions-01,
    sections 3.1 to 3.1.5), with every number of the format written out: the
    three chunk forms, the header, the size of a delta, and what any input means. */
module TransportCcFormat {
  import opened ByteIo
  import opened Bytes
  import opened TransportCc
  import opened TransportCcCodec
  import opened TransportCcDecoder
  import opened TransportCcQuantisation
  import opened TransportCcRoundTrip

  /** The packet status symbols of section 3.1.1. */
  predicate Means(v: nat, s: Status)
  {
    match s
    case NotReceived => v == 0
    case SmallDelta => v == 1
    case LargeOrNegativeDelta => v == 2
    case Reserved => v == 3
  }

  // ---------------------------------------------------------------- run length chunks

  /** A zero bit, two bits of symbol and a 13-bit length stand for that many
      equal symbols (section 3.1.3). */
  lemma RunChunk(v: nat, n: nat, s: Status)
    requires v < 4 && n < 0x2000 && Means(v, s)
    ensures var run := Expand(0x2000 * v + n); |run| == n && forall i :: 0 <= i < n ==> run[i] == s
  {
    var c: u16 := 0x2000 * v + n;
    DivMod(c, 0x2000, v, n);
  }

  // ---------------------------------------------------------------- status vector chunks

  /** A list of digits as a number, the first digit highest. */
  function Digits(base: nat, ds: seq<nat>): nat
  {
    if ds == [] then 0 else base * Digits(base, ds[..|ds| - 1]) + ds[|ds| - 1]
  }

  predicate Below(base: nat, ds: seq<nat>)
  {
    forall i :: 0 <= i < |ds| ==> ds[i] < base
  }

  lemma {:induction false} BinaryDigit(ds: seq<nat>, j: nat)
    requires Below(2, ds) && j < |ds|
    ensures Digits(2, ds) / Pow2(|ds| - 1 - j) % 2 == ds[j] && Digits(2, ds) < Pow2(|ds|)
    decreases |ds|
  {
    hide Pow2;
    var front, last := ds[..|ds| - 1], ds[|ds| - 1];
    var v, k := Digits(2, front), |ds| - 1 - j;
    BinaryBound(front);
    PowStep(|ds| - 1);
    if k == 0 {
      DivideByOne(2 * v + last);
    } else {
      BinaryDigit(front, j);
      PowStep(k - 1);
      HalveThenDivide(2 * v + last, Pow2(k - 1));
    }
  }

  lemma {:induction false} BinaryBound(ds: seq<nat>)
    requires Below(2, ds)
    ensures Digits(2, ds) < Pow2(|ds|)
  {
    if ds != [] {
      BinaryBound(ds[..|ds| - 1]);
    }
  }

  lemma PowStep(k: nat)
    ensures Pow2(k + 1) == 2 * Pow2(k)
  {}

  /** The bits 10 and 14 one-bit symbols, first symbol highest (section 3.1.4). */
  lemma OneBitChunk(ds: seq<nat>, i: nat)
    requires |ds| == 14 && Below(2, ds) && i < 14
    ensures Digits(2, ds) < 0x4000 && |Expand(0x8000 + Digits(2, ds))| == 14
    ensures Expand(0x8000 + Digits(2, ds))[i] == if ds[i] == 1 then SmallDelta else NotReceived
  {
    hide Pow2;
    BinaryDigit(ds, i);
    Pow2Fourteen();
    var v, k := Digits(2, ds), 13 - i;
    assert (0x8000 + v) / 0x4000 % 2 == 0;
    HighBit(v, k);
    assert OneBitStatus(0x8000 + v, i) == StatusOf(ds[i]);
  }

  lemma Pow2Fourteen()
    ensures Pow2(14) == 0x4000
  {
    assert Pow2(7) == 128;
  }

  /** The leading bits do not change a lower binary digit. */
  lemma HighBit(v: nat, k: nat)
    requires k <= 13
    ensures (0x8000 + v) / Pow2(k) % 2 == v / Pow2(k) % 2
  {
    hide Pow2;
    var p := Pow2(k);
    var q := Weight(k);
    var d, r := v / p, v % p;
    assert v == d * p + r;
    MulAssoc(2, q, p);
    MulSum(d, 2 * q, p);
    DivMod(0x8000 + v, p, d + 2 * q, r);
    assert (d + 2 * q) % 2 == d % 2;
  }

  /** 2^14 is a multiple of 2^k. */
  lemma {:induction false} Weight(k: nat) returns (q: nat)
    requires k <= 13
    ensures q * Pow2(k) == 0x4000
    decreases 13 - k
  {
    if k == 13 {
      q := 2;
      Pow2Fourteen();
    } else {
      var h := Weight(k + 1);
      q := 2 * h;
      MulAssoc(h, 2, Pow2(k));
    }
  }

  /** The bits 11 and seven two-bit symbols, first symbol highest (section 3.1.4). */
  lemma TwoBitChunk(ds: seq<nat>, s: seq<Status>)
    requires |ds| == |s| == 7 && forall i :: 0 <= i < 7 ==> Means(ds[i], s[i])
    ensures 0xC000 + Digits(4, ds) < TWO16 && Expand(0xC000 + Digits(4, ds)) == s
  {
    ChunkDigits(ds, s);
    ExpandChunkBits(s);
    assert Padded(s) == s;
    assert Pow2(14) == 0x4000 by { Pow2Fourteen(); }
  }

  lemma {:induction false} ChunkDigits(ds: seq<nat>, s: seq<Status>)
    requires |ds| == |s| && forall i :: 0 <= i < |s| ==> Means(ds[i], s[i])
    ensures ChunkBits(s) == 3 * Pow2(2 * |s|) + Digits(4, ds)
  {
    if s != [] {
      var n := |s| - 1;
      ChunkDigits(ds[..n], s[..n]);
      Pow2Four(2 * n);
    }
  }

  /** The writer uses this form for every seven packets, and fills a short last
      chunk with symbol 0. */
  lemma WrittenChunk(ds: seq<nat>, s: seq<Status>)
    requires |s| <= |ds| == 7
    requires forall i :: 0 <= i < 7 ==> if i < |s| then Means(ds[i], s[i]) else ds[i] == 0
    ensures Chunk(s) == 0xC000 + Digits(4, ds)
  {
    ChunkDigits(ds, Padded(s));
    Pow2Fourteen();
  }

  // ---------------------------------------------------------------- what is written

  /** The header: base number, count, reference time in three bytes, and a zero
      byte where the feedback count belongs. */
  lemma HeaderOnWire(first: u32, times: seq<u64>)
    requires AnyReceived(times)
    ensures var n, r := |times|, FirstArrival(times) / 64000 % 0x80_0000;
            |Wire(first, times)| >= 8 &&
            Wire(first, times)[..8] == [first / 0x100 % 0x100, first % 0x100, n / 0x100 % 0x100, n % 0x100,
                                        r / 0x1_0000, r / 0x100 % 0x100, r % 0x100, 0]
  {
    hide Payload, Filler, AnyReceived, Reference;
    FirstReference(times);
    ReferenceBytes(FirstArrival(times) / 64000 % 0x80_0000);
    var head := Header(first, times);
    assert |head| == 8;
    var rest := WireSplit(first, times);
    Split(head, rest);
  }

  lemma {:induction false} FirstReference(times: seq<u64>)
    requires AnyReceived(times)
    ensures Reference(times) == FirstArrival(times) / 64000 % 0x80_0000
  {
    if times[0] == 0 {
      var i :| 0 <= i < |times| && times[i] != 0;
      assert times[1..][i - 1] != 0;
      FirstReference(times[1..]);
    }
  }

  lemma ReferenceBytes(r: nat)
    requires r < 0x80_0000
    ensures Be32(r * 0x100) == [r / 0x1_0000, r / 0x100 % 0x100, r % 0x100, 0]
  {
    var a := r / 0x100;
    DivMod(r * 0x100, 0x1_0000, a, r % 0x100 * 0x100);
    DivMod(r * 0x100, 0x100_0000, a / 0x100, a % 0x100 * 0x1_0000 + r % 0x100 * 0x100);
    DivMod(r, 0x1_0000, a / 0x100, a % 0x100 * 0x100 + r % 0x100);
  }

  /** The running time before packet i. */
  function Before(c: Clock, times: seq<u64>, i: nat): u64
    requires i < |times|
    decreases i
  {
    if i == 0 then Base(c, times[0]) else Before(Advance(c, times[0]), times[1..], i - 1)
  }

  /** A received packet has the one-byte symbol exactly if the running time moves
      forward by at most 127 steps of 250 us (section 3.1.5 would allow 255). */
  lemma {:induction false} StatusByStep(c: Clock, times: seq<u64>, i: nat)
    requires i < |times| && NoWrap(c, times)
    ensures Statuses(c, times)[i] ==
            if times[i] == 0 then NotReceived
            else if 0 <= Quantised(c, times)[i] - Before(c, times, i) <= 127 * 250 then SmallDelta
            else LargeOrNegativeDelta
    decreases i
  {
    hide Delta;
    if i > 0 {
      StatusByStep(Advance(c, times[0]), times[1..], i - 1);
    }
  }

  /** Its delta is then one byte, the number of steps; otherwise two bytes in two's
      complement, most significant first. */
  lemma DeltaOnWire(d: int)
    requires -0x8000 <= d < 0x8000
    ensures 0 <= d <= 127 ==> DeltaBytes(d) == [d]
    ensures d > 127 ==> DeltaBytes(d) == [d / 0x100, d % 0x100]
    ensures d < 0 ==> DeltaBytes(d) == [(d + 0x1_0000) / 0x100, (d + 0x1_0000) % 0x100]
  {
    if d < 0 {
      DivMod(d, TWO16, -1, d + 0x1_0000);
    } else {
      DivMod(d, TWO16, 0, d);
    }
  }

  /** After the last delta come zero bytes up to a multiple of four. */
  lemma FillerOnWire(first: u32, times: seq<u64>, i: nat)
    requires |Header(first, times) + Payload(times)| <= i < |Wire(first, times)|
    ensures Wire(first, times)[i] == 0 && |Wire(first, times)| % 4 == 0
    ensures |Wire(first, times)| - |Header(first, times) + Payload(times)| < 4
  {
    hide Header, Payload;
    var body := Header(first, times) + Payload(times);
    assert Wire(first, times)[i] == Filler(|body|)[i - |body|];
  }

  // ---------------------------------------------------------------- what any input means

  /** The header numbers of any input of eight bytes, and nothing below that. */
  lemma ParsedHeader(fb: Feedback, data: seq<byte>)
    ensures |data| < 8 ==> ParseEffect(fb, data) == fb
    ensures |data| >= 8 ==>
              && ParseEffect(fb, data).feedbackPacketCount == data[7]
              && ParseEffect(fb, data).referenceTime
                 == 0x100_0000 * (data[4] as int) + 0x1_0000 * (data[5] as int) + 0x100 * (data[6] as int)
  {
    hide ScanStatuses, Decode, Store, StartTime;
    if |data| >= 8 {
      var word, low := Read32(data, 4), data[7];
      var top := 0x1_0000 * (data[4] as int) + 0x100 * (data[5] as int) + data[6];
      DivMod(word, 0x100, top, low);
    }
  }

  /** What any input means: if the k-th chunk completes the count, packet i is at
      the base number plus i; its delta bytes must be there; it is 0 if its symbol
      is 0, and otherwise the start time plus 250 us for each step so far. Reserved
      symbols, missing deltas and other numbers leave the map alone. */
  lemma ParsedPacket(fb: Feedback, data: seq<byte>, k: nat, i: nat)
    requires |data| >= 8 && Completes(data, 8, Read16(data, 2), k) && i < Read16(data, 2)
    ensures var statuses, bytes := StatusesOf(data, 8, k), data[8 + 2 * k..];
            var start := (64000 * (Read32(data, 4) - data[7])) % TWO32;
            var key: u32 := (Read32(data, 0) + i) % TWO32;
            var before, after := fb.packets, ParseEffect(fb, data).packets;
            if DeltaLength(statuses[..i + 1]) > |bytes| || statuses[i] == Reserved
            then (key in after <==> key in before) && (key in after ==> after[key] == before[key])
            else key in after && after[key] == if statuses[i] == NotReceived then 0
                                               else (start + 250 * DeltaSum(statuses[..i + 1], bytes)) % TWO64
  {
    hide ParseEffect, ScanStatuses, Decode, Store, StatusesOf, Completes, DeltaLength, DeltaSum, Read32, Read16,
      ReferenceWord, StartTime;
    var count, scan := Read16(data, 2), ScanStatuses(data, 8, Read16(data, 2), []);
    ScanIsGrammar(data, 8, count);
    CompletesCount(data, count, k);
    ParseScanned(fb, data, scan);
    var statuses, bytes := StatusesOf(data, 8, k), data[8 + 2 * k..];
    var listed := statuses[..count];
    assert listed[..i + 1] == statuses[..i + 1] && listed[i] == statuses[i];
    var start := StartTime(ReferenceWord(data));
    StartOfHeader(data);
    var entries := Decode(listed, bytes, start);
    DecodeClosedForm(listed, bytes, start, i);
    KeyIndex(Read32(data, 0), i);
    StoreLookup(fb.packets, Read32(data, 0), entries, (Read32(data, 0) + i) % TWO32);
  }

  lemma CompletesCount(data: seq<byte>, count: nat, k: nat)
    requires Completes(data, 8, count, k)
    ensures 8 + 2 * k <= |data| && |StatusesOf(data, 8, k)| >= count
  {}

  lemma StartOfHeader(data: seq<byte>)
    requires |data| >= 8
    ensures StartTime(ReferenceWord(data)) == (64000 * (Read32(data, 4) - data[7])) % TWO32
  {
    var word := Read32(data, 4);
    DivMod(word, 0x100, 0x1_0000 * (data[4] as int) + 0x100 * (data[5] as int) + data[6], data[7]);
  }

  /** Without a chunk that completes the count nothing is recorded. */
  lemma ParsedNothing(fb: Feedback, data: seq<byte>)
    requires |data| >= 8 && forall k: nat :: !Completes(data, 8, Read16(data, 2), k)
    ensures ParseEffect(fb, data).packets == fb.packets
  {
    hide ScanStatuses, Decode, Store, Completes, StartTime;
    ScanIsGrammar(data, 8, Read16(data, 2));
  }

  /** Numbers outside the count are left alone by any input. */
  lemma ParsedOthers(fb: Feedback, data: seq<byte>, key: u32)
    requires |data| >= 8 && (key - Read32(data, 0)) % TWO32 >= Read16(data, 2)
    ensures var before, after := fb.packets, ParseEffect(fb, data).packets;
            (key in after <==> key in before) && (key in after ==> after[key] == before[key])
  {
    hide ScanStatuses, Decode, Store, Read32, Read16, StartTime;
    var scan := ScanStatuses(data, 8, Read16(data, 2), []);
    if scan.Scanned? {
      ParseScanned(fb, data, scan);
      StoreLookup(fb.packets, Read32(data, 0),
                  Decode(scan.statuses[..Read16(data, 2)], data[scan.next..], StartTime(ReferenceWord(data))), key);
    }
  }
}
