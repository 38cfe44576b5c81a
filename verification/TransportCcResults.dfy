/** The feedback round trip on the maps of the two objects, the length of the
    wire form, and a corrected header reader under which the round trip is right
    in absolute terms. */
module TransportCcResults {
  import opened Bytes
  import opened TransportCc
  import opened TransportCcCodec
  import opened TransportCcCount
  import opened TransportCcDecoder
  import opened TransportCcQuantisation
  import opened TransportCcRoundTrip

  // ---------------------------------------------------------------- contiguous maps

  /** The keys are first, first + 1, ..., first + n - 1. */
  ghost predicate Contiguous(m: map<u32, u64>, first: u32, n: nat)
  {
    forall k: int :: k in m <==> first <= k < first + n
  }

  lemma {:induction false} AtLeast(s: seq<u32>, lo: int, i: nat)
    requires i < |s| && (forall j, k :: 0 <= j < k < |s| ==> s[j] < s[k]) && lo <= s[0]
    ensures s[i] >= lo + i
  {
    if i > 0 {
      AtLeast(s, lo, i - 1);
    }
  }

  lemma {:induction false} AtMost(s: seq<u32>, hi: int, i: nat)
    requires i < |s| && (forall j, k :: 0 <= j < k < |s| ==> s[j] < s[k]) && s[|s| - 1] < hi
    ensures s[i] <= hi - (|s| - i)
    decreases |s| - i
  {
    if i < |s| - 1 {
      AtMost(s, hi, i + 1);
    }
  }

  lemma {:induction false} RangeOfKeys(ks: set<u32>, first: int, n: nat)
    requires forall k: int :: k in ks <==> first <= k < first + n
    ensures |ks| == n
    decreases n
  {
    if n == 0 {
      assert ks == {};
    } else {
      assert first + n - 1 in ks;
      RangeOfKeys(ks - {first + n - 1}, first, n - 1);
    }
  }

  /** The entries in key order are the values at first, first + 1, ... */
  lemma TimesOfContiguous(m: map<u32, u64>, first: u32, n: nat)
    requires Contiguous(m, first, n)
    ensures |Times(m)| == n
    ensures forall i :: 0 <= i < n ==> first + i in m && Times(m)[i] == m[first + i]
    ensures n > 0 ==> SortedKeys(m.Keys)[0] == first
  {
    hide SortedKeys;
    RangeOfKeys(m.Keys, first, n);
    var s := SortedKeys(m.Keys);
    forall i: nat | i < n ensures s[i] == first + i {
      assert s[0] in m && s[n - 1] in m;
      AtLeast(s, first, i);
      AtMost(s, first + n, i);
    }
  }

  // ---------------------------------------------------------------- the round trip on maps

  /** What Serialize needs to produce a well-formed field. */
  ghost predicate Sendable(m: map<u32, u64>, first: u32, times: seq<u64>)
  {
    && times == Times(m) && Contiguous(m, first, |times|) && |times| < TWO16
    && AnyReceived(times) && DeltasFit(Unset, times)
  }

  predicate MapsTo(m: map<u32, u64>, k: int, v: u64)
  {
    k in m && m[k] == v
  }

  /** The decoder's start time plus the encoder's time since its reference time. */
  function DecodedTime(times: seq<u64>, i: nat): u64
    requires i < |times|
  {
    (StartTime(Reference(times) * 0x100) + (Quantised(Unset, times)[i] - 64000 * Reference(times))) % TWO64
  }

  /** Parsing what Serialize wrote for a contiguous map: packet i of the sender
      is recorded once, packets not received as 0, received packets at the
      decoder's start time plus the encoder's time since its reference time. */
  lemma FeedbackRoundTrip(m: map<u32, u64>, first: u32, times: seq<u64>, fb: Feedback, i: nat)
    requires Sendable(m, first, times) && i < |times|
    ensures MapsTo(m, first + i, times[i])
    ensures var parsed := ParseEffect(fb, Wire(first, times)).packets;
            var key := (DecodedBase(first, times) + i) % TWO32;
            MapsTo(parsed, key, if times[i] == 0 then 0 else DecodedTime(times, i))
  {
    hide Times, SortedKeys, ParseEffect, Wire, Store, Quantised, DeltasFit, Reference, AnyReceived, DecodedTime,
      DecodedBase;
    TimesOfContiguous(m, first, |times|);
    RoundTripEntry(fb, first, times, i);
  }

  lemma RoundTripEntry(fb: Feedback, first: u32, times: seq<u64>, i: nat)
    requires AnyReceived(times) && |times| < TWO16 && DeltasFit(Unset, times) && i < |times|
    ensures var parsed := ParseEffect(fb, Wire(first, times)).packets;
            var key := (DecodedBase(first, times) + i) % TWO32;
            MapsTo(parsed, key, if times[i] == 0 then 0 else DecodedTime(times, i))
  {
    hide ParseEffect, Wire, Store, Quantised, DeltasFit, Reference, AnyReceived, DecodedBase, Expected;
    RoundTrip(fb, first, times);
    var entries := Expected(times, Quantised(Unset, times), Offset(times));
    var base := DecodedBase(first, times);
    KeyIndex(base, i);
    StoreLookup(fb.packets, base, entries, (base + i) % TWO32);
    OffsetIsDifference(times, Quantised(Unset, times)[i]);
  }

  lemma OffsetIsDifference(times: seq<u64>, q: u64)
    ensures q + Offset(times) == StartTime(Reference(times) * 0x100) + (q - 64000 * Reference(times))
  {}

  /** Keys outside the decoded range keep what the receiving map held. */
  lemma OtherKeysKept(m: map<u32, u64>, first: u32, times: seq<u64>, fb: Feedback, k: u32)
    requires Sendable(m, first, times)
    requires (k - DecodedBase(first, times)) % TWO32 >= |times|
    ensures var parsed := ParseEffect(fb, Wire(first, times)).packets;
            (k in parsed <==> k in fb.packets) && (k in parsed ==> parsed[k] == fb.packets[k])
  {
    hide Times, SortedKeys, ParseEffect, Wire, Store, Quantised, DeltasFit, Reference, AnyReceived, DecodedBase,
      Expected, Offset;
    RoundTrip(fb, first, times);
    StoreLookup(fb.packets, DecodedBase(first, times), Expected(times, Quantised(Unset, times), Offset(times)), k);
  }

  // ---------------------------------------------------------------- length

  function Count(statuses: seq<Status>, s: Status): nat
  {
    if statuses == [] then 0 else (if statuses[0] == s then 1 else 0) + Count(statuses[1..], s)
  }

  lemma {:induction false} DeltaSectionLength(c: Clock, times: seq<u64>)
    ensures |AllDeltaBytes(Deltas(c, times))|
         == Count(Statuses(c, times), SmallDelta) + 2 * Count(Statuses(c, times), LargeOrNegativeDelta)
    decreases |times|
  {
    hide Delta, Advance;
    if times != [] {
      var t, c' := times[0], Advance(c, times[0]);
      DeltaSectionLength(c', times[1..]);
      assert Statuses(c, times)[1..] == Statuses(c', times[1..]);
      if t == 0 {
        assert Deltas(c, times) == Deltas(c', times[1..]);
      } else {
        assert Deltas(c, times)[1..] == Deltas(c', times[1..]);
      }
    }
  }

  /** The returned length in closed form: four header bytes, four more if any
      packet was received, one chunk per seven packets, one or two bytes per
      delta, padded to four. */
  lemma WireLength(first: u32, times: seq<u64>)
    ensures var st, head := Statuses(Unset, times), if AnyReceived(times) then 8 else 4;
            var len := head + 2 * ((|times| + 6) / 7) + Count(st, SmallDelta) + 2 * Count(st, LargeOrNegativeDelta);
            |Wire(first, times)| == len + (4 - len % 4) % 4
  {
    hide AnyReceived, Statuses, Deltas, Chunks, AllDeltaBytes, Count;
    ChunksLength(Statuses(Unset, times));
    DeltaSectionLength(Unset, times);
  }

  // ---------------------------------------------------------------- corrected header reader (not in the source)

  /** Parse with the header read as it is written: a 16-bit base number, and the
      reference time shifted down and multiplied without truncation. */
  function CorrectedParse(data: seq<byte>): map<u32, u64>
  {
    if |data| < 8 then map[]
    else match ScanStatuses(data, 8, Read16(data, 2), [])
      case Truncated => map[]
      case Scanned(statuses, next) =>
        Store(map[], Read16(data, 0),
              Decode(statuses[..Read16(data, 2)], data[next..], 64000 * (Read32(data, 4) / 0x100)))
  }

  /** With the corrected reader the same sequence numbers come back, packets
      not received as 0 and received packets at the encoder's own times. */
  lemma CorrectedTimes(m: map<u32, u64>, first: u32, times: seq<u64>, k: u32)
    requires Sendable(m, first, times) && first < TWO16
    ensures var parsed := CorrectedParse(Wire(first, times));
            && (k in parsed <==> k in m) && (k in m <==> first <= k < first + |times|)
            && (k in m ==> m[k] == times[k - first])
            && (k in m ==> parsed[k] == if m[k] == 0 then 0 else Quantised(Unset, times)[k - first])
  {
    hide Times, SortedKeys, CorrectedParse, Wire, Store, Quantised, DeltasFit, Reference, AnyReceived, Expected;
    TimesOfContiguous(m, first, |times|);
    var q := Quantised(Unset, times);
    ReceivedNonEmpty(times);
    CorrectedEntries(first, times);
    StoreLookup(map[], first, Expected(times, q, 0), k);
    if k in m {
      CorrectedKey(first, k, |times|);
      assert times[k - first] == m[k];
    } else {
      OtherKey(first, k, |times|);
    }
  }

  /** They are within 250 us of the true arrivals. */
  lemma CorrectedRoundTrip(m: map<u32, u64>, first: u32, times: seq<u64>, k: u32)
    requires Sendable(m, first, times) && first < TWO16 && QuotientsFit(Unset, times)
    ensures var parsed := CorrectedParse(Wire(first, times));
            && (k in parsed <==> k in m)
            && (k in m && m[k] == 0 ==> parsed[k] == 0)
            && (k in m && m[k] != 0 ==> parsed[k] % 250 == 0 && -250 < parsed[k] - m[k] < 250)
  {
    hide Sendable, CorrectedParse, Wire, Quantised, QuotientsFit;
    CorrectedTimes(m, first, times, k);
    NeverDrifts(Unset, times);
  }

  /** On any clock they are, up to whole cycles of the time format. */
  lemma CorrectedRoundTripOnAnyClock(m: map<u32, u64>, first: u32, times: seq<u64>, k: u32)
    requires Sendable(m, first, times) && first < TWO16 && NoWrap(Unset, times)
    ensures var parsed := CorrectedParse(Wire(first, times));
            && (k in parsed <==> k in m)
            && (k in m && m[k] == 0 ==> parsed[k] == 0)
            && (k in m && m[k] != 0 ==> parsed[k] % 250 == 0 && CloseOnCycle(parsed[k], m[k]))
  {
    hide Sendable, CorrectedParse, Wire, Quantised, NoWrap, CloseOnCycle;
    CorrectedTimes(m, first, times, k);
    NeverDriftsOnAnyClock(Unset, times);
  }

  lemma CorrectedKey(first: u32, k: u32, n: nat)
    requires first <= k < first + n
    ensures (k - first) % TWO32 == k - first < n
  {}

  lemma OtherKey(first: u32, k: u32, n: nat)
    requires first < TWO16 && n < TWO16 && !(first <= k < first + n)
    ensures (k - first) % TWO32 >= n
  {}

  lemma ReceivedNonEmpty(times: seq<u64>)
    requires AnyReceived(times)
    ensures |times| > 0
  {}

  lemma CorrectedEntries(first: u32, times: seq<u64>)
    requires AnyReceived(times) && |times| < TWO16 && DeltasFit(Unset, times) && first < TWO16
    ensures CorrectedParse(Wire(first, times)) == Store(map[], first, Expected(times, Quantised(Unset, times), 0))
  {
    hide Wire, Store, Quantised, DeltasFit, Reference, AnyReceived, Header, ScanStatuses, Decode, Expected, Filler,
      Body, AllDeltaBytes, Deltas, Statuses;
    var rest := WireSplit(first, times);
    HeaderReadsBack(first, times, rest);
    WireScans(first, times);
    DecodeEncoded(Unset, times, 64000 * Reference(times), 0, Filler(|Body(first, times)|));
  }

  // ---------------------------------------------------------------- which maps keep their keys

  /** The n keys from base on, in 32-bit arithmetic. */
  ghost predicate KeysFrom(m: map<u32, u64>, base: u32, n: nat)
  {
    forall k: u32 :: k in m <==> (k - base) % TWO32 < n
  }

  lemma StoredKeys(base: u32, entries: seq<Entry>)
    requires |entries| <= TWO32 && forall i :: 0 <= i < |entries| ==> entries[i].At?
    ensures KeysFrom(Store(map[], base, entries), base, |entries|)
  {
    hide Store;
    forall k: u32 ensures k in Store(map[], base, entries) <==> (k - base) % TWO32 < |entries| {
      StoreLookup(map[], base, entries, k);
    }
  }

  /** The corrected reader on a map with a received packet and a count of 16 bits. */
  lemma CorrectedKeys(first: u32, times: seq<u64>)
    requires AnyReceived(times) && |times| < TWO16
    ensures KeysFrom(CorrectedParse(Wire(first, times)), first % TWO16, |times|)
  {
    hide Wire, Store, Reference, AnyReceived, Header, ScanStatuses, Decode, Filler, Body, AllDeltaBytes, Deltas,
      Statuses, KeysFrom, Read16, Read32;
    var rest := WireSplit(first, times);
    HeaderReadsBack(first, times, rest);
    WireScans(first, times);
    EveryEntryRead(Unset, times, 64000 * Reference(times), Filler(|Body(first, times)|));
    StoredKeys(first % TWO16, Decode(Statuses(Unset, times), DeltaSection(first, times), 64000 * Reference(times)));
  }

  /** On any other map it records fewer packets than were sent. */
  lemma CorrectedTooFew(first: u32, times: seq<u64>)
    requires times != [] && !(AnyReceived(times) && |times| < TWO16)
    ensures |CorrectedParse(Wire(first, times))| < |times|
  {
    hide Wire, Store, AnyReceived, ScanStatuses, Decode, Read16, Read32;
    var data, count := Wire(first, times), |times| % TWO16;
    CountReads(first, times);
    if |times| < TWO16 {
      EmptyWire(first, times);
      ScanEmptyWire(data, first, |times|);
    } else if |data| >= 8 {
      var scan := ScanStatuses(data, 8, count, []);
      if scan.Scanned? {
        StoreSize(Read16(data, 0),
                  Decode(scan.statuses[..count], data[scan.next..], 64000 * (Read32(data, 4) / 0x100)));
      }
    }
  }

  /** Exactly the maps without gaps that start at a 16-bit number come back with
      their own keys, given a received packet and a count of 16 bits. */
  lemma CorrectedKeysIff(m: map<u32, u64>)
    requires m != map[]
    ensures var first, times := SortedKeys(m.Keys)[0], Times(m);
            CorrectedParse(Wire(first, times)).Keys == m.Keys <==>
              AnyReceived(times) && |times| < TWO16 && Contiguous(m, first, |times|) && first < TWO16
  {
    hide SortedKeys, Times, CorrectedParse, Wire, AnyReceived, KeysFrom, Contiguous;
    var first, times := SortedKeys(m.Keys)[0], Times(m);
    var parsed := CorrectedParse(Wire(first, times));
    if AnyReceived(times) && |times| < TWO16 {
      CorrectedKeys(first, times);
      FirstIsLeast(m);
      if parsed.Keys == m.Keys {
        SameKeysFrom(m, parsed, first % TWO16, |times|);
        RangeWithLeast(m, first, first % TWO16, |times|);
      }
      if Contiguous(m, first, |times|) && first < TWO16 {
        SameRange(m, parsed, first, |times|);
      }
    } else {
      CorrectedTooFew(first, times);
      assert |parsed.Keys| == |parsed|;
    }
  }

  lemma FirstIsLeast(m: map<u32, u64>)
    requires m != map[]
    ensures var first := SortedKeys(m.Keys)[0]; first in m && forall k :: k in m ==> first <= k
  {
    var s := SortedKeys(m.Keys);
    assert s[0] in s;
  }

  lemma SameKeysFrom(m: map<u32, u64>, p: map<u32, u64>, base: u32, n: nat)
    requires KeysFrom(p, base, n) && p.Keys == m.Keys
    ensures KeysFrom(m, base, n)
  {
    forall k: u32 ensures k in m <==> (k - base) % TWO32 < n {
      assert k in m.Keys <==> k in p.Keys;
    }
  }

  /** A range of keys that does not wrap starts at its least key. */
  lemma RangeWithLeast(m: map<u32, u64>, first: u32, base: u32, n: nat)
    requires KeysFrom(m, base, n) && n < TWO16 && base + n <= TWO32
    requires first in m && forall k :: k in m ==> first <= k
    ensures first == base && Contiguous(m, first, n)
  {
    assert (base - base) % TWO32 == 0 && base in m;
    InRange(first, base, n);
    forall k: int ensures k in m <==> first <= k < first + n {
      if 0 <= k < TWO32 {
        InRange(k, base, n);
      }
    }
  }

  lemma InRange(k: u32, base: u32, n: nat)
    requires base + n <= TWO32
    ensures (k - base) % TWO32 < n <==> base <= k < base + n
  {}

  lemma SameRange(m: map<u32, u64>, p: map<u32, u64>, first: u32, n: nat)
    requires Contiguous(m, first, n) && KeysFrom(p, first, n) && first + n <= TWO32
    ensures p.Keys == m.Keys
  {
    forall k: u32 ensures k in p.Keys <==> k in m.Keys {
      InRange(k, first, n);
    }
  }
}
