/** The decoder against a declarative grammar: the status list is the
    concatenation of chunk expansions, and the delta section is read at offsets
    given by the widths of the statuses alone. */
module TransportCcDecoder {
  import opened Bytes
  import opened TransportCc

  // ---------------------------------------------------------------- the chunk section

  /** The first k chunks after `pos`. */
  function Words(data: seq<byte>, pos: nat, k: nat): (w: seq<u16>)
    requires pos + 2 * k <= |data|
    ensures |w| == k
  {
    seq(k, i requires 0 <= i < k => Read16(data, pos + 2 * i))
  }

  function ExpandAll(words: seq<u16>): seq<Status>
  {
    if words == [] then [] else ExpandAll(words[..|words| - 1]) + Expand(words[|words| - 1])
  }

  /** The statuses of the first k chunks. */
  function StatusesOf(data: seq<byte>, pos: nat, k: nat): seq<Status>
    requires pos + 2 * k <= |data|
  {
    ExpandAll(Words(data, pos, k))
  }

  lemma StatusesOfStep(data: seq<byte>, pos: nat, k: nat)
    requires pos + 2 * (k + 1) <= |data|
    ensures StatusesOf(data, pos, k + 1) == StatusesOf(data, pos, k) + Expand(Read16(data, pos + 2 * k))
  {
    assert Words(data, pos, k + 1)[..k] == Words(data, pos, k);
  }

  /** The k-th chunk is the first to complete the list. */
  ghost predicate Completes(data: seq<byte>, pos: nat, count: nat, k: nat)
  {
    && pos + 2 * k <= |data|
    && |StatusesOf(data, pos, k)| >= count
    && forall j: nat :: j < k ==> |StatusesOf(data, pos, j)| < count
  }

  /** From any point of the section, the loop stops at the completing chunk. */
  lemma {:induction false} ScanFrom(data: seq<byte>, pos: nat, count: nat, j: nat) returns (k: nat)
    requires pos + 2 * j <= |data|
    requires forall i: nat :: i < j ==> |StatusesOf(data, pos, i)| < count
    ensures var r := ScanStatuses(data, pos + 2 * j, count, StatusesOf(data, pos, j));
            if r.Scanned? then Completes(data, pos, count, k) && r == Scanned(StatusesOf(data, pos, k), pos + 2 * k)
            else pos + 2 * k <= |data| < pos + 2 * k + 2
                 && forall i: nat :: i <= k ==> |StatusesOf(data, pos, i)| < count
    decreases |data| - 2 * j
  {
    hide StatusesOf, Expand;
    k := j;
    if |StatusesOf(data, pos, j)| < count && pos + 2 * j + 2 <= |data| {
      StatusesOfStep(data, pos, j);
      k := ScanFrom(data, pos, count, j + 1);
    }
  }

  lemma CompletesUnique(data: seq<byte>, pos: nat, count: nat, j: nat, k: nat)
    requires Completes(data, pos, count, j) && Completes(data, pos, count, k)
    ensures j == k
  {}

  /** The scan succeeds exactly when some chunk completes the list, and then its
      result is the concatenation of the expansions up to that chunk. */
  lemma ScanIsGrammar(data: seq<byte>, pos: nat, count: nat)
    requires pos <= |data|
    ensures ScanStatuses(data, pos, count, []).Scanned? <==> exists k: nat :: Completes(data, pos, count, k)
    ensures forall k: nat :: Completes(data, pos, count, k) ==>
              ScanStatuses(data, pos, count, []) == Scanned(StatusesOf(data, pos, k), pos + 2 * k)
  {
    assert StatusesOf(data, pos, 0) == [];
    hide StatusesOf, ScanStatuses;
    var m := ScanFrom(data, pos, count, 0);
    var r := ScanStatuses(data, pos, count, []);
    forall k: nat | Completes(data, pos, count, k)
      ensures r == Scanned(StatusesOf(data, pos, k), pos + 2 * k)
    {
      if r.Scanned? {
        CompletesUnique(data, pos, count, m, k);
      }
    }
  }

  // ---------------------------------------------------------------- the delta section

  function Width(s: Status): nat
  {
    match s
    case NotReceived => 0
    case SmallDelta => 1
    case LargeOrNegativeDelta => 2
    case Reserved => 0
  }

  /** Delta bytes taken by a list of statuses. */
  function DeltaLength(statuses: seq<Status>): nat
  {
    if statuses == [] then 0 else Width(statuses[0]) + DeltaLength(statuses[1..])
  }

  /** The signed number of a status whose delta starts at `at`. */
  function DeltaAt(s: Status, bytes: seq<byte>, at: nat): int
    requires at + Width(s) <= |bytes|
  {
    match s
    case NotReceived => 0
    case SmallDelta => bytes[at]
    case LargeOrNegativeDelta => SignedDelta(Read16(bytes, at))
    case Reserved => 0
  }

  /** The sum of the deltas of all statuses. */
  function DeltaSum(statuses: seq<Status>, bytes: seq<byte>): int
    requires DeltaLength(statuses) <= |bytes|
    decreases |statuses|
  {
    if statuses == [] then 0
    else var w := Width(statuses[0]);
         DeltaAt(statuses[0], bytes, 0) + DeltaSum(statuses[1..], bytes[w..])
  }

  lemma ModAdd(a: int, b: int, m: int)
    requires m > 0
    ensures (a % m + b) % m == (a + b) % m
  {
    var q := a / m;
    assert a == m * q + a % m;
    ModShift(a % m + b, q, m);
  }

  lemma ModShift(x: int, q: int, m: int)
    requires m > 0
    ensures (x + m * q) % m == x % m
  {
    var k, r := x / m, x % m;
    assert x == m * k + r;
    MulAdd(k, q, m);
    DivMod(x + m * q, m, k + q, r);
  }

  lemma MulAdd(x: int, y: int, m: int)
    ensures (x + y) * m == m * x + m * y
  {}

  /** What the decoder records for status i, given the deltas of `front`. */
  function EntryFor(s: Status, front: seq<Status>, bytes: seq<byte>, time: int): Entry
    requires DeltaLength(front) <= |bytes|
  {
    match s
    case NotReceived => At(0)
    case Reserved => Absent
    case _ => At((time + 250 * DeltaSum(front, bytes)) % TWO64)
  }

  lemma EntryForStep(s: Status, front: seq<Status>, bytes: seq<byte>, time: u64, r: Reading)
    requires front != [] && r == ReadOne(front[0], bytes, time) && r.Read?
    requires DeltaLength(front) <= |bytes|
    ensures EntryFor(s, front[1..], bytes[r.used..], r.time) == EntryFor(s, front, bytes, time)
  {
    hide ReadOne;
    ReadOneTime(front[0], bytes, time);
    var d, rest := DeltaAt(front[0], bytes, 0), DeltaSum(front[1..], bytes[r.used..]);
    assert DeltaSum(front, bytes) == d + rest;
    ModAdd(time + 250 * d, 250 * rest, TWO64);
  }

  lemma ReadOneTime(s: Status, bytes: seq<byte>, time: u64)
    requires ReadOne(s, bytes, time).Read?
    ensures var r := ReadOne(s, bytes, time);
            Width(s) == r.used <= |bytes| && r.time == (time + 250 * DeltaAt(s, bytes, 0)) % TWO64
  {}

  lemma EntryForFirst(s: Status, bytes: seq<byte>, time: u64)
    ensures ReadOne(s, bytes, time).Read? <==> Width(s) <= |bytes|
    ensures DeltaLength([s]) == Width(s)
    ensures Width(s) <= |bytes| ==> ReadOne(s, bytes, time).entry == EntryFor(s, [s], bytes, time)
  {
    assert [s][1..] == [];
    if Width(s) <= |bytes| {
      assert DeltaSum([s], bytes) == DeltaAt(s, bytes, 0);
    }
  }

  lemma DecodeUnfold(statuses: seq<Status>, bytes: seq<byte>, time: u64)
    requires statuses != []
    ensures var r := ReadOne(statuses[0], bytes, time);
            && Decode(statuses, bytes, time)
               == (if r.Short? then [] else [r.entry] + Decode(statuses[1..], bytes[r.used..], r.time))
            && (r.Read? <==> Width(statuses[0]) <= |bytes|) && (r.Read? ==> r.used == Width(statuses[0]))
  {}

  /** Entry i exists exactly when the bytes reach past its delta, and it holds
      the start time plus all deltas so far. */
  lemma {:induction false} DecodeClosedForm(statuses: seq<Status>, bytes: seq<byte>, time: u64, i: nat)
    requires i < |statuses|
    ensures i < |Decode(statuses, bytes, time)| <==> DeltaLength(statuses[..i + 1]) <= |bytes|
    ensures DeltaLength(statuses[..i + 1]) <= |bytes| ==>
              Decode(statuses, bytes, time)[i] == EntryFor(statuses[i], statuses[..i + 1], bytes, time)
    decreases |statuses|
  {
    hide Decode, EntryFor, ReadOne;
    var s, rest, front := statuses[0], statuses[1..], statuses[..i + 1];
    assert front[0] == s && front[1..] == rest[..i];
    DecodeUnfold(statuses, bytes, time);
    var r := ReadOne(s, bytes, time);
    if i == 0 {
      assert front == [s];
      EntryForFirst(s, bytes, time);
    } else if r.Read? {
      DecodeClosedForm(rest, bytes[r.used..], r.time, i - 1);
      if DeltaLength(front) <= |bytes| {
        EntryForStep(statuses[i], front, bytes, time, r);
      }
    }
  }

  /** Cutting the input anywhere in the delta section leaves a prefix of the entries. */
  lemma {:induction false} TruncationLeavesPrefix(statuses: seq<Status>, bytes: seq<byte>, time: u64, m: nat)
    requires m <= |bytes|
    ensures Decode(statuses, bytes[..m], time) <= Decode(statuses, bytes, time)
    ensures m >= DeltaLength(statuses) ==> Decode(statuses, bytes[..m], time) == Decode(statuses, bytes, time)
    decreases |statuses|
  {
    hide ReadOne, Decode;
    if statuses == [] {
      DecodeNothing(bytes, time);
      DecodeNothing(bytes[..m], time);
    } else {
      var r, rm := ReadOne(statuses[0], bytes, time), ReadOne(statuses[0], bytes[..m], time);
      DecodeUnfold(statuses, bytes, time);
      DecodeUnfold(statuses, bytes[..m], time);
      if rm.Read? {
        ReadOnePrefix(statuses[0], bytes, time, m);
        SliceSlice(bytes, 0, m, r.used, m);
        DropSlice(bytes, r.used, 0, m - r.used);
        assert bytes[..m][r.used..] == bytes[r.used..][..m - r.used];
        TruncationLeavesPrefix(statuses[1..], bytes[r.used..], r.time, m - r.used);
      }
    }
  }

  lemma DecodeNothing(bytes: seq<byte>, time: u64)
    ensures Decode([], bytes, time) == []
  {}

  lemma ReadOnePrefix(s: Status, bytes: seq<byte>, time: u64, m: nat)
    requires m <= |bytes| && ReadOne(s, bytes[..m], time).Read?
    ensures ReadOne(s, bytes, time) == ReadOne(s, bytes[..m], time)
  {}

  /** Two inputs with equal headers, equal statuses and equal delta bytes mean
      the same, whatever chunk forms they use and whatever follows the deltas. */
  lemma SameMeaning(fb: Feedback, a: seq<byte>, b: seq<byte>, s: Scan, t: Scan)
    requires 8 <= |a| && 8 <= |b| && a[..8] == b[..8]
    requires s == ScanStatuses(a, 8, Read16(a, 2), []) && s.Scanned?
    requires t == ScanStatuses(b, 8, Read16(a, 2), []) && t.Scanned?
    requires s.statuses[..Read16(a, 2)] == t.statuses[..Read16(a, 2)]
    requires var w := DeltaLength(s.statuses[..Read16(a, 2)]);
             s.next + w <= |a| && t.next + w <= |b| && a[s.next..][..w] == b[t.next..][..w]
    ensures ParseEffect(fb, a) == ParseEffect(fb, b)
  {
    hide ParseEffect, Decode, ScanStatuses, DeltaLength, StartTime, Store;
    SameHeader(a, b);
    var sts := s.statuses[..Read16(a, 2)];
    ParseScanned(fb, a, s);
    ParseScanned(fb, b, t);
    SameDeltas(sts, a[s.next..], b[t.next..], StartTime(ReferenceWord(a)), DeltaLength(sts));
  }

  /** The reference time as the decoder keeps it: the word with its low byte cleared. */
  function ReferenceWord(data: seq<byte>): u32
    requires |data| >= 8
  {
    Read32(data, 4) - Read32(data, 4) % 0x100
  }

  lemma ParseScanned(fb: Feedback, data: seq<byte>, s: Scan)
    requires |data| >= 8 && s == ScanStatuses(data, 8, Read16(data, 2), []) && s.Scanned?
    ensures ParseEffect(fb, data) ==
            Feedback(Store(fb.packets, Read32(data, 0),
                           Decode(s.statuses[..Read16(data, 2)], data[s.next..], StartTime(ReferenceWord(data)))),
                     data[7], ReferenceWord(data))
  {
    hide Decode, ScanStatuses, StartTime, Store;
  }

  lemma SameHeader(a: seq<byte>, b: seq<byte>)
    requires 8 <= |a| && 8 <= |b| && a[..8] == b[..8]
    ensures Read32(a, 0) == Read32(b, 0) && Read16(a, 2) == Read16(b, 2)
    ensures Read32(a, 4) == Read32(b, 4) && a[7] == b[7]
  {
    assert forall i :: 0 <= i < 8 ==> a[i] == a[..8][i] && b[i] == b[..8][i];
  }

  lemma SameDeltas(sts: seq<Status>, x: seq<byte>, y: seq<byte>, start: u64, w: nat)
    requires w == DeltaLength(sts) && w <= |x| && w <= |y| && x[..w] == y[..w]
    ensures Decode(sts, x, start) == Decode(sts, y, start)
  {
    TruncationLeavesPrefix(sts, x, start, w);
    TruncationLeavesPrefix(sts, y, start, w);
  }

  // ---------------------------------------------------------------- the map

  /** The recorded map: key base + i holds entry i, absent entries and other
      keys keep what the map held before. */
  lemma {:induction false} StoreLookup(m: map<u32, u64>, base: u32, entries: seq<Entry>, k: u32)
    requires |entries| <= TWO32
    ensures var i := (k - base) % TWO32; var m' := Store(m, base, entries);
            if i < |entries| && entries[i].At? then k in m' && m'[k] == entries[i].time
            else (k in m' <==> k in m) && (k in m' ==> m'[k] == m[k])
    decreases |entries|
  {
    if entries != [] {
      var n := |entries| - 1;
      StoreLookup(m, base, entries[..n], k);
      KeyMatches(base, n, k);
    }
  }

  lemma KeyMatches(base: u32, n: nat, k: u32)
    requires n < TWO32
    ensures (base + n) % TWO32 == k <==> n == (k - base) % TWO32
  {}
}
