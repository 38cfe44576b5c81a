/** What the loss window stands for. A History forgets the ring and keeps, for
    the current epoch, the first sequence number, the next expected one and the
    set of numbers that arrived. The ring refines it: exactly when no packet
    lands on the slot of a live number, and as a sound under-count always. */
module LossHistory {
  import opened Bytes
  import opened LossWindow

  datatype History = Fresh | Epoch(first: nat, next: nat, arrived: set<nat>)

  /** An epoch starts at the first packet and whenever a packet is 255 or more
      ahead of the next expected number. */
  function Observe(h: History, x: nat): History
  {
    if h.Fresh? || x >= h.next + 255 then Epoch(x, x + 1, {x})
    else Epoch(h.first, Max(h.next, x + 1), h.arrived + {x})
  }

  function Observed(ps: seq<Packet>): History
  {
    if ps == [] then Fresh else Observe(Observed(ps[..|ps| - 1]), ps[|ps| - 1].extSeq)
  }

  /** The oldest number the window still covers. */
  function Oldest(first: nat, next: nat): nat { Max(first, next - SIZE) }

  predicate InWindow(h: History, z: int)
  {
    h.Epoch? && Oldest(h.first, h.next) <= z < h.next
  }

  /** The numbers of the window that never arrived in this epoch. */
  function Missing(h: History): set<int>
  {
    if h.Fresh? then {}
    else set z: int | Oldest(h.first, h.next) <= z < h.next && z !in h.arrived
  }

  function CountedSlots(ring: seq<PacketInfo>): set<int>
  {
    set i: int | 0 <= i < |ring| && IsCountInTotalLost(ring[i])
  }

  // ---------------------------------------------------------------- cardinalities

  ghost function Range(lo: int, hi: int): (s: set<int>)
    requires lo <= hi
    ensures |s| == hi - lo
    ensures forall z :: z in s <==> lo <= z < hi
    decreases hi - lo
  {
    if lo == hi then {} else Range(lo, hi - 1) + {hi - 1}
  }

  lemma {:induction false} SubsetSize(a: set<int>, b: set<int>)
    requires a <= b
    ensures |a| <= |b|
  {
    assert b == a + (b - a);
  }

  function Image(s: set<int>, f: int -> int): set<int>
  {
    set x | x in s :: f(x)
  }

  /** A map that is injective on a set keeps its size. */
  lemma {:induction false} ImageSize(s: set<int>, f: int -> int)
    requires forall x, y :: x in s && y in s && x != y ==> f(x) != f(y)
    ensures |Image(s, f)| == |s|
  {
    if s != {} {
      var e := PickOne(s);
      ImageSize(s - {e}, f);
      assert Image(s, f) == Image(s - {e}, f) + {f(e)};
    }
  }

  lemma PickOne<T>(s: set<T>) returns (e: T)
    requires s != {}
    ensures e in s
  {
    e :| e in s;
  }

  lemma CountBound(ring: seq<PacketInfo>)
    ensures |CountedSlots(ring)| <= |ring|
  {
    SubsetSize(CountedSlots(ring), Range(0, |ring|));
  }

  /** Overwriting one slot moves the count by at most that slot. */
  lemma CountAfterWrite(ring: seq<PacketInfo>, pos: nat, info: PacketInfo)
    requires pos < |ring|
    ensures |CountedSlots(ring[pos := info])|
         == |CountedSlots(ring)| - (if IsCountInTotalLost(ring[pos]) then 1 else 0)
          + (if IsCountInTotalLost(info) then 1 else 0)
  {
    var rest := CountedSlots(ring) - {pos};
    assert CountedSlots(ring) == if IsCountInTotalLost(ring[pos]) then rest + {pos} else rest;
    assert CountedSlots(ring[pos := info]) == if IsCountInTotalLost(info) then rest + {pos} else rest;
  }

  // ---------------------------------------------------------------- the two relations

  /** Every counted slot names its own outstanding number of the window. */
  ghost predicate SlotsSound(s: Window, first: nat, arrived: set<nat>)
  {
    && s.totalLost == |CountedSlots(s.ring)|
    && forall i :: 0 <= i < SIZE && IsCountInTotalLost(s.ring[i]) ==>
         var z := s.ring[i].extSeq;
         z % SIZE == i && Oldest(first, s.nextSeq) <= z < s.nextSeq && z !in arrived
  }

  /** Every number of the window sits in its slot, flagged received exactly if it arrived. */
  ghost predicate SlotsExact(s: Window, first: nat, arrived: set<nat>)
  {
    forall z :: Oldest(first, s.nextSeq) <= z < s.nextSeq ==>
      s.ring[z % SIZE].extSeq == z && (s.ring[z % SIZE].createdAtTime > 0 <==> z in arrived)
  }

  /** The shape of a reachable epoch: it starts and ends with an arrival, and no
      255 consecutive numbers of it are all missing. */
  ghost predicate WellFormed(h: History)
  {
    h.Epoch? ==>
      && h.first < h.next < TWO32
      && h.first in h.arrived && h.next - 1 in h.arrived
      && (forall z :: z in h.arrived ==> z < h.next)
      && (forall a {:trigger Hit(h.arrived, a)} :: h.first <= a && a + 255 <= h.next ==> Hit(h.arrived, a))
  }

  ghost predicate Hit(arrived: set<nat>, a: int)
  {
    exists y :: y in arrived && a <= y < a + 255
  }

  ghost predicate Sound(s: Window, h: History)
  {
    && WellFormed(h)
    && (h.Fresh? ==> s == Initial())
    && (h.Epoch? ==> s.nextSeq == h.next && SlotsSound(s, h.first, h.arrived))
  }

  ghost predicate Exact(s: Window, h: History)
  {
    Sound(s, h) && (h.Epoch? ==> SlotsExact(s, h.first, h.arrived))
  }

  // ---------------------------------------------------------------- one store, one skipped number

  lemma StoreArrivalCount(s: Window, info: PacketInfo)
    requires info.extSeq >= 0 && !IsCountInTotalLost(info)
    requires s.totalLost == |CountedSlots(s.ring)|
    ensures Store(s, info).totalLost == |CountedSlots(Store(s, info).ring)|
  {
    CountAfterWrite(s.ring, info.extSeq % SIZE, info);
  }

  lemma SkipOneCount(s: Window, now: u64)
    requires s.totalLost == |CountedSlots(s.ring)| && s.nextSeq < TWO32 - 1
    ensures SkipOne(s, now).totalLost == |CountedSlots(SkipOne(s, now).ring)|
  {
    CountAfterWrite(s.ring, s.nextSeq % SIZE, Outstanding(s.nextSeq, now));
    CountBound(SkipOne(s, now).ring);
  }

  /** Two numbers in one residue class of the window are the same or a window apart. */
  lemma SameSlot(y: int, z: int)
    requires y % SIZE == z % SIZE && z < y < z + 2 * SIZE
    ensures y == z + SIZE
  {}

  lemma SkipOneSound(s: Window, now: u64, first: nat, arrived: set<nat>)
    requires SlotsSound(s, first, arrived) && first <= s.nextSeq < TWO32 - 1
    requires s.nextSeq !in arrived
    ensures SlotsSound(SkipOne(s, now), first, arrived)
  {
    SkipOneCount(s, now);
    var t := SkipOne(s, now);
    forall i | 0 <= i < SIZE && IsCountInTotalLost(t.ring[i])
      ensures var z := t.ring[i].extSeq;
              z % SIZE == i && Oldest(first, t.nextSeq) <= z < t.nextSeq && z !in arrived
    {
      if i != s.nextSeq % SIZE {
        assert IsCountInTotalLost(s.ring[i]);
      }
    }
  }

  lemma SkipOneExact(s: Window, now: u64, first: nat, arrived: set<nat>)
    requires SlotsExact(s, first, arrived) && first <= s.nextSeq < TWO32 - 1
    requires s.nextSeq !in arrived
    ensures SlotsExact(SkipOne(s, now), first, arrived)
  {
    var t := SkipOne(s, now);
    forall z | Oldest(first, t.nextSeq) <= z < t.nextSeq
      ensures t.ring[z % SIZE].extSeq == z && (t.ring[z % SIZE].createdAtTime > 0 <==> z in arrived)
    {
      if z < s.nextSeq && z % SIZE == s.nextSeq % SIZE {
        SameSlot(s.nextSeq, z);
        assert false;
      }
    }
  }

  lemma {:induction false} FillGapSound(s: Window, limit: u32, now: u64, first: nat, arrived: set<nat>)
    requires SlotsSound(s, first, arrived) && first <= s.nextSeq <= limit
    requires forall z :: z in arrived ==> z < s.nextSeq
    ensures SlotsSound(FillGap(s, limit, now), first, arrived)
    decreases limit - s.nextSeq
  {
    if s.nextSeq < limit {
      SkipOneSound(s, now, first, arrived);
      FillGapSound(SkipOne(s, now), limit, now, first, arrived);
    }
  }

  lemma {:induction false} FillGapExact(s: Window, limit: u32, now: u64, first: nat, arrived: set<nat>)
    requires SlotsExact(s, first, arrived) && first <= s.nextSeq <= limit
    requires forall z :: z in arrived ==> z < s.nextSeq
    ensures SlotsExact(FillGap(s, limit, now), first, arrived)
    decreases limit - s.nextSeq
  {
    if s.nextSeq < limit {
      SkipOneExact(s, now, first, arrived);
      FillGapExact(SkipOne(s, now), limit, now, first, arrived);
    }
  }

  // ---------------------------------------------------------------- one call

  /** What a packet must satisfy for its receive time to serve as the received
      flag and for nextSeq not to wrap to its empty value. */
  predicate Regular(p: Packet)
  {
    p.recvTimeMs > 0 && p.extSeq < TWO32 - 1
  }

  lemma ObserveWellFormed(h: History, x: nat)
    requires WellFormed(h) && x < TWO32 - 1
    ensures WellFormed(Observe(h, x))
  {
    var g := Observe(h, x);
    forall a | g.first <= a && a + 255 <= g.next
      ensures Hit(g.arrived, a)
    {
      if h.Fresh? || x >= h.next + 255 {
        assert false;
      } else if a + 255 <= h.next {
        assert Hit(h.arrived, a);
      } else if a < h.next {
        assert h.next - 1 in g.arrived;
      } else {
        assert x in g.arrived;
      }
    }
  }

  lemma FirstPacketSlots(p: Packet)
    requires Regular(p)
    ensures SlotsSound(Step(Initial(), p), p.extSeq, {p.extSeq})
    ensures SlotsExact(Step(Initial(), p), p.extSeq, {p.extSeq})
  {
    var t := Step(Initial(), p);
    assert t == State(Initial().ring[p.extSeq % SIZE := Arrival(p)], 0, p.extSeq + 1);
    forall i | 0 <= i < SIZE ensures !IsCountInTotalLost(t.ring[i]) {}
    assert CountedSlots(t.ring) == {};
  }

  lemma FirstPacketSound(p: Packet)
    requires Regular(p)
    ensures Exact(Step(Initial(), p), Epoch(p.extSeq, p.extSeq + 1, {p.extSeq}))
  {
    ObserveWellFormed(Fresh, p.extSeq);
    FirstPacketSlots(p);
    assert Step(Initial(), p).nextSeq == p.extSeq + 1;
  }

  lemma OldPacketSound(s: Window, h: History, p: Packet)
    requires Sound(s, h) && Regular(p) && h.Epoch? && p.extSeq < h.next
    ensures Sound(Step(s, p), Observe(h, p.extSeq))
  {
    ObserveWellFormed(h, p.extSeq);
    StoreArrivalCount(s, Arrival(p));
    var t := Step(s, p);
    forall i | 0 <= i < SIZE && IsCountInTotalLost(t.ring[i])
      ensures i != p.extSeq % SIZE && IsCountInTotalLost(s.ring[i]) && t.ring[i].extSeq != p.extSeq
    {}
  }

  lemma FuturePacketSlots(g: Window, p: Packet, first: nat, arrived: set<nat>)
    requires Regular(p) && SlotsSound(g, first, arrived) && g.nextSeq == p.extSeq
    ensures SlotsSound(Store(g, Arrival(p)).(nextSeq := p.extSeq + 1), first, arrived + {p.extSeq})
  {
    hide Store, Oldest;
    StoreArrivalCount(g, Arrival(p));
    var t := Store(g, Arrival(p));
    StoredSlots(g, p);
    OldestGrows(first, p.extSeq);
    forall i | 0 <= i < SIZE && IsCountInTotalLost(t.ring[i])
      ensures t.ring[i] == g.ring[i] && t.ring[i].extSeq < p.extSeq
      ensures i != g.nextSeq % SIZE && Oldest(first, p.extSeq + 1) <= t.ring[i].extSeq
    {
      assert Oldest(first, p.extSeq) <= g.ring[i].extSeq;
    }
  }

  lemma StoredSlots(g: Window, p: Packet)
    ensures Store(g, Arrival(p)).ring == g.ring[p.extSeq % SIZE := Arrival(p)]
  {}

  /** The window gives up at most the number in the slot that comes next. */
  lemma OldestGrows(first: nat, next: nat)
    ensures forall z :: Oldest(first, next) <= z < next && z % SIZE != next % SIZE ==> Oldest(first, next + 1) <= z
  {}

  lemma FuturePacketSound(s: Window, h: History, p: Packet)
    requires Sound(s, h) && Regular(p) && h.Epoch? && h.next <= p.extSeq < h.next + 255
    ensures Sound(Step(s, p), Observe(h, p.extSeq))
  {
    hide SlotsSound, WellFormed, FillGap, Store;
    var g := FillGap(s, p.extSeq, p.recvTimeMs);
    ArrivedInEpoch(h);
    FillGapSound(s, p.extSeq, p.recvTimeMs, h.first, h.arrived);
    FuturePacketSlots(g, p, h.first, h.arrived);
    ObserveWellFormed(h, p.extSeq);
  }

  lemma ArrivedInEpoch(h: History)
    requires WellFormed(h) && h.Epoch?
    ensures h.first < h.next < TWO32 && forall z :: z in h.arrived ==> z < h.next
  {}

  /** However late a regular packet arrives, the counted slots stay sound. */
  lemma StepSound(s: Window, h: History, p: Packet)
    requires Sound(s, h) && Regular(p)
    ensures Sound(Step(s, p), Observe(h, p.extSeq))
  {
    if h.Fresh? || p.extSeq >= h.next + 255 {
      assert Step(s, p) == Step(Initial(), p);
      FirstPacketSound(p);
    } else if p.extSeq < h.next {
      OldPacketSound(s, h, p);
    } else {
      FuturePacketSound(s, h, p);
    }
  }

  /** The packet does not land on the slot of another number of the window. */
  ghost predicate OwnSlot(h: History, x: nat)
  {
    forall z :: InWindow(Observe(h, x), z) && z % SIZE == x % SIZE ==> z == x
  }

  lemma StepExact(s: Window, h: History, p: Packet)
    requires Exact(s, h) && Regular(p) && OwnSlot(h, p.extSeq)
    ensures Exact(Step(s, p), Observe(h, p.extSeq))
  {
    StepSound(s, h, p);
    if h.Fresh? || p.extSeq >= h.next + 255 {
      assert Step(s, p) == Step(Initial(), p);
      FirstPacketSound(p);
    } else {
      var t, g := Step(s, p), Observe(h, p.extSeq);
      if h.next <= p.extSeq {
        FillGapExact(s, p.extSeq, p.recvTimeMs, h.first, h.arrived);
      }
      forall z | InWindow(g, z)
        ensures t.ring[z % SIZE].extSeq == z && (t.ring[z % SIZE].createdAtTime > 0 <==> z in g.arrived)
      {
        if z % SIZE != p.extSeq % SIZE {
          assert z != p.extSeq;
        }
      }
    }
  }
}
