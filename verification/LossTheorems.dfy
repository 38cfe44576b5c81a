/** The main results about the loss window: over every run of packets. */
module LossTheorems {
  import opened Bytes
  import opened LossWindow
  import opened LossHistory

  // ---------------------------------------------------------------- counter and missing set

  /** The counter never exceeds the number of missing packets of the window. */
  lemma CountIsSound(s: Window, h: History)
    requires Sound(s, h)
    ensures s.totalLost <= |Missing(h)|
  {
    if h.Fresh? {
      assert CountedSlots(s.ring) == {};
    } else {
      var slots := CountedSlots(s.ring);
      var f := i => if 0 <= i < SIZE then s.ring[i].extSeq else 0;
      assert forall i :: i in slots ==> f(i) in Missing(h) && f(i) % SIZE == i;
      ImageSize(slots, f);
      SubsetSize(Image(slots, f), Missing(h));
    }
  }

  /** When every number sits in its slot, the counter is the number of missing packets. */
  lemma CountIsExact(s: Window, h: History)
    requires Exact(s, h)
    ensures s.totalLost == |Missing(h)|
  {
    CountIsSound(s, h);
    if h.Epoch? {
      var f := (z: int) => z % SIZE;
      forall x, y | x in Missing(h) && y in Missing(h) && x != y
        ensures f(x) != f(y)
      {
        DistinctSlots(h, x, y);
      }
      ImageSize(Missing(h), f);
      forall z | z in Missing(h) ensures f(z) in CountedSlots(s.ring) {
        assert InWindow(h, z);
        assert s.ring[z % SIZE].extSeq == z;
      }
      SubsetSize(Image(Missing(h), f), CountedSlots(s.ring));
    }
  }

  /** Two numbers of the window never share a slot. */
  lemma DistinctSlots(h: History, x: int, y: int)
    requires InWindow(h, x) && InWindow(h, y) && x != y
    ensures x % SIZE != y % SIZE
  {
    if x % SIZE == y % SIZE {
      if x < y { SameSlot(y, x); } else { SameSlot(x, y); }
    }
  }

  /** A window of a reachable epoch holds at least two arrivals, or one if it is one number wide. */
  lemma MissingBound(h: History)
    requires WellFormed(h)
    ensures |Missing(h)| <= 254
  {
    if h.Epoch? {
      var lo := Oldest(h.first, h.next);
      var all := Range(lo, h.next);
      if lo == h.next - 1 {
        assert Missing(h) <= all - {h.next - 1};
        SubsetSize(Missing(h), all - {h.next - 1});
      } else {
        var y: int := EarlierArrival(h, lo);
        assert y in all && h.next - 1 in all && y != h.next - 1;
        var two := {y, h.next - 1};
        assert Missing(h) <= all - two;
        SubsetSize(Missing(h), all - two);
        assert |all - two| == |all| - 2;
      }
    }
  }

  lemma EarlierArrival(h: History, lo: int) returns (y: nat)
    requires WellFormed(h) && h.Epoch? && lo == Oldest(h.first, h.next) < h.next - 1
    ensures y in h.arrived && lo <= y < h.next - 1
  {
    if lo == h.first {
      y := h.first;
    } else {
      assert Hit(h.arrived, lo);
      y :| y in h.arrived && lo <= y < lo + 255;
    }
  }

  function LostSlots(ring: seq<PacketInfo>, now: u64, rtt: u32): set<int>
  {
    set i: int | 0 <= i < |ring| && IsLost(ring[i], now, rtt)
  }

  /** Slots due for retransmission are counted slots. */
  lemma LostSlotsAreCounted(s: Window, now: u64, rtt: u32)
    requires s.totalLost == |CountedSlots(s.ring)|
    ensures |LostSlots(s.ring, now, rtt)| <= s.totalLost
  {
    SubsetSize(LostSlots(s.ring, now, rtt), CountedSlots(s.ring));
  }

  // ---------------------------------------------------------------- when a call keeps the refinement

  /** The newest number below `next` that shares the slot of x. */
  function SlotOwner(next: nat, x: nat): (z: int)
    ensures next - SIZE <= z < next && z % SIZE == x % SIZE
  {
    next - 1 - (next - 1 - x) % SIZE
  }

  /** A caller can tell beforehand: the packet is at most 256 behind, or its slot
      belongs to no number of the epoch. */
  predicate LandsSafely(h: History, x: nat)
  {
    h.Fresh? || x + SIZE >= h.next || SlotOwner(h.next, x) < h.first
  }

  lemma LandsSafelyIsOwnSlot(h: History, x: nat)
    requires WellFormed(h)
    ensures LandsSafely(h, x) <==> OwnSlot(h, x)
  {
    var g := Observe(h, x);
    if LandsSafely(h, x) {
      forall z | InWindow(g, z) && z % SIZE == x % SIZE ensures z == x {
        if h.Epoch? && x + SIZE < h.next {
          var o := SlotOwner(h.next, x);
          if z != o {
            if z < o { SameSlot(o, z); } else { SameSlot(z, o); }
          }
        } else if z < x {
          SameSlot(x, z);
        } else if z > x {
          SameSlot(z, x);
        }
      }
    } else {
      assert InWindow(g, SlotOwner(h.next, x));
    }
  }

  /** One call keeps the sound refinement if and only if the packet is regular. */
  lemma StepSoundIff(s: Window, h: History, p: Packet)
    requires Sound(s, h)
    ensures Sound(Step(s, p), Observe(h, p.extSeq)) <==> Regular(p)
  {
    if Regular(p) {
      StepSound(s, h, p);
    } else if p.extSeq == TWO32 - 1 {
      assert Observe(h, p.extSeq).next == TWO32;
    } else {
      UntimedPacketBreaks(s, h, p);
    }
  }

  /** A packet with receive time 0 is stored as one that did not arrive. */
  lemma UntimedPacketBreaks(s: Window, h: History, p: Packet)
    requires Sound(s, h) && p.recvTimeMs == 0
    ensures !Sound(Step(s, p), Observe(h, p.extSeq))
  {
    var slot := Step(s, p).ring[p.extSeq % SIZE];
    assert slot == Arrival(p) && IsCountInTotalLost(slot);
    assert p.extSeq in Observe(h, p.extSeq).arrived;
  }

  /** One call keeps the exact refinement if and only if the packet is regular
      and lands safely. */
  lemma StepExactIff(s: Window, h: History, p: Packet)
    requires Exact(s, h)
    ensures Exact(Step(s, p), Observe(h, p.extSeq)) <==> Regular(p) && LandsSafely(h, p.extSeq)
  {
    LandsSafelyIsOwnSlot(h, p.extSeq);
    StepSoundIff(s, h, p);
    if Regular(p) && LandsSafely(h, p.extSeq) {
      StepExact(s, h, p);
    } else if Regular(p) {
      var z := SlotOwner(h.next, p.extSeq);
      assert Step(s, p).ring[z % SIZE].extSeq == p.extSeq != z;
      assert InWindow(Observe(h, p.extSeq), z);
    }
  }

  /** After one call with a regular packet on an exact window the counter is the
      number of missing packets if and only if the packet lands safely or takes
      over the slot of a number that arrived. */
  lemma StepCountIff(s: Window, h: History, p: Packet)
    requires Exact(s, h) && Regular(p)
    ensures Step(s, p).totalLost == |Missing(Observe(h, p.extSeq))|
       <==> LandsSafely(h, p.extSeq) || SlotOwner(h.next, p.extSeq) in h.arrived
  {
    var t, g := Step(s, p), Observe(h, p.extSeq);
    if LandsSafely(h, p.extSeq) {
      StepExactIff(s, h, p);
      CountIsExact(t, g);
    } else {
      TakenOver(s, h, p, SlotOwner(h.next, p.extSeq));
    }
  }

  /** A stale packet in the slot of z takes z off the counter but not off the
      missing numbers. */
  lemma TakenOver(s: Window, h: History, p: Packet, z: int)
    requires Exact(s, h) && Regular(p) && h.Epoch? && p.extSeq + SIZE < h.next
    requires InWindow(h, z) && z % SIZE == p.extSeq % SIZE
    ensures |Missing(Observe(h, p.extSeq))| == |Missing(h)|
    ensures Step(s, p).totalLost == |Missing(h)| - if z in h.arrived then 0 else 1
  {
    CountIsExact(s, h);
    SameMissing(h, p.extSeq);
    StoreArrivalCount(s, Arrival(p));
    CountAfterWrite(s.ring, p.extSeq % SIZE, Arrival(p));
    assert s.ring[z % SIZE].extSeq == z;
  }

  lemma SameMissing(h: History, x: nat)
    requires h.Epoch? && x + SIZE < h.next
    ensures Missing(Observe(h, x)) == Missing(h)
  {}

  // ---------------------------------------------------------------- every run

  ghost predicate RegularRun(ps: seq<Packet>)
  {
    forall i :: 0 <= i < |ps| ==> Regular(ps[i])
  }

  ghost predicate SafeRun(ps: seq<Packet>)
  {
    forall i :: 0 <= i < |ps| ==> LandsSafely(Observed(ps[..i]), ps[i].extSeq)
  }

  lemma {:induction false} RunSound(ps: seq<Packet>)
    requires RegularRun(ps)
    ensures Sound(Run(ps), Observed(ps))
  {
    if ps != [] {
      var qs := ps[..|ps| - 1];
      RunSound(qs);
      StepSound(Run(qs), Observed(qs), ps[|ps| - 1]);
    }
  }

  lemma {:induction false} RunExact(ps: seq<Packet>)
    requires RegularRun(ps) && SafeRun(ps)
    ensures Exact(Run(ps), Observed(ps))
  {
    if ps != [] {
      var qs := ps[..|ps| - 1];
      assert forall i :: 0 <= i < |qs| ==> qs[..i] == ps[..i];
      RunExact(qs);
      StepExactIff(Run(qs), Observed(qs), ps[|ps| - 1]);
    }
  }

  /** Soundness on all runs of regular packets, as old and as often repeated as one likes. */
  lemma LossSoundOnAllRuns(ps: seq<Packet>, now: u64, rtt: u32)
    requires RegularRun(ps)
    ensures var s, h := Run(ps), Observed(ps);
            && s.totalLost == |CountedSlots(s.ring)| <= |Missing(h)|
            && (forall i :: i in CountedSlots(s.ring) ==>
                  s.totalLost > 0 && s.ring[i].extSeq in Missing(h) && s.ring[i].extSeq % SIZE == i)
            && |LostSlots(s.ring, now, rtt)| <= s.totalLost
  {
    RunSound(ps);
    CountIsSound(Run(ps), Observed(ps));
    if ps == [] {
      assert CountedSlots(Run(ps).ring) == {};
    } else {
      assert Observed(ps).Epoch?;
    }
    LostSlotsAreCounted(Run(ps), now, rtt);
  }

  /** No run of regular packets takes the counter above 254, so the assertion at the end of AddPacket holds. */
  lemma LostAtMost254(ps: seq<Packet>)
    requires RegularRun(ps)
    ensures Run(ps).totalLost <= 254
  {
    RunSound(ps);
    CountIsSound(Run(ps), Observed(ps));
    MissingBound(Observed(ps));
  }

  /** Exactness on safe runs: the counter is the number of missing packets, and
      every number of the window sits in its slot with the right flag. */
  lemma LossExactOnSafeRuns(ps: seq<Packet>)
    requires RegularRun(ps) && SafeRun(ps)
    ensures var s, h := Run(ps), Observed(ps);
            && s.totalLost == |Missing(h)|
            && (forall z :: InWindow(h, z) ==>
                  s.ring[z % SIZE].extSeq == z && (s.ring[z % SIZE].createdAtTime > 0 <==> z in h.arrived))
  {
    RunExact(ps);
    CountIsExact(Run(ps), Observed(ps));
  }

  // ---------------------------------------------------------------- order independence

  function Numbers(ps: seq<Packet>): set<nat>
  {
    set p | p in ps :: p.extSeq as nat
  }

  /** No packet after the first is far enough ahead to start a new epoch. */
  ghost predicate OneEpoch(ps: seq<Packet>)
  {
    |ps| > 0 && forall i :: 0 < i < |ps| ==>
      Observed(ps[..i]).Epoch? && ps[i].extSeq < Observed(ps[..i]).next + 255
  }

  lemma NumbersSnoc(qs: seq<Packet>, p: Packet)
    ensures Numbers(qs + [p]) == Numbers(qs) + {p.extSeq as nat}
  {
    assert (qs + [p])[|qs|] == p;
    forall q | q in qs ensures q in qs + [p] {}
  }

  lemma NothingObserved()
    ensures Observed([]) == Fresh && Numbers([]) == {}
  {}

  lemma OneEpochPrefix(ps: seq<Packet>)
    requires OneEpoch(ps) && |ps| > 1
    ensures OneEpoch(ps[..|ps| - 1])
  {
    var qs := ps[..|ps| - 1];
    assert forall i :: 0 <= i < |qs| ==> qs[..i] == ps[..i];
  }

  lemma OneEpochStep(h: History, x: nat, numbers: set<nat>)
    requires h.Epoch? && h.arrived == numbers && x < h.next + 255 && EndsWithArrival(h)
    ensures var g := Observe(h, x);
            && g.Epoch? && g.first == h.first && g.arrived == numbers + {x}
            && EndsWithArrival(g)
  {}

  /** The next expected number is one more than the largest arrival. */
  ghost predicate EndsWithArrival(h: History)
  {
    h.Epoch? && h.next - 1 in h.arrived && forall x :: x in h.arrived ==> x < h.next
  }

  lemma {:induction false} OneEpochHistory(ps: seq<Packet>)
    requires OneEpoch(ps)
    ensures var h := Observed(ps);
            && h.Epoch? && h.first == ps[0].extSeq && h.arrived == Numbers(ps)
            && EndsWithArrival(h)
  {
    var qs, p := ps[..|ps| - 1], ps[|ps| - 1];
    assert Numbers(ps) == Numbers(qs) + {p.extSeq as nat} by {
      NumbersSnoc(qs, p);
      assert ps == qs + [p];
    }
    assert Observed(ps) == Observe(Observed(qs), p.extSeq);
    hide Observed, Numbers;
    if |ps| == 1 {
      NothingObserved();
    } else {
      OneEpochPrefix(ps);
      OneEpochHistory(qs);
      OneEpochStep(Observed(qs), p.extSeq, Numbers(qs));
    }
  }

  /** Two safe runs of one epoch that start alike and deliver the same numbers,
      in any order and with any repetitions, agree on everything but times. */
  lemma OrderIndependent(ps: seq<Packet>, qs: seq<Packet>)
    requires RegularRun(ps) && SafeRun(ps) && OneEpoch(ps)
    requires RegularRun(qs) && SafeRun(qs) && OneEpoch(qs)
    requires ps[0].extSeq == qs[0].extSeq && Numbers(ps) == Numbers(qs)
    ensures Run(ps).nextSeq == Run(qs).nextSeq && Run(ps).totalLost == Run(qs).totalLost
    ensures forall z :: InWindow(Observed(ps), z) ==>
              (Run(ps).ring[z % SIZE].createdAtTime > 0 <==> Run(qs).ring[z % SIZE].createdAtTime > 0)
  {
    OneEpochHistory(ps);
    OneEpochHistory(qs);
    assert Observed(ps) == Observed(qs);
    LossExactOnSafeRuns(ps);
    LossExactOnSafeRuns(qs);
    RunExact(ps);
    RunExact(qs);
  }

  // ---------------------------------------------------------------- witnesses

  /** The bound 254 is attained by a packet and the one 255 after it. */
  lemma BoundAttained(a: Packet, b: Packet)
    requires Regular(a) && Regular(b) && b.extSeq == a.extSeq + 255
    ensures Run([a, b]).totalLost == 254
  {
    SafeRunOfTwo(a, b);
    var h := Observed([a, b]);
    assert Run([a, b]).totalLost == |Missing(h)| by { LossExactOnSafeRuns([a, b]); }
    MissingBetween(h, a.extSeq);
  }

  lemma MissingBetween(h: History, x: nat)
    requires h == Epoch(x, x + 256, {x, x + 255})
    ensures |Missing(h)| == 254
  {
    var missing := Range(x + 1, x + 255);
    assert Oldest(h.first, h.next) == x;
    assert forall z :: z in Missing(h) <==> z in missing;
    assert Missing(h) == missing;
  }

  /** A first packet and one at most 254 beyond it. */
  lemma SafeRunOfTwo(a: Packet, b: Packet)
    requires a.extSeq < b.extSeq <= a.extSeq + 255
    ensures Observed([a, b]) == Epoch(a.extSeq, b.extSeq + 1, {a.extSeq as nat, b.extSeq as nat})
    ensures SafeRun([a, b])
  {
    RunOfTwo(a, b);
    assert [a, b][..0] == [] && [a, b][..1] == [a];
  }

  lemma RunOfTwo(a: Packet, b: Packet)
    ensures Run([a, b]) == Step(Run([a]), b) && Run([a]) == Step(Initial(), a)
    ensures Observed([a, b]) == Observe(Observed([a]), b.extSeq) && Observed([a]) == Observe(Fresh, a.extSeq)
  {
    assert [a, b][..1] == [a];
    assert [a][..0] == [];
  }

  /** A packet with receive time 0 counts as outstanding without having been
      counted; when it is repeated the counter goes below zero. */
  lemma UntimedPacketUnderflows(a: Packet)
    requires a.recvTimeMs == 0 && a.extSeq < TWO32 - 1
    ensures Run([a, a]).totalLost == 65535
  {
    RunOfTwo(a, a);
    var s := Step(Initial(), a);
    assert s == State(Initial().ring[a.extSeq % SIZE := Arrival(a)], 0, a.extSeq + 1);
    assert IsCountInTotalLost(s.ring[a.extSeq % SIZE]);
    assert Step(s, a) == Store(s, Arrival(a));
  }

  /** A packet more than 256 behind can hide a loss: number x + 1 is skipped, and
      the late packet x - 255 takes over its slot. */
  lemma StalePacketHidesLoss(a: Packet, b: Packet, c: Packet)
    requires Regular(a) && Regular(b) && Regular(c)
    requires a.extSeq >= 255 && b.extSeq == a.extSeq + 2 && c.extSeq == a.extSeq - 255
    ensures Run([a, b, c]).totalLost == 0
    ensures Missing(Observed([a, b, c])) == {a.extSeq + 1}
  {
    hide Run, Observed, Missing, SafeRun;
    var z: int := a.extSeq + 1;
    SafeRunOfTwo(a, b);
    RunExact([a, b]);
    RunOfThree(a, b, c);
    var s, h := Run([a, b]), Observed([a, b]);
    OneMissing(h, a.extSeq);
    SameResidue(c.extSeq);
    TakenOver(s, h, c, z);
    SameMissing(h, c.extSeq);
  }

  lemma OneMissing(h: History, x: nat)
    requires h == Epoch(x, x + 3, {x, x + 2})
    ensures Missing(h) == {x + 1 as int}
  {}

  lemma RunOfThree(a: Packet, b: Packet, c: Packet)
    ensures Run([a, b, c]) == Step(Run([a, b]), c)
    ensures Observed([a, b, c]) == Observe(Observed([a, b]), c.extSeq)
  {
    assert [a, b, c][..2] == [a, b];
  }

  /** The hidden loss is never due, whatever the clock shows. */
  lemma HiddenLossNeverDue(a: Packet, b: Packet, c: Packet, now: u64, rtt: u32)
    requires Regular(a) && Regular(b) && Regular(c)
    requires a.extSeq >= 255 && b.extSeq == a.extSeq + 2 && c.extSeq == a.extSeq - 255
    ensures a.extSeq + 1 in Missing(Observed([a, b, c])) && LostSlots(Run([a, b, c]).ring, now, rtt) == {}
  {
    hide Run, Observed, LostSlots;
    StalePacketHidesLoss(a, b, c);
    LossSoundOnAllRuns([a, b, c], now, rtt);
    assert RegularRun([a, b, c]);
  }

  /** The number 2^32 - 1 sets the next number to its empty value without
      clearing the ring: the packet after it takes over a counted slot and the
      counter keeps a loss that no slot holds. */
  lemma LastNumberLeavesLoss(a: Packet, b: Packet, c: Packet)
    requires Regular(a) && b.recvTimeMs > 0 && Regular(c)
    requires a.extSeq == TWO32 - 3 && b.extSeq == TWO32 - 1 && c.extSeq == 254
    ensures Run([a, b, c]).totalLost == 1 && CountedSlots(Run([a, b, c]).ring) == {}
  {
    assert [a, b, c][..2] == [a, b];
    RunOfTwo(a, b);
    var ring0 := Initial().ring;
    var s1 := State(ring0[253 := Arrival(a)], 0, TWO32 - 2);
    assert Step(Initial(), a) == s1;
    var s2 := State(s1.ring[254 := Outstanding(TWO32 - 2, b.recvTimeMs)], 1, TWO32 - 1);
    assert SkipOne(s1, b.recvTimeMs) == s2;
    assert FillGap(s1, TWO32 - 1, b.recvTimeMs) == s2;
    var s3 := State(s2.ring[255 := Arrival(b)], 1, 0);
    assert Step(s1, b) == s3;
    assert Step(s3, c) == State(s3.ring[254 := Arrival(c)], 1, 255);
  }

  lemma SameResidue(y: int)
    ensures (y + SIZE) % SIZE == y % SIZE
  {}
}
