/** The times in the slots: a loss carries the receive time of the one packet of
    the epoch that revealed it, an arrival that of the last packet with its
    number, and from these follows when a number is due for retransmission. */
module LossTimes {
  import opened Bytes
  import opened LossHistory
  import opened LossTheorems
  import opened LossWindow

  // ---------------------------------------------------------------- which packet

  /** No packet from the k-th on starts a new epoch. */
  ghost predicate SameEpochFrom(ps: seq<Packet>, k: nat)
  {
    forall j :: k <= j < |ps| ==>
      Observed(ps[..j]).Epoch? && ps[j].extSeq < Observed(ps[..j]).next + 255
  }

  /** The k-th packet moves the next number of the current epoch past z. */
  ghost predicate Reveals(ps: seq<Packet>, k: nat, z: int)
  {
    k < |ps| && SameEpochFrom(ps, k) && Observed(ps[..k]).next <= z < ps[k].extSeq
  }

  /** The k-th packet is the last one with number z, and of the current epoch. */
  ghost predicate LastArrival(ps: seq<Packet>, k: nat, z: int)
  {
    && k < |ps| && ps[k].extSeq == z && SameEpochFrom(ps, k + 1)
    && forall j :: k < j < |ps| ==> ps[j].extSeq != z
  }

  lemma NextAfter(ps: seq<Packet>, k: nat)
    requires k < |ps|
    ensures Observed(ps[..k + 1]) == Observe(Observed(ps[..k]), ps[k].extSeq)
  {
    assert ps[..k + 1][..k] == ps[..k];
  }

  /** Within an epoch the next number never goes back. */
  lemma {:induction false} NextGrows(ps: seq<Packet>, k: nat, l: nat)
    requires k < l <= |ps| && SameEpochFrom(ps, k)
    ensures Observed(ps[..l]).Epoch? && Observed(ps[..l]).next > ps[k].extSeq
    decreases l
  {
    NextAfter(ps, l - 1);
    if k < l - 1 {
      NextGrows(ps, k, l - 1);
    }
  }

  /** At most one packet reveals a number. */
  lemma RevealsOnce(ps: seq<Packet>, k: nat, l: nat, z: int)
    requires Reveals(ps, k, z) && Reveals(ps, l, z)
    ensures k == l
  {
    if k < l {
      NextGrows(ps, k, l);
    } else if l < k {
      NextGrows(ps, l, k);
    }
  }

  // ---------------------------------------------------------------- what the slots carry

  ghost predicate LossAt(ps: seq<Packet>, z: int, time: u64)
  {
    exists k: nat :: Reveals(ps, k, z) && ps[k].recvTimeMs == time
  }

  ghost predicate ArrivedAt(ps: seq<Packet>, z: int, time: u64)
  {
    exists k: nat :: LastArrival(ps, k, z) && ps[k].recvTimeMs == time
  }

  /** Every slot in use tells when its number was lost or last arrived; no number
      has been requested yet. */
  ghost predicate Timed(ps: seq<Packet>, slot: PacketInfo)
  {
    slot.extSeq != -1 ==>
      && slot.sentAtTime == 0 && slot.retry == 0
      && (slot.createdAtTime == 0 ==> LossAt(ps, slot.extSeq, slot.lossAtTime))
      && (slot.createdAtTime != 0 ==> ArrivedAt(ps, slot.extSeq, slot.createdAtTime))
  }

  ghost predicate AllTimed(ps: seq<Packet>, ring: seq<PacketInfo>)
  {
    forall i :: 0 <= i < |ring| ==> Timed(ps, ring[i])
  }

  lemma PrefixEpochs(ps: seq<Packet>, p: Packet, k: nat)
    requires SameEpochFrom(ps, k) && k <= |ps|
    requires Observed(ps).Epoch? && p.extSeq < Observed(ps).next + 255
    ensures SameEpochFrom(ps + [p], k)
  {
    var qs := ps + [p];
    forall j | k <= j < |qs|
      ensures Observed(qs[..j]).Epoch? && qs[j].extSeq < Observed(qs[..j]).next + 255
    {
      assert qs[..j] == if j < |ps| then ps[..j] else ps;
    }
  }

  /** A packet of the same epoch with another number leaves a slot's times valid. */
  lemma StaysTimed(ps: seq<Packet>, p: Packet, slot: PacketInfo)
    requires Timed(ps, slot) && slot.extSeq != p.extSeq
    requires Observed(ps).Epoch? && p.extSeq < Observed(ps).next + 255
    ensures Timed(ps + [p], slot)
  {
    if slot.extSeq != -1 {
      if slot.createdAtTime == 0 {
        var k: nat :| Reveals(ps, k, slot.extSeq) && ps[k].recvTimeMs == slot.lossAtTime;
        PrefixEpochs(ps, p, k);
        assert (ps + [p])[..k] == ps[..k];
        assert Reveals(ps + [p], k, slot.extSeq);
      } else {
        var k: nat :| LastArrival(ps, k, slot.extSeq) && ps[k].recvTimeMs == slot.createdAtTime;
        PrefixEpochs(ps, p, k + 1);
        assert LastArrival(ps + [p], k, slot.extSeq);
      }
    }
  }

  lemma ArrivalTimed(ps: seq<Packet>, p: Packet)
    requires Regular(p)
    ensures Timed(ps + [p], Arrival(p))
  {
    assert LastArrival(ps + [p], |ps|, p.extSeq);
  }

  /** A number that the packet skips is lost from its receive time on. */
  lemma SkippedTimed(ps: seq<Packet>, p: Packet, z: u32)
    requires Observed(ps).Epoch? && Observed(ps).next <= z < p.extSeq < Observed(ps).next + 255
    ensures Timed(ps + [p], Outstanding(z, p.recvTimeMs))
  {
    var qs := ps + [p];
    assert qs[..|ps|] == ps;
    assert Reveals(qs, |ps|, z);
  }

  lemma {:induction false} FillGapTimed(ps: seq<Packet>, p: Packet, s: Window)
    requires Observed(ps).Epoch? && Observed(ps).next <= s.nextSeq <= p.extSeq < Observed(ps).next + 255
    requires AllTimed(ps + [p], s.ring)
    ensures AllTimed(ps + [p], FillGap(s, p.extSeq, p.recvTimeMs).ring)
    decreases p.extSeq - s.nextSeq
  {
    hide Timed;
    if s.nextSeq < p.extSeq {
      SkippedTimed(ps, p, s.nextSeq);
      FillGapTimed(ps, p, SkipOne(s, p.recvTimeMs));
    }
  }

  /** A slot that holds the packet's own number is the slot that it overwrites. */
  ghost predicate OwnPlaces(ring: seq<PacketInfo>)
  {
    |ring| == SIZE && forall i :: 0 <= i < SIZE && ring[i].extSeq != -1 ==> ring[i].extSeq % SIZE == i
  }

  lemma {:induction false} FillGapPlaces(s: Window, limit: u32, now: u64)
    requires OwnPlaces(s.ring) && s.nextSeq <= limit
    ensures OwnPlaces(FillGap(s, limit, now).ring)
    decreases limit - s.nextSeq
  {
    if s.nextSeq < limit {
      FillGapPlaces(SkipOne(s, now), limit, now);
    }
  }

  lemma StepPlaces(s: Window, p: Packet)
    requires OwnPlaces(s.ring)
    ensures OwnPlaces(Step(s, p).ring)
  {
    var s0: Window := if Resets(s, p) then Initial() else s;
    if s0.nextSeq != 0 && s0.nextSeq <= p.extSeq {
      FillGapPlaces(s0, p.extSeq, p.recvTimeMs);
    }
  }

  /** Storing the packet: its own slot is its arrival, the others stay timed. */
  lemma StoredTimed(ps: seq<Packet>, p: Packet, before: seq<PacketInfo>, after: seq<PacketInfo>)
    requires Regular(p) && |before| == SIZE && after == before[p.extSeq % SIZE := Arrival(p)]
    requires forall i :: 0 <= i < SIZE && i != p.extSeq % SIZE ==> Timed(ps + [p], before[i])
    ensures AllTimed(ps + [p], after)
  {
    hide Timed;
    ArrivalTimed(ps, p);
  }

  lemma StepTimed(ps: seq<Packet>, p: Packet, s: Window)
    requires Regular(p) && Sound(s, Observed(ps)) && OwnPlaces(s.ring) && AllTimed(ps, s.ring)
    ensures AllTimed(ps + [p], Step(s, p).ring)
  {
    hide Timed, Observed, FillGap, Store;
    var h, own := Observed(ps), p.extSeq % SIZE;
    StepRing(s, h, p);
    if h.Fresh? || p.extSeq >= h.next + 255 {
      forall i | 0 <= i < SIZE ensures Timed(ps + [p], Initial().ring[i]) { EmptyTimed(ps + [p]); }
      StoredTimed(ps, p, Initial().ring, Step(s, p).ring);
    } else {
      var s1: Window := s.(ring := s.ring[own := EMPTY]);
      forall i | 0 <= i < SIZE ensures Timed(ps + [p], s1.ring[i]) {
        if i == own {
          EmptyTimed(ps + [p]);
        } else {
          StaysTimed(ps, p, s.ring[i]);
        }
      }
      if h.next <= p.extSeq {
        FillGapTimed(ps, p, s1);
        FillGapElsewhere(s, s1, p.extSeq, p.recvTimeMs, own);
        StoredTimed(ps, p, FillGap(s, p.extSeq, p.recvTimeMs).ring, Step(s, p).ring);
      } else {
        StoredTimed(ps, p, s1.ring, Step(s, p).ring);
      }
    }
  }

  lemma EmptyTimed(ps: seq<Packet>)
    ensures Timed(ps, EMPTY)
  {}

  /** What one call leaves in the ring, by case. */
  lemma StepRing(s: Window, h: History, p: Packet)
    requires Sound(s, h)
    ensures Step(s, p).ring ==
            var before := if h.Fresh? || p.extSeq >= h.next + 255 then Initial().ring
                          else if h.next <= p.extSeq then FillGap(s, p.extSeq, p.recvTimeMs).ring else s.ring;
            before[p.extSeq % SIZE := Arrival(p)]
    ensures h.Epoch? ==> s.nextSeq == h.next
  {
    hide FillGap;
  }

  /** Filling the gap treats every slot but one alike if only that one differs. */
  lemma {:induction false} FillGapElsewhere(s: Window, t: Window, limit: u32, now: u64, own: nat)
    requires s.nextSeq == t.nextSeq <= limit && own < SIZE
    requires forall i :: 0 <= i < SIZE && i != own ==> s.ring[i] == t.ring[i]
    ensures forall i :: 0 <= i < SIZE && i != own ==> FillGap(s, limit, now).ring[i] == FillGap(t, limit, now).ring[i]
    decreases limit - s.nextSeq
  {
    if s.nextSeq < limit {
      FillGapElsewhere(SkipOne(s, now), SkipOne(t, now), limit, now, own);
    }
  }

  lemma {:induction false} RunTimed(ps: seq<Packet>)
    requires RegularRun(ps)
    ensures OwnPlaces(Run(ps).ring) && AllTimed(ps, Run(ps).ring)
  {
    hide Timed;
    if ps == [] {
      EmptyTimed([]);
    } else {
      var qs, p := ps[..|ps| - 1], ps[|ps| - 1];
      RunTimed(qs);
      RunSound(qs);
      StepPlaces(Run(qs), p);
      StepTimed(qs, p, Run(qs));
      assert qs + [p] == ps;
    }
  }

  // ---------------------------------------------------------------- the results

  /** Every slot in use carries the receive time of the one packet that revealed
      its loss, or of the last packet with its number. */
  lemma SlotTimes(ps: seq<Packet>, i: nat)
    requires RegularRun(ps) && i < SIZE && Run(ps).ring[i].extSeq != -1
    ensures var slot := Run(ps).ring[i];
            && slot.extSeq % SIZE == i && slot.sentAtTime == 0 && slot.retry == 0
            && (slot.createdAtTime == 0 ==> LossAt(ps, slot.extSeq, slot.lossAtTime))
            && (slot.createdAtTime != 0 ==> ArrivedAt(ps, slot.extSeq, slot.createdAtTime))
  {
    RunTimed(ps);
    assert Timed(ps, Run(ps).ring[i]);
  }

  /** The number of a counted slot is due for retransmission exactly when more
      than 5 ms modulo 2^64 have passed since the packet that revealed its loss,
      and the clock itself is past 20 ms and the round trip time: nothing was
      sent yet. */
  lemma DueIff(ps: seq<Packet>, i: nat, k: nat, now: u64, rtt: u32)
    requires RegularRun(ps) && i < SIZE && IsCountInTotalLost(Run(ps).ring[i])
    ensures exists k: nat :: Reveals(ps, k, Run(ps).ring[i].extSeq)
    ensures Reveals(ps, k, Run(ps).ring[i].extSeq) ==>
              (IsLost(Run(ps).ring[i], now, rtt)
               <==> (now - ps[k].recvTimeMs) % TWO64 > 5 && now > Max(20, rtt))
  {
    hide Run, RegularRun, SameEpochFrom, Observed;
    RunTimed(ps);
    var slot := Run(ps).ring[i];
    assert Timed(ps, slot);
    var l: nat :| Reveals(ps, l, slot.extSeq) && ps[l].recvTimeMs == slot.lossAtTime;
    if Reveals(ps, k, slot.extSeq) {
      RevealsOnce(ps, k, l, slot.extSeq);
    }
  }

  /** On a safe run every missing number has its slot, and is due exactly then. */
  lemma MissingDueIff(ps: seq<Packet>, z: int, k: nat, now: u64, rtt: u32)
    requires RegularRun(ps) && SafeRun(ps) && z in Missing(Observed(ps))
    ensures Run(ps).ring[z % SIZE].extSeq == z && exists k: nat :: Reveals(ps, k, z)
    ensures Reveals(ps, k, z) ==>
              (IsLost(Run(ps).ring[z % SIZE], now, rtt)
               <==> (now - ps[k].recvTimeMs) % TWO64 > 5 && now > Max(20, rtt))
  {
    hide Run, Observed, IsLost, IsCountInTotalLost, Missing, Reveals, RegularRun, SafeRun;
    MissingIsCounted(ps, z);
    DueIff(ps, z % SIZE, k, now, rtt);
  }

  lemma MissingIsCounted(ps: seq<Packet>, z: int)
    requires RegularRun(ps) && SafeRun(ps) && z in Missing(Observed(ps))
    ensures var slot := Run(ps).ring[z % SIZE]; slot.extSeq == z && IsCountInTotalLost(slot)
  {
    hide Run, Observed, RegularRun, SafeRun;
    LossExactOnSafeRuns(ps);
    assert InWindow(Observed(ps), z);
  }

  /** A requested number is due again after the larger of 20 ms and the round trip
      time, and never after 20 requests. */
  lemma DueAgainIff(slot: PacketInfo, now: u64, rtt: u32)
    requires IsCountInTotalLost(slot) && slot.lossAtTime <= slot.sentAtTime <= now
    ensures IsLost(slot, now, rtt) <==>
              slot.retry < 20 && now > slot.lossAtTime + 5 && now > slot.sentAtTime + 20 && now > slot.sentAtTime + rtt
  {}
}
