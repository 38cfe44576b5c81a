/** How long the damage of a stale packet lasts: the window is exact again as soon
    as the next number has moved one window on. */
module LossRecovery {
  import opened Bytes
  import opened LossHistory
  import opened LossTheorems
  import opened LossWindow

  /** The numbers from lo on sit in their slots; older ones may not. */
  ghost predicate ExactFrom(s: Window, h: History, lo: nat)
  {
    h.Epoch? && Sound(s, h) && SlotsExact(s, Max(lo, h.first), h.arrived)
  }

  /** From any sound state, the numbers still to come are exact so far. */
  lemma NothingYet(s: Window, h: History)
    requires Sound(s, h) && h.Epoch?
    ensures ExactFrom(s, h, h.next)
  {}

  /** One call with a regular packet that lands safely keeps them exact. */
  lemma StepExactFrom(s: Window, h: History, p: Packet, lo: nat)
    requires ExactFrom(s, h, lo) && lo <= h.next && Regular(p) && LandsSafely(h, p.extSeq)
    ensures ExactFrom(Step(s, p), Observe(h, p.extSeq), lo)
    ensures lo <= Observe(h, p.extSeq).next
  {
    StepSound(s, h, p);
    if p.extSeq >= h.next + 255 {
      assert Step(s, p) == Step(Initial(), p);
      FirstPacketSlots(p);
    } else {
      LandsSafelyIsOwnSlot(h, p.extSeq);
      StoreExactFrom(s, h, p, Max(lo, h.first));
    }
  }

  lemma StoreExactFrom(s: Window, h: History, p: Packet, from: nat)
    requires h.Epoch? && Sound(s, h) && SlotsExact(s, from, h.arrived) && h.first <= from <= h.next
    requires Regular(p) && p.extSeq < h.next + 255 && OwnSlot(h, p.extSeq)
    ensures SlotsExact(Step(s, p), from, Observe(h, p.extSeq).arrived)
  {
    hide FillGap, SlotsExact, SlotsSound, Sound;
    SoundEpoch(s, h);
    OnlyOwnSlot(h, p.extSeq, from);
    if h.next <= p.extSeq {
      FillGapExact(s, p.extSeq, p.recvTimeMs, from, h.arrived);
      StoredExact(FillGap(s, p.extSeq, p.recvTimeMs), Step(s, p), p, from, h.arrived);
    } else {
      StoredExact(s, Step(s, p), p, from, h.arrived);
    }
  }

  lemma SoundEpoch(s: Window, h: History)
    requires Sound(s, h) && h.Epoch?
    ensures 0 < h.next == s.nextSeq && forall z :: z in h.arrived ==> z < h.next
  {}

  lemma OnlyOwnSlot(h: History, x: nat, from: nat)
    requires h.Epoch? && x < h.next + 255 && OwnSlot(h, x) && h.first <= from
    ensures var next := Observe(h, x).next;
            forall z :: Oldest(from, next) <= z < next && z % SIZE == x % SIZE ==> z == x
  {
    var g := Observe(h, x);
    forall z | Oldest(from, g.next) <= z < g.next && z % SIZE == x % SIZE ensures z == x {
      assert InWindow(g, z);
    }
  }

  /** The packet's own slot becomes right and no other slot of the window changes. */
  lemma StoredExact(g: Window, t: Window, p: Packet, from: nat, arrived: set<nat>)
    requires t.ring == g.ring[p.extSeq % SIZE := Arrival(p)] && Regular(p) && SlotsExact(g, from, arrived)
    requires t.nextSeq == Max(g.nextSeq, p.extSeq + 1) && p.extSeq <= g.nextSeq
    requires forall z :: Oldest(from, t.nextSeq) <= z < t.nextSeq && z % SIZE == p.extSeq % SIZE ==> z == p.extSeq
    ensures SlotsExact(t, from, arrived + {p.extSeq})
  {
    forall z | Oldest(from, t.nextSeq) <= z < t.nextSeq
      ensures t.ring[z % SIZE].extSeq == z
      ensures t.ring[z % SIZE].createdAtTime > 0 <==> z in arrived + {p.extSeq}
    {
      if z % SIZE != p.extSeq % SIZE {
        assert Oldest(from, g.nextSeq) <= z < g.nextSeq;
        assert t.ring[z % SIZE] == g.ring[z % SIZE];
      }
    }
  }

  /** The packets after the first n of a run land safely. */
  ghost predicate SafeAfter(ps: seq<Packet>, n: nat)
  {
    forall i :: n <= i < |ps| ==> LandsSafely(Observed(ps[..i]), ps[i].extSeq)
  }

  lemma {:induction false} RunExactFrom(ps: seq<Packet>, n: nat)
    requires RegularRun(ps) && 0 < n <= |ps| && SafeAfter(ps, n)
    ensures var lo := Observed(ps[..n]).next;
            Observed(ps[..n]).Epoch? && lo <= Observed(ps).next && ExactFrom(Run(ps), Observed(ps), lo)
    decreases |ps|
  {
    if n == |ps| {
      assert ps[..n] == ps;
      RunSound(ps);
      NothingYet(Run(ps), Observed(ps));
    } else {
      var qs, p := ps[..|ps| - 1], ps[|ps| - 1];
      assert forall i :: 0 <= i < |qs| ==> qs[..i] == ps[..i];
      assert qs[..n] == ps[..n];
      RunExactFrom(qs, n);
      StepExactFrom(Run(qs), Observed(qs), p, Observed(ps[..n]).next);
    }
  }

  /** Whatever came before, after regular packets that land safely and move the
      next number by a window, the counter is the number of missing packets and
      every number of the window sits in its slot again. */
  lemma RecoversAfterOneWindow(ps: seq<Packet>, n: nat)
    requires RegularRun(ps) && 0 < n <= |ps| && SafeAfter(ps, n)
    requires Observed(ps[..n]).Epoch? && Observed(ps).Epoch?
    requires Observed(ps).next >= Observed(ps[..n]).next + SIZE
    ensures Exact(Run(ps), Observed(ps)) && Run(ps).totalLost == |Missing(Observed(ps))|
  {
    hide Run, Observed, SafeAfter, Sound;
    RunExactFrom(ps, n);
    FarEnough(Run(ps), Observed(ps), Observed(ps[..n]).next);
    CountIsExact(Run(ps), Observed(ps));
  }

  lemma FarEnough(s: Window, h: History, lo: nat)
    requires ExactFrom(s, h, lo) && h.next >= lo + SIZE
    ensures Exact(s, h)
  {}
}
