/** The encoder's running time: a grid of 250 microseconds that never drifts
    from the true receive times. */
module TransportCcQuantisation {
  import opened Bytes
  import opened TransportCc

  /** The quotients handed to the conversion to int fit in an int. */
  predicate QuotientsFit(c: Clock, times: seq<u64>)
    decreases |times|
  {
    times == [] || (
      && (times[0] != 0 ==> -0x8000_0000 * 250 < times[0] - Base(c, times[0]) < 0x8000_0000 * 250)
      && QuotientsFit(Advance(c, times[0]), times[1..]))
  }

  predicate OnGrid(c: Clock)
  {
    c.Running? ==> c.time % 250 == 0
  }

  function Floor250(t: int): int { t - t % 250 }

  function Ceiling250(t: int): int { -Floor250(-t) }

  /** One received packet moves the running time to the grid point between the
      old running time and the packet that is nearest to the packet. */
  lemma QuantiseOne(c: Clock, t: u64)
    requires OnGrid(c) && t != 0
    requires -0x8000_0000 * 250 < t - Base(c, t) < 0x8000_0000 * 250
    ensures var q := Advance(c, t).time;
            && q == (if t >= Base(c, t) then Floor250(t) else Ceiling250(t))
            && OnGrid(Advance(c, t)) && -250 < q - t < 250
    ensures Advance(c, t).time == Base(c, t) + 250 * Delta(c, t)
  {
    hide Delta, Floor250, Ceiling250;
    var base := Base(c, t);
    assert base % 250 == 0 by { ReferenceOnGrid(ReferenceOf(t)); }
    GridStep(base, t);
    DeltaIsQuotient(c, t);
    var q: int := base + Delta(c, t) * 250;
    assert q == if t >= base then Floor250(t) else Ceiling250(t);
    GridBounds(t);
    assert 0 <= q < TWO64;
    AdvanceTo(c, t, q);
  }

  lemma GridBounds(t: nat)
    ensures 0 <= Floor250(t)
    ensures t - 250 < Floor250(t) <= t <= Ceiling250(t) < t + 250
    ensures Floor250(t) % 250 == 0 && Ceiling250(t) % 250 == 0
  {
    var u: int := t;
    FloorOnGrid(u);
    FloorOnGrid(-u);
  }

  lemma FloorOnGrid(t: int)
    ensures Floor250(t) == 250 * (t / 250)
    ensures Floor250(t) % 250 == 0 && (-Floor250(t)) % 250 == 0
  {
    Multiple250(t / 250);
  }

  lemma Multiple250(k: int)
    ensures 250 * k % 250 == 0 && (-(250 * k)) % 250 == 0
  {}

  lemma DeltaIsQuotient(c: Clock, t: u64)
    requires -0x8000_0000 * 250 < t - Base(c, t) < 0x8000_0000 * 250
    ensures Delta(c, t) == if t >= Base(c, t) then (t - Base(c, t)) / 250 else -((Base(c, t) - t) / 250)
  {}

  lemma AdvanceTo(c: Clock, t: u64, q: int)
    requires t != 0 && q == Base(c, t) + Delta(c, t) * 250 && 0 <= q < TWO64
    ensures Advance(c, t) == Running(q)
  {}

  /** Whole steps of 250 from a grid point towards t end on the near side of t. */
  lemma GridStep(base: int, t: int)
    requires base % 250 == 0
    ensures t >= base ==> base + (t - base) / 250 * 250 == Floor250(t)
    ensures t <= base ==> base - (base - t) / 250 * 250 == Ceiling250(t)
  {
    var k := base / 250;
    assert base == 250 * k;
    var u, v := t - base, base - t;
    assert u == 250 * (u / 250) + u % 250 && v == 250 * (v / 250) + v % 250;
    SameGridOffset(k, u);
    SameGridOffset(-k, v);
  }

  lemma SameGridOffset(k: int, u: int)
    ensures (250 * k + u) % 250 == u % 250
  {}

  lemma ReferenceOnGrid(r: nat)
    ensures 64000 * r % 250 == 0
  {
    assert 64000 * r == 250 * (256 * r);
  }

  /** After every received packet the running time is a multiple of 250 less
      than 250 away from the true time. */
  lemma {:induction false} NeverDrifts(c: Clock, times: seq<u64>)
    requires OnGrid(c) && QuotientsFit(c, times)
    ensures forall i :: 0 <= i < |times| && times[i] != 0 ==>
              var q := Quantised(c, times)[i]; q % 250 == 0 && -250 < q - times[i] < 250
    decreases |times|
  {
    if times != [] {
      var t, rest := times[0], times[1..];
      if t != 0 {
        QuantiseOne(c, t);
      }
      NeverDrifts(Advance(c, t), rest);
      assert forall i :: 1 <= i < |times| ==>
        times[i] == rest[i - 1] && Quantised(c, times)[i] == Quantised(Advance(c, t), rest)[i - 1];
    }
  }

  /** The received packets arrived in the order of their numbers. */
  predicate NonDecreasing(times: seq<u64>)
  {
    forall i, j :: 0 <= i < j < |times| && times[i] != 0 && times[j] != 0 ==> times[i] <= times[j]
  }

  predicate NotAfter(c: Clock, times: seq<u64>)
  {
    c.Running? ==> forall i :: 0 <= i < |times| && times[i] != 0 ==> c.time <= times[i]
  }

  /** For arrivals in order the running time is the true time rounded down. */
  lemma {:induction false} RoundsDownInOrder(c: Clock, times: seq<u64>)
    requires OnGrid(c) && QuotientsFit(c, times) && NonDecreasing(times) && NotAfter(c, times)
    ensures forall i :: 0 <= i < |times| && times[i] != 0 ==> Quantised(c, times)[i] == Floor250(times[i])
    decreases |times|
  {
    if times != [] {
      var t, rest := times[0], times[1..];
      var c' := Advance(c, t);
      if t != 0 {
        assert Base(c, t) <= t by { ReferenceBelow(t); }
        QuantiseOne(c, t);
      }
      assert forall i :: 0 <= i < |rest| ==> rest[i] == times[i + 1];
      RoundsDownInOrder(c', rest);
      assert forall i :: 1 <= i < |times| ==>
        times[i] == rest[i - 1] && Quantised(c, times)[i] == Quantised(c', rest)[i - 1];
    }
  }

  lemma ReferenceBelow(t: u64)
    ensures 64000 * ReferenceOf(t) <= t
  {}

  /** Each received packet is on the grid or not before the running time, which
      is the packet before it, rounded down. */
  predicate OnGridOrLater(c: Clock, times: seq<u64>)
    decreases |times|
  {
    times == [] || (
      if times[0] == 0 then OnGridOrLater(c, times[1..])
      else
        && (times[0] % 250 == 0 || times[0] >= Base(c, times[0]))
        && OnGridOrLater(Running(Floored(times[0])), times[1..]))
  }

  function Floored(t: u64): u64 { t - t % 250 }

  /** All received packets are rounded down if and only if none comes before the
      rounded time of the one before it, except on the grid itself. */
  lemma {:induction false} RoundsDownIff(c: Clock, times: seq<u64>)
    requires OnGrid(c) && QuotientsFit(c, times)
    ensures (forall i :: 0 <= i < |times| && times[i] != 0 ==> Quantised(c, times)[i] == Floor250(times[i]))
       <==> OnGridOrLater(c, times)
    decreases |times|
  {
    hide Delta;
    if times != [] {
      var t, rest := times[0], times[1..];
      var c' := Advance(c, t);
      if t != 0 {
        QuantiseOne(c, t);
        RoundedDownIff(t);
      }
      RoundsDownIff(c', rest);
      assert Quantised(c, times)[1..] == Quantised(c', rest);
      assert forall i :: 0 <= i < |rest| ==>
        rest[i] == times[i + 1] && Quantised(c', rest)[i] == Quantised(c, times)[i + 1];
      assert forall i :: 1 <= i < |times| ==> times[i] == rest[i - 1];
    }
  }

  lemma RoundedDownIff(t: u64)
    ensures Floor250(t) == Floored(t) && (Ceiling250(t) == Floor250(t) <==> t % 250 == 0)
  {}

  /** An arrival earlier than the running time is rounded up instead: after
      1000 us, an arrival at 600 us is recorded as 750 us. */
  lemma EarlierArrivalRoundsUp()
    ensures Quantised(Unset, [1000, 600]) == [1000, 750]
  {
    assert Advance(Unset, 1000) == Running(1000);
    assert Advance(Running(1000), 600) == Running(750);
    assert [1000, 600][1..] == [600];
  }

  // ---------------------------------------------------------------- any clock

  /** The reference time has 23 bits of 64 ms and the deltas 32 bits of 250 us,
      so the encoder's time is the true time up to whole cycles of 2^32 * 250 us. */
  const CYCLE: int := 250 * TWO32

  /** The running time stays inside 64 bits. */
  predicate NoWrap(c: Clock, times: seq<u64>)
    decreases |times|
  {
    times == [] || (
      && (times[0] != 0 ==> 0 <= Base(c, times[0]) + 250 * Delta(c, times[0]) < TWO64)
      && NoWrap(Advance(c, times[0]), times[1..]))
  }

  /** q and t are less than 250 apart, up to whole cycles. */
  ghost predicate CloseOnCycle(q: int, t: int)
  {
    exists n: int :: -250 < Turned(q, n) - t < 250
  }

  function Turned(q: int, n: int): int { q + CYCLE * n }

  /** The conversion to int drops whole multiples of 2^32. */
  lemma ToIntDrops(v: nat) returns (n: int)
    ensures ToInt(v) == v - TWO32 * n
  {
    n := v / TWO32;
    if ToInt(v) < 0 {
      n := n + 1;
    }
  }

  /** Before it is reduced to 64 bits, the next running time is the grid point
      next to the packet, less whole cycles. */
  lemma StepValue(c: Clock, t: u64) returns (near: int, n: int)
    requires OnGrid(c)
    ensures Base(c, t) + 250 * Delta(c, t) == near - CYCLE * n
    ensures near % 250 == 0 && -250 < near - t < 250
  {
    hide Floor250, Ceiling250, ToInt, Base, OnGrid;
    var base: int := Base(c, t);
    assert base % 250 == 0 by { BaseOnGrid(c, t); }
    GridStep(base, t);
    GridBounds(t);
    near := if t > base then Floor250(t) else Ceiling250(t);
    n := DeltaOnCycle(base, t);
  }

  /** Whatever the clock shows, one received packet moves the running time to
      the grid next to the packet, up to whole cycles. */
  lemma QuantiseOnCycle(c: Clock, t: u64)
    requires OnGrid(c) && t != 0 && 0 <= Base(c, t) + 250 * Delta(c, t) < TWO64
    ensures OnGrid(Advance(c, t)) && CloseOnCycle(Advance(c, t).time, t)
  {
    hide Delta, Base, OnGrid;
    var near, n := StepValue(c, t);
    CycleOnGrid(near, n);
    AdvanceTo(c, t, near - CYCLE * n);
    assert Turned(near - CYCLE * n, n) == near;
    AdvancedOnGrid(c, t);
  }

  /** 2^64 is not a multiple of the cycle, so a running time that wraps is off. */
  lemma WrapIsOff(c: Clock, t: u64)
    requires OnGrid(c) && t != 0 && !(0 <= Base(c, t) + 250 * Delta(c, t) < TWO64)
    ensures !CloseOnCycle(Advance(c, t).time, t)
  {
    hide Delta, Base, OnGrid, CloseOnCycle;
    var near, n := StepValue(c, t);
    var v := near - CYCLE * n;
    DeltaRange(c, t);
    var q: int := Advance(c, t).time;
    assert q == if v < 0 then v + TWO64 else v - TWO64;
    OffCycle(q, t, near, n);
  }

  lemma DeltaRange(c: Clock, t: u64)
    ensures -0x8000_0000 <= Delta(c, t) <= 0x8000_0000
  {}

  lemma OffCycle(q: int, t: int, near: int, n: int)
    requires -250 < near - t < 250
    requires q == near - CYCLE * n + TWO64 || q == near - CYCLE * n - TWO64
    ensures !CloseOnCycle(q, t)
  {
    forall m: int ensures !(-250 < Turned(q, m) - t < 250) {
      NoWholeCycles(m - n);
    }
  }

  /** 2^64 is 46 * 2^32 more than 17179869 cycles. */
  lemma NoWholeCycles(k: int)
    ensures !(-500 < CYCLE * k + TWO64 < 500) && !(-500 < CYCLE * k - TWO64 < 500)
  {}

  lemma BaseOnGrid(c: Clock, t: u64)
    requires OnGrid(c)
    ensures Base(c, t) % 250 == 0
  {
    ReferenceOnGrid(ReferenceOf(t));
  }

  lemma AdvancedOnGrid(c: Clock, t: u64)
    requires t != 0 && Advance(c, t).time % 250 == 0
    ensures OnGrid(Advance(c, t))
  {}

  lemma DeltaOnCycle(base: int, t: int) returns (n: int)
    ensures (if t > base then ToInt((t - base) / 250) else -ToInt((base - t) / 250))
         == (if t > base then (t - base) / 250 else -((base - t) / 250)) - TWO32 * n
  {
    if t > base {
      n := ToIntDrops((t - base) / 250);
    } else {
      n := ToIntDrops((base - t) / 250);
      n := -n;
    }
  }

  lemma CycleOnGrid(q: int, n: int)
    requires q % 250 == 0
    ensures (q - CYCLE * n) % 250 == 0
  {
    assert q - CYCLE * n == 250 * (q / 250 - TWO32 * n);
  }

  /** On any clock the running time is a multiple of 250 less than 250 away from
      the true time, up to whole cycles, as long as it stays inside 64 bits. */
  lemma {:induction false} NeverDriftsOnAnyClock(c: Clock, times: seq<u64>)
    requires OnGrid(c) && NoWrap(c, times)
    ensures forall i :: 0 <= i < |times| && times[i] != 0 ==>
              Quantised(c, times)[i] % 250 == 0 && CloseOnCycle(Quantised(c, times)[i], times[i])
    decreases |times|
  {
    hide CloseOnCycle, Delta;
    if times != [] {
      var t, rest := times[0], times[1..];
      if t != 0 {
        QuantiseOnCycle(c, t);
      }
      NeverDriftsOnAnyClock(Advance(c, t), rest);
      assert forall i :: 1 <= i < |times| ==>
        times[i] == rest[i - 1] && Quantised(c, times)[i] == Quantised(Advance(c, t), rest)[i - 1];
    }
  }

  /** Once it leaves them it is off. */
  lemma {:induction false} DriftsAfterWrap(c: Clock, times: seq<u64>) returns (i: nat)
    requires OnGrid(c) && !NoWrap(c, times)
    ensures i < |times| && times[i] != 0 && !CloseOnCycle(Quantised(c, times)[i], times[i])
    decreases |times|
  {
    hide CloseOnCycle, Delta;
    var t, rest := times[0], times[1..];
    if t != 0 && !(0 <= Base(c, t) + 250 * Delta(c, t) < TWO64) {
      WrapIsOff(c, t);
      i := 0;
    } else {
      if t != 0 {
        QuantiseOnCycle(c, t);
      }
      i := DriftsAfterWrap(Advance(c, t), rest);
      assert Quantised(c, times)[i + 1] == Quantised(Advance(c, t), rest)[i];
      i := i + 1;
    }
  }

  /** On any clock, the running time is close to every true time, up to whole
      cycles, if and only if it stays inside 64 bits. */
  lemma NeverDriftsIff(c: Clock, times: seq<u64>)
    requires OnGrid(c)
    ensures (forall i :: 0 <= i < |times| && times[i] != 0 ==> CloseOnCycle(Quantised(c, times)[i], times[i]))
       <==> NoWrap(c, times)
  {
    hide CloseOnCycle, NoWrap, Quantised;
    if NoWrap(c, times) {
      NeverDriftsOnAnyClock(c, times);
    } else {
      var i := DriftsAfterWrap(c, times);
    }
  }

  /** The first arrival, 0 if there is none. */
  function FirstArrival(times: seq<u64>): u64
  {
    if times == [] then 0 else if times[0] != 0 then times[0] else FirstArrival(times[1..])
  }

  /** The start of the 64 ms tick of the first arrival. */
  function TickStart(times: seq<u64>): u64
  {
    64000 * (FirstArrival(times) / 64000)
  }

  const SPAN: int := 250 * 0x8000_0000

  /** The largest step of the running time for which the encoder is defined. */
  lemma OverflowIff(c: Clock, t: u64)
    requires t != 0
    ensures NoOverflow(c, [t]) <==> -8589934 <= Delta(c, t) <= 8589934
  {
    hide Delta;
    assert [t][1..] == [] && NoOverflow(Advance(c, t), []);
  }

  /** The reference time drops an even number of its own 23-bit cycles, or the
      first delta does not fit an int. */
  lemma FirstArrivalIff(t: u64)
    requires t != 0
    ensures NoOverflow(Unset, [t]) <==> t / 64000 / 0x80_0000 % 2 == 0
  {
    assert [t][1..] == [] && NoOverflow(Advance(Unset, t), []);
    FirstDelta(t);
  }

  lemma FirstDelta(t: u64)
    requires t != 0
    ensures Delta(Unset, t) == if t / 64000 / 0x80_0000 % 2 == 0 then t % 64000 / 250
                               else t % 64000 / 250 - 0x8000_0000
  {
    var tick, k := t / 64000, t / 64000 / 0x80_0000;
    assert tick == 0x80_0000 * k + ReferenceOf(t) && t == 64000 * tick + t % 64000;
    DivMod(t - Base(Unset, t), 250, 0x8000_0000 * k + t % 64000 / 250, t % 64000 % 250);
    if k % 2 == 0 {
      DivMod(0x8000_0000 * k + t % 64000 / 250, TWO32, k / 2, t % 64000 / 250);
    } else {
      DivMod(0x8000_0000 * k + t % 64000 / 250, TWO32, k / 2, 0x8000_0000 + t % 64000 / 250);
    }
  }

  /** The part of the first arrival that the reference time drops is a number of
      whole cycles. */
  lemma FoldIsCycles(t: u64) returns (n: nat)
    requires t / 64000 / 0x80_0000 % 2 == 0
    ensures 64000 * (t / 64000) == 64000 * ReferenceOf(t) + CYCLE * n
  {
    n := t / 64000 / 0x80_0000 / 2;
  }

  /** A packet n cycles and less than half a cycle after the running time. */
  lemma StepOnCycle(c: Clock, t: u64, n: nat)
    requires OnGrid(c) && t != 0
    requires Base(c, t) + CYCLE * n <= t < Base(c, t) + CYCLE * n + SPAN
    ensures var q := Floor250(t) - CYCLE * n; Base(c, t) <= q < TWO64 && Advance(c, t) == Running(q)
    ensures OnGrid(Advance(c, t)) && Floor250(t) <= t
  {
    hide Floor250, ToInt, Base, OnGrid;
    var base: int := Base(c, t);
    BaseOnGrid(c, t);
    var x := t - CYCLE * n - base;
    assert Delta(c, t) == x / 250 by {
      DivMod(t - base, 250, TWO32 * n + x / 250, x % 250);
      ToIntKeeps(x / 250, n);
      ToIntKeeps(0, 0);
    }
    GridStep(base, base + x);
    FloorLessCycles(t, n);
    GridBounds(t);
    AdvanceTo(c, t, base + x / 250 * 250);
    CycleOnGrid(Floor250(t), n);
    AdvancedOnGrid(c, t);
  }

  lemma ToIntKeeps(v: nat, n: nat)
    requires v < 0x8000_0000
    ensures ToInt(TWO32 * n + v) == v
  {
    DivMod(TWO32 * n + v, TWO32, n, v);
  }

  lemma FloorLessCycles(t: int, n: int)
    ensures Floor250(t - CYCLE * n) == Floor250(t) - CYCLE * n
  {
    SameGridOffset(-TWO32 * n, t);
  }

  lemma {:induction false} RoundsDownFrom(time: u64, times: seq<u64>, i: nat, n: nat)
    requires time % 250 == 0 && i < |times| && times[i] != 0 && NonDecreasing(times)
    requires forall j :: 0 <= j < |times| && times[j] != 0 ==> time + CYCLE * n <= times[j]
    requires times[i] < time + CYCLE * n + SPAN
    ensures Quantised(Running(time), times)[i] == Floor250(times[i]) - CYCLE * n
    decreases i
  {
    hide Floor250, Delta;
    var t, rest := times[0], times[1..];
    assert forall j :: 0 <= j < |rest| ==> rest[j] == times[j + 1];
    if t == 0 {
      RoundsDownFrom(time, rest, i - 1, n);
    } else {
      StepOnCycle(Running(time), t, n);
      if i > 0 {
        RoundsDownFrom(Floor250(t) - CYCLE * n, rest, i - 1, n);
      }
    }
  }

  /** In order and less than half a cycle after the tick of the first arrival,
      the running time is the true time rounded down, less the whole cycles that
      the reference time drops. */
  lemma {:induction false} RoundsDownOnAnyClock(times: seq<u64>, i: nat)
    requires i < |times| && times[i] != 0 && NonDecreasing(times) && NoOverflow(Unset, times)
    requires times[i] < TickStart(times) + SPAN
    ensures Quantised(Unset, times)[i] - 64000 * Reference(times) == Floor250(times[i]) - TickStart(times)
    decreases i
  {
    hide Floor250, Delta;
    var t, rest := times[0], times[1..];
    assert forall j :: 0 <= j < |rest| ==> rest[j] == times[j + 1];
    if t == 0 {
      RoundsDownOnAnyClock(rest, i - 1);
    } else {
      assert t / 64000 / 0x80_0000 % 2 == 0 by { FirstArrivalIff(t); }
      var n := FoldIsCycles(t);
      assert NonDecreasing(times) && t <= times[i];
      StepOnCycle(Unset, t, n);
      if i > 0 {
        RoundsDownFrom(Floor250(t) - CYCLE * n, rest, i - 1, n);
      }
    }
  }
}
