/** `Interval`: a sleep that re-arms itself, and the schedules this produces. */
module Interval {
  import opened Wrappers
  import opened Powers
  import opened Placement
  import opened Saturation
  import opened WheelHistory
  import opened TimerWheel
  import opened TimerFutures

  datatype MissedTickBehavior = Burst | Delay | Skip

  function NextDeadline(b: MissedTickBehavior, missed: nat, period: nat, now: nat): nat
    requires period > 0
  {
    match b
    case Burst => missed + period
    case Delay => now + period
    case Skip =>
      var aligned := (now / period) * period + period;
      if aligned >= missed + period then aligned else missed + period
  }

  /**
   * One poll: the tick at which the sleep was polled, and the tick read afterwards to re-arm
   * it. The wheel is unlocked in between, so a driver may have moved it on.
   */
  datatype Look = Look(polled: nat, read: nat)

  /** Whether a poll yields, and the deadline it leaves. */
  function Polled(b: MissedTickBehavior, period: nat, deadline: nat, look: Look): (bool, nat)
    requires period > 0
  {
    if look.polled >= deadline then (true, NextDeadline(b, deadline, period, look.read)) else (false, deadline)
  }

  class Interval {
    const wheel: Inner
    const sleep: Sleep
    const period: nat
    const behavior: MissedTickBehavior

    ghost predicate Valid()
      reads this, sleep, wheel`currentTick, wheel`at, sleep.entry
    {
      period > 0 && sleep.wheel == wheel && sleep.Valid()
    }

    constructor (wheel: Inner, period: nat, behavior: MissedTickBehavior)
      requires wheel.Valid() && period > 0
      ensures Valid() && this.wheel == wheel && this.period == period && this.behavior == behavior
      ensures fresh(sleep) && fresh(sleep.entry) && sleep.entry.deadline == wheel.currentTick + period
    {
      this.wheel := wheel;
      this.period := period;
      this.behavior := behavior;
      this.sleep := new Sleep(wheel, wheel.currentTick + period);
    }

    /**
     * `poll_tick` yields iff the deadline has come, and then re-arms by the missed-tick rule. A
     * driver may make `gap` ticks before the wheel is read, and `late` more before the reset.
     */
    method PollTick(waker: Waker, gap: nat, late: nat, ghost others: set<Stake>) returns (ready: bool)
      requires wheel.Valid() && Valid()
      modifies sleep, wheel`currentTick, wheel`pending, wheel`at, wheel`rank, wheel`woken, wheel`drained, wheel.heads
      modifies wheel.at.Keys`next, wheel.at.Keys`prevNext, wheel.at.Keys`waker, sleep.entry
      ensures wheel.Valid() && Valid()
      ensures var now := old(wheel.currentTick);
              && wheel.currentTick == (if ready then now + gap + late else now)
              && (ready, sleep.entry.deadline)
                 == Polled(behavior, period, old(sleep.entry.deadline), Look(now, now + gap))
      ensures ready ==> sleep.entry !in wheel.at
      ensures !ready && wheel.shape.levels >= 2 ==> sleep.entry in wheel.at
      ensures forall x :: x in others && x.entry != sleep.entry && old(Fits(wheel, x)) ==> Fits(wheel, x)
    {
      hide Inner.Valid;
      hide Fits;
      ghost var armed := set x | x in others && x.entry != sleep.entry && Fits(wheel, x);
      ready := sleep.Poll(waker, others);
      if ready {
        Drive(wheel, gap, armed + {sleep.Held()});
        var next := NextDeadline(behavior, sleep.entry.deadline, period, wheel.currentTick);
        Drive(wheel, late, armed + {sleep.Held()});
        sleep.Reset(next, others);
      }
    }
  }

  // ---- schedules over whole poll histories ---------------------------------------

  /** Time passes from look to look, and within each. */
  predicate InTime(looks: seq<Look>) {
    && (forall i :: 0 <= i < |looks| ==> looks[i].polled <= looks[i].read)
    && (forall i, j :: 0 <= i < j < |looks| ==> looks[i].read <= looks[j].polled)
  }

  /** The deadline after these polls. */
  function DeadlineAfter(b: MissedTickBehavior, period: nat, first: nat, looks: seq<Look>): nat
    requires period > 0
  {
    if looks == [] then first
    else Polled(b, period, DeadlineAfter(b, period, first, looks[..|looks| - 1]), looks[|looks| - 1]).1
  }

  function Yields(b: MissedTickBehavior, period: nat, first: nat, looks: seq<Look>): nat
    requires period > 0
  {
    if looks == [] then 0
    else
      var before := looks[..|looks| - 1];
      Yields(b, period, first, before)
      + if Polled(b, period, DeadlineAfter(b, period, first, before), looks[|looks| - 1]).0 then 1 else 0
  }

  /** Burst counts exactly: its deadline is always one period after the ticks it has yielded. */
  lemma {:induction false} BurstDeadline(period: nat, start: nat, looks: seq<Look>)
    requires period > 0
    ensures DeadlineAfter(Burst, period, start + period, looks)
            == start + period + Yields(Burst, period, start + period, looks) * period
  {
    if looks != [] {
      var before := looks[..|looks| - 1];
      BurstDeadline(period, start, before);
      var n := Yields(Burst, period, start + period, before);
      OneMore(n, period);
    }
  }

  lemma OneMore(n: nat, period: nat)
    ensures (n + 1) * period == n * period + period
  {
  }

  lemma {:induction false} BurstNotEarly(period: nat, start: nat, looks: seq<Look>)
    requires period > 0 && InTime(looks) && looks != []
    ensures var n := Yields(Burst, period, start + period, looks);
            n > 0 ==> start + n * period <= looks[|looks| - 1].polled
  {
    var before := looks[..|looks| - 1];
    BurstDeadline(period, start, before);
    var n := Yields(Burst, period, start + period, before);
    OneMore(n, period);
    if before != [] {
      BurstNotEarly(period, start, before);
      assert before[|before| - 1] == looks[|looks| - 2];
      assert before[|before| - 1].read <= looks[|looks| - 1].polled;
    }
  }

  /** Burst, polled until pending at tick `now`, has yielded floor((now - start) / period) ticks. */
  lemma BurstCatchesUp(period: nat, start: nat, looks: seq<Look>)
    requires period > 0 && InTime(looks) && looks != [] && looks[0].polled >= start
    requires var last := looks[|looks| - 1];
             !Polled(Burst, period, DeadlineAfter(Burst, period, start + period, looks[..|looks| - 1]), last).0
    ensures looks[|looks| - 1].polled >= start
    ensures Yields(Burst, period, start + period, looks) == (looks[|looks| - 1].polled - start) / period
  {
    var now := looks[|looks| - 1].polled;
    assert looks[0].polled <= now;
    var before := looks[..|looks| - 1];
    var n := Yields(Burst, period, start + period, looks);
    assert n == Yields(Burst, period, start + period, before);
    BurstDeadline(period, start, before);
    BurstNotEarly(period, start, looks);
    DivUnique(now - start, period, n);
  }

  /** Skip and Delay re-arm ahead of now, by at most one period. */
  lemma RearmedWithinPeriod(b: MissedTickBehavior, period: nat, deadline: nat, now: nat)
    requires period > 0 && now >= deadline
    ensures b != Burst ==> now < NextDeadline(b, deadline, period, now) <= now + period
    ensures NextDeadline(b, deadline, period, now) >= deadline + period
    ensures b == Delay ==> NextDeadline(b, deadline, period, now) == now + period
  {
    assert now == period * (now / period) + now % period;
    assert (now / period) * period == period * (now / period);
  }

  /**
   * Over every history of polls no behaviour re-arms less than a period after the last
   * deadline, so n yields move the deadline on by at least n periods.
   */
  lemma {:induction false} RearmsAPeriodApart(b: MissedTickBehavior, period: nat, first: nat, looks: seq<Look>)
    requires period > 0 && InTime(looks)
    ensures DeadlineAfter(b, period, first, looks) >= first + Yields(b, period, first, looks) * period
    ensures looks != [] ==>
              var last := DeadlineAfter(b, period, first, looks[..|looks| - 1]);
              DeadlineAfter(b, period, first, looks) == last
              || DeadlineAfter(b, period, first, looks) >= last + period
  {
    if looks != [] {
      var before := looks[..|looks| - 1];
      var look := looks[|looks| - 1];
      RearmsAPeriodApart(b, period, first, before);
      var d := DeadlineAfter(b, period, first, before);
      OneMore(Yields(b, period, first, before), period);
      if look.polled >= d {
        RearmedWithinPeriod(b, period, d, look.read);
      }
    }
  }

  /** Skip stays on the grid of multiples of the period once it has reached one. */
  lemma SkipStaysAligned(period: nat, deadline: nat, now: nat)
    requires period > 0 && now >= deadline && deadline % period == 0
    ensures NextDeadline(Skip, deadline, period, now) % period == 0
    ensures NextDeadline(Skip, deadline, period, now) == (now / period + 1) * period
  {
    DivMonotone(deadline, now, period);
    assert deadline == period * (deadline / period);
    MulOrder(deadline / period, now / period, period);
    assert (now / period) * period + period == (now / period + 1) * period;
    DivUnique((now / period + 1) * period, period, now / period + 1);
  }

  /** Over every history of polls a Skip interval that starts on the grid stays on it. */
  lemma {:induction false} SkipAlignedAlways(period: nat, first: nat, looks: seq<Look>)
    requires period > 0 && first % period == 0 && InTime(looks)
    ensures DeadlineAfter(Skip, period, first, looks) % period == 0
  {
    if looks != [] {
      var before := looks[..|looks| - 1];
      SkipAlignedAlways(period, first, before);
      var d := DeadlineAfter(Skip, period, first, before);
      var look := looks[|looks| - 1];
      if look.polled >= d {
        SkipStaysAligned(period, d, look.read);
      }
    }
  }

  /**
   * The documented "first multiple of the period after now" is what Skip arms iff the old
   * deadline is no later than the last multiple up to now.
   */
  lemma SkipOnGridIff(period: nat, deadline: nat, now: nat)
    requires period > 0 && now >= deadline
    ensures NextDeadline(Skip, deadline, period, now) == (now / period + 1) * period
            <==> deadline <= (now / period) * period
  {
    assert (now / period) * period + period == (now / period + 1) * period;
  }

  lemma SkipOffGrid()
    ensures NextDeadline(Skip, 13, 10, 13) == 23
  {
  }

  // ---- 64-bit ticks -----------------------------------------------------------------

  function SaturatingAdd(a: nat, b: nat): nat {
    if a + b <= MAX_TICK then a + b else MAX_TICK
  }

  /**
   * As the source computes it. The sum that aligns Skip is a plain one: None where a checked
   * build panics, and otherwise the multiple of the period modulo 2^64.
   */
  function AlignedSum(period: nat, now: nat): Option<nat>
    requires period > 0
  {
    var aligned := (now / period) * period + period;
    if aligned <= MAX_TICK then Some(aligned) else None
  }

  function SourceNext(b: MissedTickBehavior, missed: nat, period: nat, now: nat): nat
    requires period > 0
  {
    match b
    case Burst => SaturatingAdd(missed, period)
    case Delay => SaturatingAdd(now, period)
    case Skip =>
      var aligned := (now / period) * period + period;
      Larger(aligned % (MAX_TICK + 1), SaturatingAdd(missed, period))
  }

  function Larger(a: nat, b: nat): nat {
    if a < b then b else a
  }

  function Capped(t: nat): nat {
    if t <= MAX_TICK then t else MAX_TICK
  }

  lemma WrappedOnce(a: nat)
    requires a <= 2 * MAX_TICK
    ensures a % (MAX_TICK + 1) == if a <= MAX_TICK then a else a - MAX_TICK - 1
  {
  }

  /**
   * For 64-bit arguments the computed deadline is the exact one, capped at the greatest tick,
   * iff the plain sum fits 64 bits or the other one saturates. Where it does not, the multiple
   * of the period is lost, and what is left is one period after the missed deadline.
   */
  lemma SourceNextIff(b: MissedTickBehavior, missed: nat, period: nat, now: nat)
    requires 0 < period <= MAX_TICK && missed <= now <= MAX_TICK
    ensures SourceNext(b, missed, period, now) == Capped(NextDeadline(b, missed, period, now))
            <==> b != Skip || AlignedSum(period, now).Some? || missed + period >= MAX_TICK
    ensures b == Skip && AlignedSum(period, now) == None ==>
              SourceNext(b, missed, period, now) == SaturatingAdd(missed, period)
  {
    MultipleBelow(now, period);
    WrappedOnce((now / period) * period + period);
  }

  /** For instance a period of 2^63 that was missed at 0 is armed again in the past. */
  lemma SkipWraps()
    ensures SourceNext(Skip, 0, 0x8000_0000_0000_0000, MAX_TICK) == 0x8000_0000_0000_0000
    ensures Capped(NextDeadline(Skip, 0, 0x8000_0000_0000_0000, MAX_TICK)) == MAX_TICK
  {
    assert MAX_TICK / 0x8000_0000_0000_0000 == 1;
    SourceNextIff(Skip, 0, 0x8000_0000_0000_0000, MAX_TICK);
  }

  lemma MultipleBelow(now: nat, period: nat)
    requires period > 0
    ensures (now / period) * period <= now < (now / period) * period + period
  {
    assert now == period * (now / period) + now % period;
    assert (now / period) * period == period * (now / period);
  }
}
