/** `Sleep` and `Timeout`: futures that keep one entry each in a shared wheel. */
module TimerFutures {
  import opened Wrappers
  import opened Placement
  import opened WheelHistory
  import opened TimerWheel

  /**
   * What one future has at stake in the wheel: its entry, whether it believes the entry
   * to be registered, the tick at which the wheel will drain it, and the waker of the
   * last poll.
   */
  datatype Stake = Stake(entry: TimerEntry, registered: bool, fireAt: nat, polled: Waker)

  /**
   * What the future believes fits the wheel. While it is registered and the tick at which the
   * wheel drains it has not come, the wheel holds its entry with a waker equivalent to that of
   * the last poll; otherwise the wheel holds no pointer to it.
   */
  ghost predicate Fits(wheel: Inner, s: Stake)
    reads wheel`currentTick, wheel`at, s.entry
  {
    && (s.entry in wheel.at <==> s.registered && wheel.currentTick < s.fireAt)
    && (s.entry in wheel.at ==>
          && wheel.at[s.entry].due == s.fireAt
          && s.entry.waker.Some? && WillWake(s.entry.waker.value, s.polled))
    && (s.entry !in wheel.at ==> s.entry.prevNext == Detached)
    && (s.registered && wheel.shape.levels >= 2 ==> s.fireAt == s.entry.deadline)
  }

  /** The future is pending and believes that it is registered, but nothing will wake it. */
  ghost predicate Stranded(wheel: Inner, s: Stake)
    reads wheel`currentTick, wheel`at, s.entry`deadline
  {
    s.registered && s.entry !in wheel.at && wheel.currentTick < s.entry.deadline
  }

  /** That is so iff the wheel has drained it early, which takes a single level. */
  lemma StrandedIff(wheel: Inner, s: Stake)
    requires Fits(wheel, s)
    ensures Stranded(wheel, s) <==> s.registered && s.fireAt <= wheel.currentTick < s.entry.deadline
    ensures Stranded(wheel, s) ==> wheel.shape.levels == 1
  {
  }

  /** At tick t an entry registered at `since` has been drained before its deadline. */
  predicate DrainedEarly(c: Shape, since: nat, deadline: nat, t: nat) {
    FireTick(c, since, deadline) <= t < deadline
  }

  /** A registration leads there at some tick iff there is one level and the deadline is more than a turn away. */
  lemma StrandsIff(c: Shape, since: nat, deadline: nat)
    requires since < deadline
    ensures (exists t: nat :: DrainedEarly(c, since, deadline, t)) <==> c.levels == 1 && deadline > since + c.slots
  {
    FireTickExact(c, since, deadline);
    if FireTick(c, since, deadline) < deadline {
      assert DrainedEarly(c, since, deadline, FireTick(c, since, deadline));
    } else if t: nat :| DrainedEarly(c, since, deadline, t) {
      assert false;
    }
  }

  /**
   * A tick of the wheel: whose entry it drains is due by the wheel's account, and a waker
   * equivalent to the last one polled with is called; all others stay armed.
   */
  method Tick(wheel: Inner, ghost stakes: set<Stake>)
    requires wheel.Valid() && forall s :: s in stakes ==> Fits(wheel, s)
    modifies wheel`currentTick, wheel`pending, wheel`at, wheel`rank, wheel`woken, wheel`drained, wheel.heads
    modifies wheel.at.Keys`next, wheel.at.Keys`prevNext, wheel.at.Keys`waker
    ensures wheel.Valid() && wheel.currentTick == old(wheel.currentTick) + 1
    ensures forall s :: s in stakes ==> Fits(wheel, s)
    ensures forall e :: e in wheel.at ==> e in old(wheel.at)
    ensures old(wheel.woken) <= wheel.woken
    ensures forall s :: s in stakes && s.entry in old(wheel.at) && s.entry !in wheel.at ==>
              && wheel.currentTick == s.fireAt
              && exists w :: w in wheel.woken[|old(wheel.woken)|..] && WillWake(w, s.polled)
  {
    hide Inner.Linked;
    hide AllPlaced;
    hide Placed;
    hide WheelTick;
    hide AgendaTick;
    hide WakeCalls;
    ghost var wakers := wheel.WakerMap();
    ghost var order := wheel.AdvanceOne();
    assert wheel.woken[|old(wheel.woken)|..] == WakeCalls(order, wakers);
    InAtIff(wheel.at);
    InAtIff(old(wheel.at));
    forall s | s in stakes
      ensures Fits(wheel, s)
      ensures s.entry in old(wheel.at) && s.entry !in wheel.at ==>
                && wheel.currentTick == s.fireAt
                && exists w :: w in wheel.woken[|old(wheel.woken)|..] && WillWake(w, s.polled)
    {
      assert old(Fits(wheel, s));
      if s.entry in old(wheel.at) && s.entry !in wheel.at {
        assert s.entry in DueAt(old(DueMap(wheel.at)), wheel.currentTick);
        assert s.entry in multiset(order);
        WakeCallsContain(order, s.entry, wakers);
      }
    }
  }

  /** Any number of ticks, made by a driver while no future holds the wheel's lock. */
  method Drive(wheel: Inner, n: nat, ghost stakes: set<Stake>)
    requires wheel.Valid() && forall s :: s in stakes ==> Fits(wheel, s)
    modifies wheel`currentTick, wheel`pending, wheel`at, wheel`rank, wheel`woken, wheel`drained, wheel.heads
    modifies wheel.at.Keys`next, wheel.at.Keys`prevNext, wheel.at.Keys`waker
    ensures wheel.Valid() && wheel.currentTick == old(wheel.currentTick) + n
    ensures forall s :: s in stakes ==> Fits(wheel, s)
    ensures forall e :: e in wheel.at ==> e in old(wheel.at)
  {
    hide Inner.Valid;
    hide Fits;
    for i := 0 to n
      invariant wheel.Valid() && wheel.currentTick == old(wheel.currentTick) + i
      invariant forall s :: s in stakes ==> Fits(wheel, s)
      invariant forall e :: e in wheel.at ==> e in old(wheel.at)
    {
      Tick(wheel, stakes);
    }
  }

  /** `remove` frees one entry and leaves the stakes of all others alone. */
  method Deregister(wheel: Inner, entry: TimerEntry, ghost others: set<Stake>)
    requires wheel.Valid() && (entry in wheel.at || entry.prevNext == Detached)
    modifies wheel`pending, wheel`at, wheel.heads, wheel.at.Keys`next, wheel.at.Keys`prevNext
    ensures wheel.Valid() && wheel.at == old(wheel.at) - {entry} && entry.prevNext == Detached
    ensures forall s :: s in others && s.entry != entry && old(Fits(wheel, s)) ==> Fits(wheel, s)
  {
    hide Placed;
    wheel.Remove(entry);
    forall s | s in others && s.entry != entry && old(Fits(wheel, s))
      ensures Fits(wheel, s)
    {
      assert s.entry in wheel.at <==> s.entry in old(wheel.at);
    }
  }

  /**
   * The registering half of a poll, with the wheel lock held and the deadline ahead:
   * store the waker unless an equivalent one is there, and insert the entry once.
   */
  method Register(wheel: Inner, entry: TimerEntry, registered: bool, waker: Waker, ghost s: Stake,
                  ghost others: set<Stake>)
    returns (ghost armed: Stake)
    requires wheel.Valid() && Fits(wheel, s) && s.entry == entry && s.registered == registered
    requires wheel.currentTick < entry.deadline
    modifies wheel`pending, wheel`at, wheel`rank, wheel.heads, wheel.at.Keys`next, wheel.at.Keys`prevNext
    modifies entry`next, entry`prevNext, entry`waker
    ensures wheel.Valid() && Fits(wheel, armed)
    ensures forall e :: e in wheel.at ==> e in old(wheel.at) || e == entry
    ensures armed == Stake(entry, true, if registered then s.fireAt
                           else FireTick(wheel.shape, wheel.currentTick, entry.deadline), waker)
    ensures forall x :: x in others && x.entry != entry && old(Fits(wheel, x)) ==> Fits(wheel, x)
  {
    hide Placed;
    hide LinkedLast;
    if entry.waker == None || !WillWake(entry.waker.value, waker) {
      entry.waker := Some(waker);
    }
    armed := Stake(entry, true, if registered then s.fireAt
                   else FireTick(wheel.shape, wheel.currentTick, entry.deadline), waker);
    if !registered {
      FireTickExact(wheel.shape, wheel.currentTick, entry.deadline);
      wheel.Insert(entry);
    }
  }

  class Sleep {
    const wheel: Inner
    const entry: TimerEntry
    var registered: bool
    ghost var fireAt: nat
    ghost var polled: Waker

    ghost function Held(): Stake
      reads this
    {
      Stake(entry, registered, fireAt, polled)
    }

    ghost predicate Valid()
      reads this, wheel`currentTick, wheel`at, entry
    {
      Fits(wheel, Held())
    }

    constructor (wheel: Inner, deadline: nat)
      requires wheel.Valid()
      ensures this.wheel == wheel && fresh(entry) && entry.deadline == deadline && !registered && Valid()
    {
      this.wheel := wheel;
      this.entry := new TimerEntry(deadline);
      registered := false;
      fireAt, polled := 0, Waker(0, 0);
    }

    /**
     * Ready iff the wheel has reached the deadline, and then the wheel holds no pointer
     * to the entry. Otherwise the entry is armed with a waker equivalent to this one, unless
     * the wheel has drained it early: it is never registered a second time.
     */
    method Poll(waker: Waker, ghost others: set<Stake>) returns (ready: bool)
      requires wheel.Valid() && Valid()
      modifies this`registered, this`fireAt, this`polled
      modifies wheel`pending, wheel`at, wheel`rank, wheel.heads, wheel.at.Keys`next, wheel.at.Keys`prevNext
      modifies entry`next, entry`prevNext, entry`waker
      ensures wheel.Valid() && Valid()
      ensures forall e :: e in wheel.at ==> e in old(wheel.at) || e == entry
      ensures ready <==> wheel.currentTick >= entry.deadline
      ensures ready ==> !registered && entry !in wheel.at && entry.prevNext == Detached
      ensures !ready ==> registered && polled == waker
      ensures !ready ==> fireAt == if old(registered) then old(fireAt)
                                   else FireTick(wheel.shape, wheel.currentTick, entry.deadline)
      ensures !ready ==> (entry in wheel.at <==> wheel.currentTick < fireAt)
      ensures !ready && entry in wheel.at ==> wheel.at[entry].due == fireAt
      ensures !ready && wheel.shape.levels >= 2 ==> entry in wheel.at && fireAt == entry.deadline
      ensures forall x :: x in others && x.entry != entry && old(Fits(wheel, x)) ==> Fits(wheel, x)
    {
      hide Inner.Linked;
      hide AllPlaced;
      hide Placed;
      if wheel.currentTick >= entry.deadline {
        Deregister(wheel, entry, others);
        registered := false;
        return true;
      }
      ghost var armed := Register(wheel, entry, registered, waker, Held(), others);
      registered := true;
      fireAt, polled := armed.fireAt, waker;
      return false;
    }

    /** Re-arm with a new deadline; the wheel forgets the old registration. */
    method Reset(deadline: nat, ghost others: set<Stake>)
      requires wheel.Valid() && Valid()
      modifies this`registered, wheel`pending, wheel`at, wheel.heads
      modifies wheel.at.Keys`next, wheel.at.Keys`prevNext, entry
      ensures wheel.Valid() && Valid()
      ensures !registered && entry !in wheel.at && entry.prevNext == Detached
      ensures entry.deadline == deadline && entry.waker == None && entry.next == null
      ensures forall x :: x in others && x.entry != entry && old(Fits(wheel, x)) ==> Fits(wheel, x)
    {
      hide Inner.Linked;
      hide AllPlaced;
      hide Placed;
      Deregister(wheel, entry, others);
      entry.deadline, entry.waker, entry.next, entry.prevNext := deadline, None, null, Detached;
      registered := false;
    }

    /** After a drop the wheel holds no pointer to the entry. */
    method Drop(ghost others: set<Stake>)
      requires wheel.Valid() && Valid()
      modifies this`registered, wheel`pending, wheel`at, wheel.heads
      modifies wheel.at.Keys`next, wheel.at.Keys`prevNext
      ensures wheel.Valid() && Valid()
      ensures !registered && entry !in wheel.at && entry.prevNext == Detached
      ensures forall x :: x in others && x.entry != entry && old(Fits(wheel, x)) ==> Fits(wheel, x)
    {
      hide Inner.Linked;
      hide AllPlaced;
      hide Placed;
      Deregister(wheel, entry, others);
      registered := false;
    }
  }

  /**
   * On a wheel of 8 slots and one level a sleep of 9 ticks is drained in the first tick, and
   * polling it then leaves it pending and in no list: nothing will wake it.
   */
  method Strand() returns (sleep: Sleep)
    ensures sleep.Valid() && Stranded(sleep.wheel, sleep.Held())
    ensures sleep.wheel.currentTick == 1 && sleep.entry.deadline == 9
  {
    hide Inner.Valid;
    hide Fits;
    var wheel := new Inner(Config(8, 1));
    sleep := new Sleep(wheel, 9);
    var ready := sleep.Poll(Waker(0, 0), {});
    assert FireTick(wheel.shape, 0, 9) == 1;
    Tick(wheel, {sleep.Held()});
    ready := sleep.Poll(Waker(0, 0), {});
  }

  datatype TimedOut = TimedOut

  /** `Timeout`: a future raced against an entry in the wheel. */
  class Timeout<V> {
    const wheel: Inner
    const entry: TimerEntry
    var registered: bool
    ghost var fireAt: nat
    ghost var polled: Waker

    ghost function Held(): Stake
      reads this
    {
      Stake(entry, registered, fireAt, polled)
    }

    ghost predicate Valid()
      reads this, wheel`currentTick, wheel`at, entry
    {
      Fits(wheel, Held())
    }

    constructor (wheel: Inner, deadline: nat)
      requires wheel.Valid()
      ensures this.wheel == wheel && fresh(entry) && entry.deadline == deadline && !registered && Valid()
    {
      this.wheel := wheel;
      this.entry := new TimerEntry(deadline);
      registered := false;
      fireAt, polled := 0, Waker(0, 0);
    }

    /**
     * `inner` is what polling the wrapped future gave. A finished future wins even when
     * the deadline has passed; pending means armed, unless the wheel has drained the entry
     * early, and any result leaves no pointer.
     */
    method Poll(inner: Option<V>, waker: Waker, ghost others: set<Stake>) returns (r: Option<Result<V, TimedOut>>)
      requires wheel.Valid() && Valid()
      modifies this`registered, this`fireAt, this`polled
      modifies wheel`pending, wheel`at, wheel`rank, wheel.heads, wheel.at.Keys`next, wheel.at.Keys`prevNext
      modifies entry`next, entry`prevNext, entry`waker
      ensures wheel.Valid() && Valid()
      ensures r == match inner
                   case Some(v) => Some(Ok(v))
                   case None => if wheel.currentTick >= entry.deadline then Some(Err(TimedOut)) else None
      ensures r.Some? ==> !registered && entry !in wheel.at && entry.prevNext == Detached
      ensures r == None ==> registered && polled == waker
      ensures r == None ==> fireAt == if old(registered) then old(fireAt)
                                      else FireTick(wheel.shape, wheel.currentTick, entry.deadline)
      ensures r == None ==> (entry in wheel.at <==> wheel.currentTick < fireAt)
      ensures r == None && entry in wheel.at ==> wheel.at[entry].due == fireAt
      ensures r == None && wheel.shape.levels >= 2 ==> entry in wheel.at && fireAt == entry.deadline
      ensures forall x :: x in others && x.entry != entry && old(Fits(wheel, x)) ==> Fits(wheel, x)
    {
      hide Inner.Linked;
      hide AllPlaced;
      hide Placed;
      if inner.Some? {
        Deregister(wheel, entry, others);
        registered := false;
        return Some(Ok(inner.value));
      }
      if wheel.currentTick >= entry.deadline {
        Deregister(wheel, entry, others);
        registered := false;
        return Some(Err(TimedOut));
      }
      ghost var armed := Register(wheel, entry, registered, waker, Held(), others);
      registered := true;
      fireAt, polled := armed.fireAt, waker;
      return None;
    }

    method Drop(ghost others: set<Stake>)
      requires wheel.Valid() && Valid()
      modifies this`registered, wheel`pending, wheel`at, wheel.heads
      modifies wheel.at.Keys`next, wheel.at.Keys`prevNext
      ensures wheel.Valid() && Valid()
      ensures !registered && entry !in wheel.at && entry.prevNext == Detached
      ensures forall x :: x in others && x.entry != entry && old(Fits(wheel, x)) ==> Fits(wheel, x)
    {
      hide Inner.Linked;
      hide AllPlaced;
      hide Placed;
      Deregister(wheel, entry, others);
      registered := false;
    }
  }
}
