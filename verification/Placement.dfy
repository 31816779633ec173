/** Where the wheel puts a timer, how ticks move it, and why it fires on time. */
module Placement {
  import opened Powers

  /** The two const generics of the wheel: its constructor accepts no others. */
  datatype Config = Config(slots: nat, levels: nat)
  type Shape = c: Config | c.slots >= 2 && c.levels >= 1 witness Config(2, 1)

  datatype Place = Place(level: nat, slot: nat)

  /**
   * One registered timer. `since` is the tick at which it was inserted, `due` the tick
   * at which the wheel will drain it and `links` how often it has been put into a list.
   */
  datatype Timer = Timer(place: Place, deadline: nat, since: nat, due: nat, links: nat)

  /** Ticks covered by one slot of level k. */
  function Width(c: Shape, k: nat): (w: nat)
    ensures w >= 1
  {
    PowPositive(c.slots, k);
    Pow(c.slots, k)
  }

  lemma WidthStep(c: Shape, k: nat)
    ensures Width(c, k + 1) == c.slots * Width(c, k)
    ensures Width(c, 0) == 1 && Width(c, 1) == c.slots
    ensures Width(c, k) < Width(c, k + 1)
  {
    assert Pow(c.slots, 1) == c.slots * Pow(c.slots, 0);
  }

  lemma WidthMonotone(c: Shape, j: nat, k: nat)
    requires j <= k
    ensures Width(c, j) <= Width(c, k)
  {
    PowMonotone(c.slots, j, k);
  }

  // ---- placement ---------------------------------------------------------------

  /** k is floor(log_slots(delta)), clamped to the top level. */
  predicate IsLevel(c: Shape, delta: nat, k: nat) {
    && k < c.levels
    && (k > 0 ==> Width(c, k) <= delta)
    && (k + 1 < c.levels ==> delta < Width(c, k + 1))
  }

  function LevelOf(c: Shape, delta: nat, from: nat := 0): (k: nat)
    requires from < c.levels
    requires from > 0 ==> Width(c, from) <= delta
    ensures IsLevel(c, delta, k)
    decreases c.levels - from
  {
    if from + 1 < c.levels && delta >= Width(c, from + 1) then LevelOf(c, delta, from + 1) else from
  }

  lemma LevelUnique(c: Shape, delta: nat, j: nat, k: nat)
    requires IsLevel(c, delta, j) && IsLevel(c, delta, k)
    ensures j == k
  {
    if j < k {
      WidthMonotone(c, j + 1, k);
    } else if k < j {
      WidthMonotone(c, k + 1, j);
    }
  }

  /** The list that `choose_slot` picks at tick `now`. */
  function Choose(c: Shape, now: nat, deadline: nat): (p: Place)
    ensures p.level < c.levels && p.slot < c.slots
  {
    if deadline <= now then
      Place(0, (now + 1) % c.slots)
    else
      var k := LevelOf(c, deadline - now);
      Place(k, (deadline / Width(c, k)) % c.slots)
  }

  /**
   * The tick at which an entry inserted at `now` is drained. Only a wheel with a single
   * level can drain an entry before its deadline.
   */
  function FireTick(c: Shape, now: nat, deadline: nat): (t: nat)
    ensures t > now
  {
    if deadline <= now then now + 1
    else if c.levels == 1 then now + 1 + (deadline - now - 1) % c.slots
    else deadline
  }

  /** A wheel is exact for an entry iff it has a second level or the deadline is near. */
  lemma FireTickExact(c: Shape, now: nat, deadline: nat)
    ensures FireTick(c, now, deadline) == (if deadline > now then deadline else now + 1)
            <==> c.levels >= 2 || deadline <= now + c.slots
  {
    if deadline > now && c.levels == 1 {
      var d := deadline - now - 1;
      assert d % c.slots < c.slots;
      if d < c.slots {
        assert d % c.slots == d;
      }
    }
  }

  function Inserted(c: Shape, now: nat, deadline: nat): Timer {
    Timer(Choose(c, now, deadline), deadline, now, FireTick(c, now, deadline), 1)
  }

  // ---- one tick ----------------------------------------------------------------

  /** Where `cascade` re-links a timer. */
  function CascadePlace(c: Shape, now: nat, deadline: nat): (p: Place)
    ensures p.level < c.levels && p.slot < c.slots
  {
    if deadline <= now then Place(0, now % c.slots) else Choose(c, now, deadline)
  }

  function CascadeSlot(c: Shape, now: nat, level: nat): Place {
    Place(level, (now / Width(c, level)) % c.slots)
  }

  function Cascaded(c: Shape, now: nat, level: nat, p: Timer): Timer {
    if p.place == CascadeSlot(c, now, level) then
      p.(place := CascadePlace(c, now, p.deadline), links := p.links + 1)
    else p
  }

  /** All cascades of the tick that moves the wheel to `now`, from `level` upwards. */
  function CascadedFrom(c: Shape, now: nat, level: nat, p: Timer): Timer
    decreases c.levels - level
  {
    if level < c.levels && now % Width(c, level) == 0 then
      CascadedFrom(c, now, level + 1, Cascaded(c, now, level, p))
    else p
  }

  datatype Outcome = Fired | Kept(timer: Timer)

  /** What the tick that moves the wheel to `now` does to one registered timer. */
  function Ticked(c: Shape, now: nat, p: Timer): Outcome {
    var q := CascadedFrom(c, now, 1, p);
    if q.place == Place(0, now % c.slots) then Fired else Kept(q)
  }

  // ---- the invariant -----------------------------------------------------------

  /** Re-links that the level of a timer still allows. */
  function LinksAhead(c: Shape, now: nat, p: Timer): (n: nat)
    ensures n >= p.place.level
  {
    if p.place.level == 0 then 0
    else
      var w := Width(c, p.place.level);
      if p.due / w <= now / w then p.place.level
      else p.place.level + (p.due / w - now / w - 1) / c.slots
  }

  /** The most often a timer may ever be linked: once a level and once a full lap. */
  function LinkBound(c: Shape, p: Timer): nat {
    c.levels + (if p.deadline <= p.since then 0 else (p.deadline - p.since) / Width(c, c.levels))
  }

  /** A timer in a coarse list: its block of ticks has not begun. */
  predicate WaitsCoarsely(c: Shape, now: nat, p: Timer)
    requires 1 <= p.place.level < c.levels
  {
    var w := Width(c, p.place.level);
    && p.due == p.deadline
    && now / w < p.due / w
    && (p.place.level + 1 < c.levels ==> p.due / w <= now / w + c.slots)
    && p.place.slot == (p.due / w) % c.slots
  }

  /** A timer in a level-0 list is due when that list is next drained. */
  predicate WaitsFinely(c: Shape, now: nat, p: Timer) {
    && now < p.due <= now + c.slots
    && p.place.slot == p.due % c.slots
  }

  predicate Bookkept(c: Shape, now: nat, p: Timer) {
    && p.since <= now
    && p.due == FireTick(c, p.since, p.deadline)
    && p.links + LinksAhead(c, now, p) <= LinkBound(c, p)
  }

  /** What holds of every registered timer between two operations at tick `now`. */
  predicate Placed(c: Shape, now: nat, p: Timer) {
    && p.place.level < c.levels && p.place.slot < c.slots
    && Bookkept(c, now, p)
    && (if p.place.level == 0 then WaitsFinely(c, now, p) else WaitsCoarsely(c, now, p))
  }

  // ---- insertion establishes it ------------------------------------------------

  /** A timer placed by its distance waits properly in its level. */
  lemma ChosenWaits(c: Shape, now: nat, p: Timer)
    requires p.deadline > now && p.due == p.deadline
    requires p.place == Choose(c, now, p.deadline)
    ensures p.place.level == 0 && c.levels >= 2 ==> now < p.due < now + c.slots && p.place.slot == p.due % c.slots
    ensures p.place.level >= 1 ==> WaitsCoarsely(c, now, p)
  {
    var delta := p.deadline - now;
    var k := p.place.level;
    WidthStep(c, k);
    if k >= 1 {
      DivAddAtLeast(now, delta, Width(c, k));
      if k + 1 < c.levels {
        DivAddBelow(now, delta, Width(c, k), c.slots);
      }
    }
  }

  /** Levels below the top allow no lap, the top level one per full turn. */
  lemma InsertedAheadBound(c: Shape, now: nat, p: Timer)
    requires p.deadline > now && p.due == p.deadline && p.place == Choose(c, now, p.deadline)
    ensures LinksAhead(c, now, p) <= c.levels - 1 + (p.deadline - now) / Width(c, c.levels)
  {
    var k := p.place.level;
    assert k == 0 ==> LinksAhead(c, now, p) == 0;
    hide LinksAhead;
    hide WaitsCoarsely;
    hide Choose;
    hide Width;
    if k >= 1 {
      ChosenWaits(c, now, p);
      if k + 1 < c.levels {
        NoLapBelowTop(c, now, p);
      } else {
        TopLapBound(c, now, p);
      }
    }
  }

  lemma TopLapBound(c: Shape, now: nat, p: Timer)
    requires p.deadline > now && p.due == p.deadline
    requires 1 <= p.place.level && p.place.level + 1 == c.levels && WaitsCoarsely(c, now, p)
    ensures LinksAhead(c, now, p) <= c.levels - 1 + (p.deadline - now) / Width(c, c.levels)
  {
    var w := Width(c, p.place.level);
    var delta := p.deadline - now;
    AheadBelow(now, delta, w);
    assert now + delta == p.due;
    LapsWithin(c, p.due / w - now / w - 1, delta, w);
    WidthStep(c, p.place.level);
  }

  lemma NoLapBelowTop(c: Shape, now: nat, p: Timer)
    requires 1 <= p.place.level && p.place.level + 1 < c.levels && WaitsCoarsely(c, now, p)
    ensures LinksAhead(c, now, p) == p.place.level
  {
    var w := Width(c, p.place.level);
    DivUnique(p.due / w - now / w - 1, c.slots, 0);
  }

  lemma LapsWithin(c: Shape, ahead: nat, delta: nat, w: nat)
    requires w >= 1 && ahead <= delta / w
    ensures c.slots * w >= 1 && ahead / c.slots <= delta / (c.slots * w)
  {
    DivDiv(delta, w, c.slots);
    DivMonotone(ahead, delta / w, c.slots);
  }

  lemma AheadBelow(x: nat, d: nat, w: nat)
    requires w >= 1
    ensures (x + d) / w <= x / w + 1 + d / w
  {
    assert d == w * (d / w) + d % w;
    DivAddBelow(x, d, w, d / w + 1) by {
      assert (d / w + 1) * w == w * (d / w) + w;
    }
  }

  lemma InsertedPlaced(c: Shape, now: nat, deadline: nat)
    ensures Placed(c, now, Inserted(c, now, deadline))
  {
    var p := Inserted(c, now, deadline);
    if deadline > now {
      if c.levels == 1 {
        SingleLevelSlot(now, deadline, c.slots);
        assert Width(c, 0) == 1;
      } else {
        FarPlaced(c, now, deadline);
      }
    }
  }

  lemma FarPlaced(c: Shape, now: nat, deadline: nat)
    requires c.levels >= 2 && deadline > now
    ensures Placed(c, now, Inserted(c, now, deadline))
  {
    hide LinksAhead;
    hide WaitsCoarsely;
    hide LevelOf;
    hide Width;
    var p := Inserted(c, now, deadline);
    ChosenWaits(c, now, p);
    InsertedAheadBound(c, now, p);
  }

  /** On one level the next drain of a slot is the first congruent tick. */
  lemma SingleLevelSlot(now: nat, deadline: nat, s: nat)
    requires s >= 1 && deadline > now
    ensures (now + 1 + (deadline - now - 1) % s) % s == deadline % s
  {
    var d := deadline - now - 1;
    assert deadline == (now + 1 + d % s) + s * (d / s);
    ModShift(now + 1 + d % s, s, d / s);
  }

  // ---- a tick keeps it ---------------------------------------------------------

  /**
   * Half-way through the tick that moves the wheel to `now`: the levels below `level`
   * have been cascaded and follow the new tick, the others still follow the old one.
   */
  predicate MidTick(c: Shape, now: nat, level: nat, p: Timer)
    requires now >= 1 && level >= 1
  {
    && p.place.level < c.levels && p.place.slot < c.slots
    && if p.place.level == 0 then
         && now <= p.due < now + c.slots && p.place.slot == p.due % c.slots
         && Bookkept(c, now, p)
       else
         var at := if p.place.level < level then now else now - 1;
         WaitsCoarsely(c, at, p) && Bookkept(c, at, p)
  }

  /** An unmoved timer of a cascaded level waits for a later block. */
  lemma MissedCascade(c: Shape, now: nat, level: nat, p: Timer)
    requires now >= 1 && 1 <= level < c.levels && now % Width(c, level) == 0
    requires p.place.level == level && MidTick(c, now, level, p)
    requires p.place != CascadeSlot(c, now, level)
    ensures WaitsCoarsely(c, now, p) && Bookkept(c, now, p)
  {
    var w := Width(c, level);
    DivStep(now - 1, w);
    assert p.due / w != now / w;
    DivMonotone(p.due / w - now / w - 1, p.due / w - (now - 1) / w - 1, c.slots);
  }

  function Recascaded(c: Shape, now: nat, p: Timer): Timer {
    p.(place := CascadePlace(c, now, p.deadline), links := p.links + 1)
  }

  lemma BlockBegins(now: nat, due: nat, w: nat)
    requires w >= 1 && now % w == 0 && due / w == now / w
    ensures now <= due < now + w
  {
    assert now == w * (now / w) + now % w;
    assert due == w * (due / w) + due % w;
  }

  /** A timer whose block begins goes to a finer level. */
  lemma CascadeRefines(c: Shape, now: nat, level: nat, p: Timer)
    requires now >= 1 && 1 <= level < c.levels && now % Width(c, level) == 0
    requires p.place.level == level && MidTick(c, now, level, p)
    requires p.due / Width(c, level) == now / Width(c, level)
    ensures Recascaded(c, now, p).place.level < level
    ensures MidTick(c, now, level + 1, Recascaded(c, now, p))
  {
    BlockBegins(now, p.due, Width(c, level));
    CoarseBudget(c, now, level, p);
    RefinedWaits(c, now, level, Recascaded(c, now, p));
  }

  lemma CoarseBudget(c: Shape, now: nat, level: nat, p: Timer)
    requires now >= 1 && 1 <= level && p.place.level == level && MidTick(c, now, level, p)
    ensures p.since < now && p.links + level <= LinkBound(c, Recascaded(c, now, p))
  {
    assert LinkBound(c, Recascaded(c, now, p)) == LinkBound(c, p);
  }

  lemma RefinedWaits(c: Shape, now: nat, level: nat, q: Timer)
    requires now >= 1 && 1 <= level < c.levels && now <= q.due < now + Width(c, level)
    requires q.due == q.deadline && q.place == CascadePlace(c, now, q.deadline)
    requires q.since <= now && q.due == FireTick(c, q.since, q.deadline)
    requires q.links - 1 + level <= LinkBound(c, q)
    ensures q.place.level < level
    ensures MidTick(c, now, level + 1, q)
  {
    if q.due > now {
      var k := q.place.level;
      if k >= level {
        WidthMonotone(c, level, k);
      }
      ChosenWaits(c, now, q);
      if k >= 1 {
        NoLapBelowTop(c, now, q);
      }
    }
  }

  /** A timer still a full lap away goes back into the list it came from. */
  lemma CascadeLaps(c: Shape, now: nat, level: nat, p: Timer)
    requires now >= 1 && 1 <= level < c.levels && now % Width(c, level) == 0
    requires p.place == CascadeSlot(c, now, level) && MidTick(c, now, level, p)
    requires p.due / Width(c, level) != now / Width(c, level)
    ensures level + 1 == c.levels && Recascaded(c, now, p).place == p.place
    ensures MidTick(c, now, level + 1, Recascaded(c, now, p))
  {
    var w := Width(c, level);
    DivStep(now - 1, w);
    var lap := p.due / w - now / w;
    CongruentApart(now / w, p.due / w, c.slots);
    assert level + 1 == c.levels;
    BlocksApart(now, p.due, w);
    LevelUnique(c, p.deadline - now, level, Recascaded(c, now, p).place.level);
    CongruentModulus(now / w, p.due / w, c.slots);
    OneLapLess(lap, c.slots);
  }

  lemma BlocksApart(now: nat, due: nat, w: nat)
    requires w >= 1 && now % w == 0 && now / w < due / w
    ensures due >= now + w
  {
    assert now == w * (now / w) + now % w;
    assert due == w * (due / w) + due % w;
    MulOrder(now / w + 1, due / w, w);
  }

  lemma CongruentModulus(x: nat, y: nat, s: nat)
    requires s >= 1 && x <= y && x % s == y % s
    ensures (y - x) % s == 0
  {
    CongruentApart(x, y, s);
    MulOrder(x / s, y / s, s);
    DivMonotone(x, y, s);
    MultipleMod(s, y / s - x / s);
  }

  lemma MultipleMod(s: nat, n: nat)
    requires s >= 1
    ensures (s * n) % s == 0
  {
    DivUnique(s * n, s, n);
  }

  lemma OneLapLess(lap: nat, s: nat)
    requires s >= 1 && lap >= s && lap % s == 0
    ensures 1 + (lap - 1) / s == lap / s
  {
    assert lap == s * (lap / s);
    DivUnique(lap - 1, s, lap / s - 1);
  }

  /** One cascade of one timer. */
  lemma CascadeKeeps(c: Shape, now: nat, level: nat, p: Timer)
    requires now >= 1 && 1 <= level < c.levels && now % Width(c, level) == 0
    requires MidTick(c, now, level, p)
    ensures MidTick(c, now, level + 1, Cascaded(c, now, level, p))
  {
    if p.place == CascadeSlot(c, now, level) {
      if p.due / Width(c, level) == now / Width(c, level) {
        CascadeRefines(c, now, level, p);
      } else {
        CascadeLaps(c, now, level, p);
      }
    } else if p.place.level == level {
      MissedCascade(c, now, level, p);
    }
  }

  /** Coarser lists than the last one cascaded see no block begin. */
  lemma CascadesStop(c: Shape, now: nat, level: nat, p: Timer)
    requires now >= 1 && 1 <= level <= c.levels && MidTick(c, now, level, p)
    requires level == c.levels || now % Width(c, level) != 0
    ensures MidTick(c, now, c.levels, p)
  {
    var k := p.place.level;
    if level <= k {
      NotAMultiple(c, now, level, k);
      DivStep(now - 1, Width(c, k));
    }
  }

  lemma NotAMultiple(c: Shape, now: nat, level: nat, k: nat)
    requires level <= k && now % Width(c, level) != 0
    ensures now % Width(c, k) != 0
  {
    PowSplit(c.slots, level, k);
    PowPositive(c.slots, k - level);
    if now % Width(c, k) == 0 {
      MultipleOfProduct(now, Width(c, level), Pow(c.slots, k - level)) by {
        assert Width(c, k) == Pow(c.slots, k - level) * Width(c, level);
      }
    }
  }

  lemma {:induction false} CascadesKeep(c: Shape, now: nat, level: nat, p: Timer)
    requires now >= 1 && 1 <= level <= c.levels && MidTick(c, now, level, p)
    ensures var q := CascadedFrom(c, now, level, p);
            && MidTick(c, now, c.levels, q)
            && q.due == p.due && q.deadline == p.deadline && q.since == p.since
    decreases c.levels - level
  {
    if level < c.levels && now % Width(c, level) == 0 {
      CascadeKeeps(c, now, level, p);
      CascadesKeep(c, now, level + 1, Cascaded(c, now, level, p));
    } else {
      CascadesStop(c, now, level, p);
    }
  }

  /**
   * A tick fires exactly the timers that are due at it, although draining a list never
   * looks at a deadline, and leaves every other timer properly placed.
   */
  lemma TickedExact(c: Shape, now: nat, p: Timer)
    requires now >= 1 && Placed(c, now - 1, p)
    ensures Ticked(c, now, p).Fired? <==> p.due == now
    ensures Ticked(c, now, p).Kept? ==>
              var q := Ticked(c, now, p).timer;
              Placed(c, now, q) && q.due == p.due && q.deadline == p.deadline && q.since == p.since
  {
    CascadesKeep(c, now, 1, p);
    var q := CascadedFrom(c, now, 1, p);
    if q.place.level == 0 && q.due % c.slots == now % c.slots && q.due > now {
      CongruentApart(now, q.due, c.slots);
    }
  }

  // ---- which of two timers was linked later ------------------------------------

  /**
   * Whether the first of two timers is the one linked later, after a step that re-links those
   * with the greater m, n last and none with 0. A step re-links one list, from its head on, so
   * it reverses the order of two timers in it; `later` is how it was before.
   */
  predicate LinkedLater(m: nat, n: nat, later: bool) {
    if m != n then m > n else if m == 0 then later else !later
  }

  /** 1 for the timers that the cascade of `level` moves. */
  function InSlot(c: Shape, now: nat, level: nat, p: Timer): (n: nat)
    ensures n <= 1
  {
    if p.place == CascadeSlot(c, now, level) then 1 else 0
  }

  /** Whether p was linked later than q once all cascades from `level` upwards are done. */
  predicate LaterFrom(c: Shape, now: nat, level: nat, p: Timer, q: Timer, later: bool)
    decreases c.levels - level
  {
    if level < c.levels && now % Width(c, level) == 0 then
      LaterFrom(c, now, level + 1, Cascaded(c, now, level, p), Cascaded(c, now, level, q),
                LinkedLater(InSlot(c, now, level, p), InSlot(c, now, level, q), later))
    else later
  }

  /** The level whose cascade re-links a timer in the tick that moves the wheel to `now`; 0 if none does. */
  function RelinkedAt(c: Shape, now: nat, p: Timer): nat {
    var k := p.place.level;
    if 1 <= k < c.levels && now % Width(c, k) == 0 && p.place == CascadeSlot(c, now, k) then k else 0
  }

  /** The same for the cascades from `level` upwards. */
  function RelinkedFrom(c: Shape, now: nat, level: nat, p: Timer): nat {
    if p.place.level >= level then RelinkedAt(c, now, p) else 0
  }

  /** A cascade moves no timer to a level that is still to be cascaded. */
  lemma NotMovedAgain(c: Shape, now: nat, level: nat, p: Timer)
    requires now >= 1 && 1 <= level < c.levels && now % Width(c, level) == 0
    requires MidTick(c, now, level, p)
    ensures RelinkedFrom(c, now, level + 1, Cascaded(c, now, level, p)) ==
            if InSlot(c, now, level, p) == 1 then 0 else RelinkedFrom(c, now, level + 1, p)
    ensures InSlot(c, now, level, p) == 1 <==> p.place.level == level && RelinkedAt(c, now, p) == level
  {
    hide MidTick;
    hide Width;
    hide Choose;
    if p.place == CascadeSlot(c, now, level) {
      if p.due / Width(c, level) == now / Width(c, level) {
        CascadeRefines(c, now, level, p);
      } else {
        CascadeLaps(c, now, level, p);
      }
    }
  }

  /** Coarser levels than one that does not roll over do not either. */
  lemma NoneRelinked(c: Shape, now: nat, level: nat, p: Timer)
    requires 1 <= level && (level >= c.levels || now % Width(c, level) != 0)
    ensures RelinkedFrom(c, now, level, p) == 0
  {
    if level <= p.place.level < c.levels {
      NotAMultiple(c, now, level, p.place.level);
    }
  }

  lemma {:induction false} LaterFromExact(c: Shape, now: nat, level: nat, p: Timer, q: Timer, later: bool)
    requires now >= 1 && 1 <= level <= c.levels && MidTick(c, now, level, p) && MidTick(c, now, level, q)
    ensures LaterFrom(c, now, level, p, q, later) ==
            LinkedLater(RelinkedFrom(c, now, level, p), RelinkedFrom(c, now, level, q), later)
    decreases c.levels - level
  {
    hide MidTick;
    hide Width;
    hide Cascaded;
    hide InSlot;
    if level < c.levels && now % Width(c, level) == 0 {
      CascadeKeeps(c, now, level, p);
      CascadeKeeps(c, now, level, q);
      NotMovedAgain(c, now, level, p);
      NotMovedAgain(c, now, level, q);
      LaterFromExact(c, now, level + 1, Cascaded(c, now, level, p), Cascaded(c, now, level, q),
                     LinkedLater(InSlot(c, now, level, p), InSlot(c, now, level, q), later));
    } else {
      NoneRelinked(c, now, level, p);
      NoneRelinked(c, now, level, q);
    }
  }

  /**
   * A tick re-links each timer once at most. Those it re-links come later than all others, those
   * of coarser levels later, and those of one list in the reverse of their order before.
   */
  lemma LaterExact(c: Shape, now: nat, p: Timer, q: Timer, later: bool)
    requires now >= 1 && Placed(c, now - 1, p) && Placed(c, now - 1, q)
    ensures LaterFrom(c, now, 1, p, q, later) == LinkedLater(RelinkedAt(c, now, p), RelinkedAt(c, now, q), later)
  {
    hide Width;
    LaterFromExact(c, now, 1, p, q, later);
  }

  // ---- whole lives -------------------------------------------------------------

  /** n ticks of one timer, starting from a wheel at `now`. */
  function Evolved(c: Shape, now: nat, p: Timer, n: nat): Outcome
    decreases n
  {
    if n == 0 then Kept(p)
    else
      match Ticked(c, now + 1, p)
      case Fired => Fired
      case Kept(q) => Evolved(c, now + 1, q, n - 1)
  }

  /** What n ticks leave of a timer. */
  predicate Lasted(c: Shape, now: nat, p: Timer, o: Outcome) {
    match o
    case Fired => p.due <= now
    case Kept(q) =>
      p.due > now && Placed(c, now, q) && q.due == p.due && q.deadline == p.deadline && q.since == p.since
  }

  lemma DueAhead(c: Shape, now: nat, p: Timer)
    requires Placed(c, now, p)
    ensures p.due > now
  {
    if p.place.level >= 1 {
      BlockAhead(now, p.due, Width(c, p.place.level));
    }
  }

  lemma BlockAhead(x: nat, y: nat, w: nat)
    requires w >= 1 && x / w < y / w
    ensures x < y
  {
    if y <= x {
      DivMonotone(y, x, w);
    }
  }

  lemma {:induction false} EvolvedExact(c: Shape, now: nat, p: Timer, n: nat)
    requires Placed(c, now, p)
    ensures Lasted(c, now + n, p, Evolved(c, now, p, n))
    decreases n
  {
    hide Placed;
    hide Ticked;
    DueAhead(c, now, p);
    if n > 0 {
      var o := Ticked(c, now + 1, p);
      assert Lasted(c, now + 1, p, o) by { TickedExact(c, now + 1, p); }
      if o.Kept? {
        EvolvedExact(c, now + 1, o.timer, n - 1);
      }
    }
  }

  /**
   * Exact firing: with at least two levels an entry inserted at `now` is still waiting
   * after n ticks iff its deadline (or the next tick, if that has passed) lies beyond,
   * however many turns of the top level that takes.
   */
  lemma FiresExactly(c: Shape, now: nat, deadline: nat, n: nat)
    requires c.levels >= 2
    ensures Evolved(c, now, Inserted(c, now, deadline), n).Fired?
            <==> now + n >= (if deadline > now then deadline else now + 1)
  {
    InsertedPlaced(c, now, deadline);
    EvolvedExact(c, now, Inserted(c, now, deadline), n);
    FireTickExact(c, now, deadline);
  }

  /**
   * How often a timer has been linked after n ticks, the re-links of the tick that drains it
   * included.
   */
  function LinksMade(c: Shape, now: nat, p: Timer, n: nat): nat
    decreases n
  {
    if n == 0 then p.links
    else
      var q := CascadedFrom(c, now + 1, 1, p);
      if Ticked(c, now + 1, p).Fired? then q.links else LinksMade(c, now + 1, q, n - 1)
  }

  lemma CascadesWithinBound(c: Shape, now: nat, p: Timer)
    requires now >= 1 && Placed(c, now - 1, p)
    ensures CascadedFrom(c, now, 1, p).links <= LinkBound(c, p)
  {
    CascadesKeep(c, now, 1, p);
  }

  lemma {:induction false} LinksWithinBound(c: Shape, now: nat, p: Timer, n: nat)
    requires Placed(c, now, p)
    ensures LinksMade(c, now, p, n) <= LinkBound(c, p)
    decreases n
  {
    if n > 0 {
      CascadesWithinBound(c, now + 1, p);
      TickedExact(c, now + 1, p);
      if Ticked(c, now + 1, p).Kept? {
        LinksWithinBound(c, now + 1, Ticked(c, now + 1, p).timer, n - 1);
      }
    }
  }

  /** The work of one entry over its whole life: at most one link per level and one per full lap. */
  lemma LinkedAtMost(c: Shape, now: nat, deadline: nat, n: nat)
    ensures LinksMade(c, now, Inserted(c, now, deadline), n)
            <= c.levels + (if deadline <= now then 0 else (deadline - now) / Width(c, c.levels))
  {
    InsertedPlaced(c, now, deadline);
    LinksWithinBound(c, now, Inserted(c, now, deadline), n);
  }

  /** Before the first turn of level 0 is over a timer in list (1, 1) is not touched; then it is moved and drained. */
  lemma {:induction false} LinkedTwice(c: Shape, t: nat, p: Timer)
    requires c.levels == 2 && t < c.slots && p == Timer(Place(1, 1), c.slots, 0, c.slots, 1)
    ensures LinksMade(c, t, p, c.slots - t) == 2
    decreases c.slots - t
  {
    var s := c.slots;
    WidthStep(c, 0);
    var q := CascadedFrom(c, t + 1, 1, p);
    if t + 1 < s {
      DivUnique(t + 1, s, 0);
      assert (t + 1) % s == t + 1;
      assert q == p;
      LinkedTwice(c, t + 1, p);
    } else {
      DivUnique(s, s, 1);
      assert s % s == 0 && 1 % s == 1;
      assert q == CascadedFrom(c, s, 2, Cascaded(c, s, 1, p)) == Cascaded(c, s, 1, p);
    }
  }

  lemma InsertedOneTurnAhead(c: Shape)
    requires c.levels == 2
    ensures Inserted(c, 0, c.slots) == Timer(Place(1, 1), c.slots, 0, c.slots, 1)
  {
    hide LevelOf;
    WidthStep(c, 0);
    LevelUnique(c, c.slots, 1, LevelOf(c, c.slots));
    DivUnique(c.slots, c.slots, 1);
    assert 1 % c.slots == 1;
  }

  lemma NoFullLap(c: Shape)
    requires c.levels == 2
    ensures c.slots / Width(c, 2) == 0
  {
    WidthStep(c, 1);
    DivUnique(c.slots, Width(c, 2), 0);
  }

  /** The bound is reached, in the draining tick: two levels, one full turn of the finest ahead. */
  lemma LinkedThatOften(c: Shape)
    requires c.levels == 2
    ensures LinksMade(c, 0, Inserted(c, 0, c.slots), c.slots) == 2 == c.levels + c.slots / Width(c, c.levels)
    ensures Evolved(c, 0, Inserted(c, 0, c.slots), c.slots).Fired?
  {
    hide Width;
    hide LinksMade;
    hide Evolved;
    FiresExactly(c, 0, c.slots, c.slots);
    NoFullLap(c);
    InsertedOneTurnAhead(c);
    LinkedTwice(c, 0, Inserted(c, 0, c.slots));
  }

  // ---- what a list head says about its list --------------------------------------

  /** A deadline less than one turn of the top level ahead. */
  predicate WithinLap(c: Shape, now: nat, p: Timer) {
    p.deadline < now + Width(c, c.levels)
  }

  /** With two or more levels the due tick can be read off the deadline. */
  lemma DueFromDeadline(c: Shape, now: nat, p: Timer)
    requires c.levels >= 2 && Placed(c, now, p)
    ensures p.due == if p.deadline > now then p.deadline else now + 1
  {
    DueAhead(c, now, p);
    FireTickExact(c, p.since, p.deadline);
  }

  /** Within one lap all entries of a coarse list are due in the same block of ticks. */
  lemma SameListSameBlock(c: Shape, now: nat, p: Timer, q: Timer)
    requires Placed(c, now, p) && Placed(c, now, q) && p.place == q.place
    requires WithinLap(c, now, p) && WithinLap(c, now, q)
    ensures p.due / Width(c, p.place.level) == q.due / Width(c, p.place.level)
  {
    hide Placed;
    hide Width;
    if p.place.level == 0 {
      FineWindow(c, now, p);
      FineWindow(c, now, q);
      SameWithin(now, p.due, q.due, c.slots);
    } else {
      var w := Width(c, p.place.level);
      CoarseWindow(c, now, p);
      CoarseWindow(c, now, q);
      SameWithin(now / w, p.due / w, q.due / w, c.slots);
    }
  }

  lemma FineWindow(c: Shape, now: nat, p: Timer)
    requires Placed(c, now, p) && p.place.level == 0
    ensures now < p.due <= now + c.slots && p.place.slot == p.due % c.slots && Width(c, 0) == 1
  {
    WidthStep(c, 0);
  }

  lemma CoarseWindow(c: Shape, now: nat, p: Timer)
    requires Placed(c, now, p) && WithinLap(c, now, p) && p.place.level >= 1
    ensures var w := Width(c, p.place.level);
            now / w < p.due / w <= now / w + c.slots && p.place.slot == (p.due / w) % c.slots
  {
    hide Width;
    hide Bookkept;
    DueAhead(c, now, p);
    LapBlocks(c, now, p.place.level, p.due);
  }

  lemma LapBlocks(c: Shape, now: nat, k: nat, due: nat)
    requires 1 <= k < c.levels && now < due
    requires k + 1 < c.levels ==> due / Width(c, k) <= now / Width(c, k) + c.slots
    requires due < now + Width(c, c.levels)
    ensures due / Width(c, k) <= now / Width(c, k) + c.slots
  {
    if k + 1 == c.levels {
      WidthStep(c, k);
      DivAddBelow(now, due - now, Width(c, k), c.slots);
    }
  }

  /** Congruent numbers in one window of s are equal. */
  lemma SameWithin(x: nat, a: nat, b: nat, s: nat)
    requires s >= 1 && x < a <= x + s && x < b <= x + s && a % s == b % s
    ensures a == b
  {
    if a < b {
      CongruentApart(a, b, s);
    } else if b < a {
      CongruentApart(b, a, s);
    }
  }

  /** So the deadline of one entry overstates another's due tick by less than a slot. */
  lemma HeadNearList(c: Shape, now: nat, p: Timer, head: Timer)
    requires c.levels >= 2 && Placed(c, now, p) && Placed(c, now, head) && p.place == head.place
    requires WithinLap(c, now, p) && WithinLap(c, now, head)
    ensures head.deadline < p.due + Width(c, p.place.level)
  {
    hide Placed;
    SameListSameBlock(c, now, p, head);
    DueFromDeadline(c, now, head);
    SameBlockNear(p.due, head.due, Width(c, p.place.level));
  }

  lemma SameBlockNear(a: nat, b: nat, w: nat)
    requires w >= 1 && a / w == b / w
    ensures b < a + w
  {
    assert a == w * (a / w) + a % w;
    assert b == w * (b / w) + b % w;
  }

  /** Two deadlines that share a coarse list, although they are due at different ticks. */
  lemma EightAndNine()
    ensures var c := Config(8, 2);
            var early := Inserted(c, 0, 8);
            var late := Inserted(c, 0, 9);
            early.place == late.place == Place(1, 1) && early.due == 8 < late.due
  {
    var c := Config(8, 2);
    WidthStep(c, 0);
    WidthStep(c, 1);
    assert LevelOf(c, 8) == 1 && LevelOf(c, 9) == 1;
  }
}
