/**
 * The wheel itself: levels x slots intrusive lists threaded through the entries, where
 * every entry remembers the cell that points at it.
 */
module TimerWheel {
  import opened Wrappers
  import opened Placement
  import opened WheelHistory

  /** A waker: the task it wakes, and which of that task's handles it is. */
  datatype Waker = Waker(task: nat, handle: nat)

  predicate WillWake(a: Waker, b: Waker) {
    a.task == b.task
  }

  /** What can point at an entry: nothing, a slot head, or another entry's `next`. */
  datatype Cell = Detached | HeadCell(place: Place) | NextCell(entry: TimerEntry)

  class TimerEntry {
    var deadline: nat
    var waker: Option<Waker>
    var next: TimerEntry?
    var prevNext: Cell

    constructor (deadline: nat)
      ensures this.deadline == deadline && waker == None && next == null && prevNext == Detached
    {
      this.deadline := deadline;
      waker := None;
      next := null;
      prevNext := Detached;
    }
  }

  /** The wake calls that draining the entries of l in this order makes. */
  ghost function WakeCalls(l: seq<TimerEntry>, wakers: map<TimerEntry, Option<Waker>>): seq<Waker> {
    if l == [] then []
    else
      var e := l[|l| - 1];
      WakeCalls(l[..|l| - 1], wakers) + if e in wakers && wakers[e].Some? then [wakers[e].value] else []
  }

  lemma NoWakeCalls(wakers: map<TimerEntry, Option<Waker>>)
    ensures WakeCalls([], wakers) == []
  {
  }

  lemma WakeCallsAppend(l: seq<TimerEntry>, e: TimerEntry, wakers: map<TimerEntry, Option<Waker>>)
    ensures WakeCalls(l + [e], wakers)
            == WakeCalls(l, wakers) + if e in wakers && wakers[e].Some? then [wakers[e].value] else []
  {
    assert (l + [e])[..|l|] == l;
  }

  /** A detached list that starts at `cursor` and holds `rest`, not all of it in order. */
  ghost predicate Chain(cursor: TimerEntry?, rest: set<TimerEntry>, rank: map<TimerEntry, int>)
    reads rest
  {
    && rest <= rank.Keys
    && (cursor != null ==> cursor in rest)
    && (forall e {:trigger ChainedAt(cursor, rest, rank, e)} :: e in rest ==> ChainedAt(cursor, rest, rank, e))
  }

  ghost predicate ChainedAt(cursor: TimerEntry?, rest: set<TimerEntry>, rank: map<TimerEntry, int>, e: TimerEntry)
    requires rest <= rank.Keys && e in rest
    reads rest
  {
    && (e.next != null ==> e.next in rest && e.next.prevNext == NextCell(e))
    && (e == cursor ==> e.prevNext.NextCell? ==> e.prevNext.entry !in rest)
    && (e != cursor ==>
          && e.prevNext.NextCell?
          && var q := e.prevNext.entry; q in rest && q.next == e && rank[q] < rank[e])
  }

  /** Below every rank there is: what the next entry to be linked gets. */
  ghost function Below(rank: map<TimerEntry, int>, entries: set<TimerEntry>): (r: int)
    requires entries <= rank.Keys
    ensures forall e :: e in entries ==> r < rank[e]
  {
    if entries == {} then 0
    else
      var e :| e in entries;
      var r := Below(rank, entries - {e});
      assert forall x :: x in entries ==> x == e || x in entries - {e};
      if rank[e] <= r then rank[e] - 1 else r
  }

  /** In the order in which the entries were linked, the latest first. */
  ghost predicate LatestFirst(order: seq<TimerEntry>, rank: map<TimerEntry, int>) {
    && (forall e :: e in order ==> e in rank)
    && (forall i, j :: 0 <= i < j < |order| ==> rank[order[i]] < rank[order[j]])
  }

  /** All of `order` were linked after all of `rest`. */
  ghost predicate AllBefore(order: seq<TimerEntry>, rest: set<TimerEntry>, rank: map<TimerEntry, int>) {
    forall e, x :: e in order && x in rest && e in rank && x in rank ==> rank[e] < rank[x]
  }

  lemma NoneLatest(rest: set<TimerEntry>, rank: map<TimerEntry, int>)
    ensures LatestFirst([], rank) && AllBefore([], rest, rank)
  {
  }

  lemma OneMoreLatest(order: seq<TimerEntry>, node: TimerEntry, rest: set<TimerEntry>, rank: map<TimerEntry, int>)
    requires LatestFirst(order, rank) && AllBefore(order, rest, rank) && node in rest && rest <= rank.Keys
    requires forall e :: e in rest && e != node ==> rank[node] < rank[e]
    ensures LatestFirst(order + [node], rank) && AllBefore(order + [node], rest - {node}, rank)
  {
    forall i, j | 0 <= i < j < |order| + 1
      ensures rank[(order + [node])[i]] < rank[(order + [node])[j]]
    {
      assert order[i] in order;
    }
  }

  lemma InRanks(cursor: TimerEntry?, rest: set<TimerEntry>, rank: map<TimerEntry, int>)
    requires Chain(cursor, rest, rank)
    ensures rest <= rank.Keys
  {
  }

  /** The first entry of a list is the one linked last. */
  lemma FirstIsLatest(cursor: TimerEntry, rest: set<TimerEntry>, rank: map<TimerEntry, int>)
    requires Chain(cursor, rest, rank) && cursor in rest
    ensures forall e :: e in rest && e != cursor ==> rank[cursor] < rank[e]
  {
    var e := LeastRank(rest, rank);
    assert ChainedAt(cursor, rest, rank, e);
    assert e == cursor;
    forall x | x in rest && x != cursor
      ensures rank[cursor] < rank[x]
    {
      assert ChainedAt(cursor, rest, rank, x);
    }
  }

  lemma LeastRank(rest: set<TimerEntry>, rank: map<TimerEntry, int>) returns (e: TimerEntry)
    requires rest != {} && rest <= rank.Keys
    ensures e in rest && forall x :: x in rest ==> rank[e] <= rank[x]
    decreases rest
  {
    e :| e in rest;
    if rest != {e} {
      var f := LeastRank(rest - {e}, rank);
      if rank[f] < rank[e] {
        e := f;
      }
    }
  }

  /** A list without a first entry is empty, because ranks only grow along it. */
  lemma ChainEnds(rest: set<TimerEntry>, rank: map<TimerEntry, int>)
    requires Chain(null, rest, rank)
    ensures rest == {}
  {
    if rest != {} {
      var e := LeastRank(rest, rank);
      ChainedBehind(e, rest, rank);
      assert false;
    }
  }

  lemma ChainedBehind(e: TimerEntry, rest: set<TimerEntry>, rank: map<TimerEntry, int>)
    requires Chain(null, rest, rank) && e in rest
    ensures exists q :: q in rest && rank[q] < rank[e]
  {
    assert ChainedAt(null, rest, rank, e);
  }

  lemma MoveOne(all: set<TimerEntry>, rest: set<TimerEntry>, e: TimerEntry)
    requires e in rest && rest <= all
    ensures (all - rest) + {e} == all - (rest - {e})
  {
  }

  ghost predicate Apart(s: set<TimerEntry>, at: map<TimerEntry, Timer>) {
    forall e :: e in s ==> e !in at
  }

  lemma FewerApart(s: set<TimerEntry>, at: map<TimerEntry, Timer>, e: TimerEntry)
    requires Apart(s, at)
    ensures Apart(s - {e}, at)
  {
  }

  lemma RecascadedTo(c: Shape, now: nat, p: Timer)
    ensures Recascaded(c, now, p).place == CascadePlace(c, now, p.deadline)
    ensures Recascaded(c, now, p).deadline == p.deadline
  {
  }

  lemma NotAmong(s: set<TimerEntry>, at: map<TimerEntry, Timer>, e: TimerEntry)
    requires Apart(s, at) && e in s
    ensures e !in at.Keys
  {
  }

  lemma RemovedSize(at: map<TimerEntry, Timer>, gone: set<TimerEntry>)
    requires gone <= at.Keys
    ensures |at - gone| == |at| - |gone|
  {
    assert (at - gone).Keys == at.Keys - gone;
    assert |at.Keys| == |at| && |(at - gone).Keys| == |at - gone|;
  }

  /** The entries that are due by tick t, and the due ticks of the others. */
  ghost function DueBy(at: map<TimerEntry, Timer>, t: nat): set<TimerEntry> {
    set e | e in at && at[e].due <= t
  }

  ghost function DueAfter(at: map<TimerEntry, Timer>, t: nat): map<TimerEntry, nat> {
    map e | e in at && at[e].due > t :: at[e].due
  }

  ghost predicate InDueOrder(order: seq<TimerEntry>, at: map<TimerEntry, Timer>) {
    && (forall e :: e in order ==> e in at)
    && forall i, j :: 0 <= i < j < |order| ==> at[order[i]].due <= at[order[j]].due
  }

  lemma {:induction false} WakeCallsConcat(
      l: seq<TimerEntry>, m: seq<TimerEntry>, wakers: map<TimerEntry, Option<Waker>>)
    ensures WakeCalls(l + m, wakers) == WakeCalls(l, wakers) + WakeCalls(m, wakers)
    decreases |m|
  {
    if m == [] {
      assert l + m == l;
    } else {
      var k := |m| - 1;
      assert (l + m)[..|l + m| - 1] == l + m[..k];
      WakeCallsConcat(l, m[..k], wakers);
    }
  }

  lemma {:induction false} WakeCallsContain(l: seq<TimerEntry>, e: TimerEntry, wakers: map<TimerEntry, Option<Waker>>)
    requires e in l && e in wakers && wakers[e].Some?
    ensures wakers[e].value in WakeCalls(l, wakers)
  {
    if e != l[|l| - 1] {
      WakeCallsContain(l[..|l| - 1], e, wakers);
    }
  }

  lemma {:induction false} WakeCallsAgree(
      l: seq<TimerEntry>, a: map<TimerEntry, Option<Waker>>, b: map<TimerEntry, Option<Waker>>)
    requires forall e :: e in l ==> e in a && e in b && a[e] == b[e]
    ensures WakeCalls(l, a) == WakeCalls(l, b)
  {
    if l != [] {
      WakeCallsAgree(l[..|l| - 1], a, b);
    }
  }

  /** The calls of a run and then of one more tick, whose wakers are still those at the start. */
  lemma WakeCallsGrow(woken0: seq<Waker>, l: seq<TimerEntry>, m: seq<TimerEntry>,
                      now: map<TimerEntry, Option<Waker>>, wakers: map<TimerEntry, Option<Waker>>)
    requires forall e :: e in m ==> e in now && e in wakers && now[e] == wakers[e]
    ensures woken0 + WakeCalls(l + m, wakers) == woken0 + WakeCalls(l, wakers) + WakeCalls(m, now)
  {
    hide WakeCalls;
    WakeCallsConcat(l, m, wakers);
    WakeCallsAgree(m, now, wakers);
    assert woken0 + (WakeCalls(l, wakers) + WakeCalls(m, wakers)) ==
      woken0 + WakeCalls(l, wakers) + WakeCalls(m, wakers);
  }

  lemma OrderConcat(before: seq<TimerEntry>, step: seq<TimerEntry>, at: map<TimerEntry, Timer>, now: nat)
    requires InDueOrder(before, at) && forall e :: e in before ==> at[e].due < now
    requires forall e :: e in step ==> e in at && at[e].due == now
    ensures InDueOrder(before + step, at)
  {
    forall i | 0 <= i < |before + step|
      ensures (before + step)[i] in at
      ensures i < |before| ==> at[(before + step)[i]].due < now
      ensures i >= |before| ==> at[(before + step)[i]].due == now
    {
      if i < |before| {
        assert before[i] in before;
      } else {
        assert step[i - |before|] in step;
      }
    }
  }

  /** A run extended by one tick: what was drained before, then what is due now. */
  lemma RunGrows(at0: map<TimerEntry, Timer>, due: map<TimerEntry, nat>, now: nat,
                 before: seq<TimerEntry>, step: seq<TimerEntry>)
    requires now >= 1 && due == DueAfter(at0, now - 1)
    requires multiset(before) == multiset(DueBy(at0, now - 1)) && InDueOrder(before, at0)
    requires multiset(step) == multiset(DueAt(due, now))
    ensures multiset(before + step) == multiset(DueBy(at0, now))
    ensures InDueOrder(before + step, at0)
    ensures forall e :: e in step ==> e in due
    ensures NotDueAt(due, now) == DueAfter(at0, now)
  {
    forall e | e in before
      ensures e in at0 && at0[e].due < now
    {
      assert e in multiset(before);
    }
    forall e | e in step
      ensures e in at0 && at0[e].due == now && e in due
    {
      assert e in multiset(step);
    }
    OrderConcat(before, step, at0, now);
    DueSplits(at0, now);
  }

  lemma DueSplits(at0: map<TimerEntry, Timer>, now: nat)
    requires now >= 1
    ensures var due := DueAfter(at0, now - 1);
            && multiset(DueBy(at0, now)) == multiset(DueBy(at0, now - 1)) + multiset(DueAt(due, now))
            && NotDueAt(due, now) == DueAfter(at0, now)
  {
    var due := DueAfter(at0, now - 1);
    assert DueBy(at0, now) == DueBy(at0, now - 1) + DueAt(due, now);
  }

  lemma InAtIff(at: map<TimerEntry, Timer>)
    ensures DueMap(at).Keys == at.Keys
  {
  }

  ghost function CascadeMap(c: Shape, now: nat, level: nat, at: map<TimerEntry, Timer>): map<TimerEntry, Timer> {
    map e | e in at :: Cascaded(c, now, level, at[e])
  }

  // ---- how linking and cascades change the order ----------------------------------

  /** e is the latest of all now, and nothing else has changed among the others. */
  ghost predicate LinkedLast(e: TimerEntry, others: set<TimerEntry>, rank0: map<TimerEntry, int>,
                             rank1: map<TimerEntry, int>)
  {
    && others <= rank0.Keys && others + {e} <= rank1.Keys
    && forall x :: x in others ==> rank1[e] < rank1[x] == rank0[x]
  }

  /** Re-linking the entries of one list from its head on: they come later than all others, in reverse. */
  ghost predicate Reversed(all: set<TimerEntry>, others: set<TimerEntry>, rank0: map<TimerEntry, int>,
                           rank1: map<TimerEntry, int>)
  {
    && all + others <= rank0.Keys && all + others <= rank1.Keys
    && (forall x :: x in others ==> rank1[x] == rank0[x])
    && (forall x, y :: x in all && y in others ==> rank1[x] < rank1[y])
    && (forall x, y :: x in all && y in all && x != y ==>
          rank0[x] != rank0[y] && (rank1[x] < rank1[y] <==> rank0[y] < rank0[x]))
  }

  /** The entries that are done come before the rest in the list. */
  ghost predicate Ahead(done: set<TimerEntry>, rest: set<TimerEntry>, rank0: map<TimerEntry, int>) {
    done + rest <= rank0.Keys && forall x, y :: x in done && y in rest ==> rank0[x] < rank0[y]
  }

  lemma NoneReversed(first: TimerEntry?, all: set<TimerEntry>, others: set<TimerEntry>, rank: map<TimerEntry, int>)
    requires Chain(first, all, rank) && others <= rank.Keys
    ensures Reversed({}, others, rank, rank) && Ahead({}, all, rank)
  {
  }

  lemma HeadIsAhead(node: TimerEntry, rest: set<TimerEntry>, rank: map<TimerEntry, int>)
    requires Chain(node, rest, rank) && node in rest
    ensures Ahead({node}, rest - {node}, rank)
  {
    InRanks(node, rest, rank);
    FirstIsLatest(node, rest, rank);
  }

  /** One more entry re-linked. */
  lemma ReversedOneMore(
      node: TimerEntry, done: set<TimerEntry>, rest: set<TimerEntry>, others: set<TimerEntry>,
      rank0: map<TimerEntry, int>, before: map<TimerEntry, int>, after: map<TimerEntry, int>)
    requires Reversed(done, others, rank0, before) && Ahead(done, rest, rank0)
    requires node in rest && node !in others && node !in done && LinkedLast(node, others + done, before, after)
    requires Ahead({node}, rest - {node}, rank0)
    ensures Reversed(done + {node}, others, rank0, after) && Ahead(done + {node}, rest - {node}, rank0)
  {
  }

  /** The order before and after the cascade of one level. */
  ghost predicate OnceReordered(c: Shape, now: nat, level: nat, at: map<TimerEntry, Timer>,
                                rank0: map<TimerEntry, int>, rank1: map<TimerEntry, int>)
  {
    && at.Keys <= rank0.Keys && at.Keys <= rank1.Keys
    && forall x, y :: x in at && y in at && x != y ==>
         (rank1[x] < rank1[y] <==>
          LinkedLater(InSlot(c, now, level, at[x]), InSlot(c, now, level, at[y]), rank0[x] < rank0[y]))
  }

  lemma ReversedReorders(c: Shape, now: nat, level: nat, at: map<TimerEntry, Timer>, all: set<TimerEntry>,
                         rank0: map<TimerEntry, int>, rank1: map<TimerEntry, int>)
    requires all <= at.Keys && Reversed(all, at.Keys - all, rank0, rank1)
    requires forall e :: e in at ==> (e in all <==> InSlot(c, now, level, at[e]) == 1)
    ensures OnceReordered(c, now, level, at, rank0, rank1)
  {
    hide InSlot;
    assert all + (at.Keys - all) == at.Keys;
  }

  /** What is still to come at `level` makes the same order of (at1, rank1) as the whole tick of (at0, rank0). */
  ghost predicate Reordered(c: Shape, now: nat, level: nat, at0: map<TimerEntry, Timer>, rank0: map<TimerEntry, int>,
                            at1: map<TimerEntry, Timer>, rank1: map<TimerEntry, int>)
  {
    && now >= 1 && AllPlaced(c, now - 1, at0)
    && at0.Keys == at1.Keys && at0.Keys <= rank0.Keys && at1.Keys <= rank1.Keys
    && forall x, y :: x in at0 && y in at0 && x != y ==>
         (LaterFrom(c, now, level, at1[x], at1[y], rank1[x] < rank1[y]) <==>
          LaterFrom(c, now, 1, at0[x], at0[y], rank0[x] < rank0[y]))
  }

  lemma ReorderedStep(c: Shape, now: nat, level: nat, at0: map<TimerEntry, Timer>, rank0: map<TimerEntry, int>,
                      at1: map<TimerEntry, Timer>, rank1: map<TimerEntry, int>, rank2: map<TimerEntry, int>)
    requires level < c.levels && now % Width(c, level) == 0
    requires Reordered(c, now, level, at0, rank0, at1, rank1) && OnceReordered(c, now, level, at1, rank1, rank2)
    ensures Reordered(c, now, level + 1, at0, rank0, CascadeMap(c, now, level, at1), rank2)
  {
    hide InSlot;
    hide Width;
    hide LinkedLater;
    hide Cascaded;
  }

  /** What is still to come at `level` moves each entry of at1 as the whole tick moves it in at0. */
  ghost predicate CascadedSoFar(c: Shape, now: nat, level: nat, at0: map<TimerEntry, Timer>,
                                at1: map<TimerEntry, Timer>)
  {
    at1.Keys == at0.Keys &&
    forall e :: e in at1 ==> CascadedFrom(c, now, level, at1[e]) == CascadedFrom(c, now, 1, at0[e])
  }

  lemma CascadedStep(c: Shape, now: nat, level: nat, at0: map<TimerEntry, Timer>, at1: map<TimerEntry, Timer>)
    requires CascadedSoFar(c, now, level, at0, at1) && level < c.levels && now % Width(c, level) == 0
    ensures CascadedSoFar(c, now, level + 1, at0, CascadeMap(c, now, level, at1))
  {
    hide Width;
    hide Cascaded;
  }

  lemma CascadedWhole(c: Shape, now: nat, level: nat, at0: map<TimerEntry, Timer>, at1: map<TimerEntry, Timer>)
    requires CascadedSoFar(c, now, level, at0, at1) && (level >= c.levels || now % Width(c, level) != 0)
    ensures CascadedAll(c, now, at0, at1)
  {
    hide Width;
    hide Cascaded;
  }

  /** Where the cascades of a tick put the entries. */
  ghost predicate CascadedAll(c: Shape, now: nat, at0: map<TimerEntry, Timer>, at1: map<TimerEntry, Timer>) {
    at1.Keys == at0.Keys && forall e :: e in at1 ==> at1[e] == CascadedFrom(c, now, 1, at0[e])
  }

  lemma NotYetReordered(c: Shape, now: nat, at: map<TimerEntry, Timer>, rank: map<TimerEntry, int>)
    requires now >= 1 && AllPlaced(c, now - 1, at) && at.Keys <= rank.Keys
    ensures Reordered(c, now, 1, at, rank, at, rank) && CascadedSoFar(c, now, 1, at, at)
  {
  }

  /** The order that a tick leaves, from the order before and where each entry was. */
  ghost predicate TickReordered(c: Shape, now: nat, at0: map<TimerEntry, Timer>, rank0: map<TimerEntry, int>,
                                rank1: map<TimerEntry, int>)
  {
    && at0.Keys <= rank0.Keys && at0.Keys <= rank1.Keys
    && forall x, y :: x in at0 && y in at0 && x != y ==>
         (rank1[x] < rank1[y] <==>
          LinkedLater(RelinkedAt(c, now, at0[x]), RelinkedAt(c, now, at0[y]), rank0[x] < rank0[y]))
  }

  lemma ReorderedTick(c: Shape, now: nat, level: nat, at0: map<TimerEntry, Timer>, rank0: map<TimerEntry, int>,
                      at1: map<TimerEntry, Timer>, rank1: map<TimerEntry, int>)
    requires level >= c.levels || now % Width(c, level) != 0
    requires Reordered(c, now, level, at0, rank0, at1, rank1)
    ensures TickReordered(c, now, at0, rank0, rank1)
  {
    hide Width;
    hide RelinkedAt;
    hide LinkedLater;
    hide Placed;
    forall x, y | x in at0 && y in at0 && x != y
      ensures rank1[x] < rank1[y] <==>
              LinkedLater(RelinkedAt(c, now, at0[x]), RelinkedAt(c, now, at0[y]), rank0[x] < rank0[y])
    {
      LaterExact(c, now, at0[x], at0[y], rank0[x] < rank0[y]);
    }
  }

  lemma CascadeKeys(c: Shape, now: nat, level: nat, at: map<TimerEntry, Timer>)
    ensures CascadeMap(c, now, level, at).Keys == at.Keys
  {
  }

  class Inner {
    const shape: Shape
    const heads: array2<TimerEntry?>
    var currentTick: nat
    var pending: nat
    /** The wake calls made so far. */
    var woken: seq<Waker>

    /** The registered entries, and what each tick so far has drained. */
    ghost var at: map<TimerEntry, Timer>
    ghost var drained: seq<set<TimerEntry>>
    /** The later an entry was linked, the lower; it grows along every list, so none has a cycle. */
    ghost var rank: map<TimerEntry, int>

    ghost predicate InRange(p: Place) {
      p.level < shape.levels && p.slot < shape.slots
    }

    ghost predicate Sized() {
      heads.Length0 == shape.levels && heads.Length1 == shape.slots
    }

    /** `prevNext` is exactly the cell that points at e, and that cell is in e's list. */
    ghost predicate BackIntact(e: TimerEntry)
      requires Sized() && e in at && at.Keys <= rank.Keys
      reads this`at, this`rank, heads, at.Keys`next, at.Keys`prevNext, at.Keys`deadline
    {
      var p := at[e].place;
      && InRange(p)
      && at[e].deadline == e.deadline
      && e.prevNext != Detached
      && (e.prevNext.HeadCell? ==> e.prevNext.place == p && heads[p.level, p.slot] == e)
      && (e.prevNext.NextCell? ==>
            var q := e.prevNext.entry;
            q in at && q.next == e && at[q].place == p && rank[q] < rank[e])
    }

    /** The successor of e is registered and points back at e. */
    ghost predicate NextIntact(e: TimerEntry)
      requires e in at
      reads this`at, at.Keys`next, at.Keys`prevNext
    {
      e.next != null ==> e.next in at && at[e.next].place == at[e].place && e.next.prevNext == NextCell(e)
    }

    ghost predicate HeadIntact(p: Place)
      requires Sized() && InRange(p)
      reads this`at, this`rank, heads, at.Keys`next, at.Keys`prevNext, at.Keys`deadline
    {
      var h := heads[p.level, p.slot];
      h != null ==> h in at && at[h].place == p && h.prevNext == HeadCell(p)
    }

    /** The lists are intact, disjoint and acyclic and hold exactly the registered entries. */
    ghost predicate Lists()
      reads this`at, this`rank, heads, at.Keys`next, at.Keys`prevNext, at.Keys`deadline
    {
      && Sized()
      && at.Keys <= rank.Keys
      && (forall e {:trigger BackIntact(e)} :: e in at ==> BackIntact(e))
      && (forall e {:trigger NextIntact(e)} :: e in at ==> NextIntact(e))
      && (forall p {:trigger HeadIntact(p)} :: InRange(p) ==> HeadIntact(p))
    }

    ghost predicate Linked()
      reads this`pending, this`at, this`rank, heads, at.Keys`next, at.Keys`prevNext, at.Keys`deadline
    {
      Lists() && pending == |at|
    }

    ghost predicate Valid()
      reads this, heads, at.Keys
    {
      Linked() && AllPlaced(shape, currentTick, at) && |drained| == currentTick
    }

    ghost function Value(): (w: Wheel<TimerEntry>)
      reads this
      ensures w.now == currentTick
    {
      Wheel(currentTick, at, drained)
    }

    /** The pointer writes of `link`: e becomes the head and the old head learns of it. */
    method PushFront(level: nat, slot: nat, e: TimerEntry)
      requires Sized() && InRange(Place(level, slot))
      requires heads[level, slot] == null || (heads[level, slot] in at && heads[level, slot] != e)
      modifies heads, at.Keys`next, at.Keys`prevNext, e`next, e`prevNext
      ensures heads[level, slot] == e
      ensures forall h :: InRange(h) && h != Place(level, slot) ==>
                heads[h.level, h.slot] == old(heads[h.level, h.slot])
      ensures e.next == old(heads[level, slot]) && e.prevNext == HeadCell(Place(level, slot))
      ensures forall x :: x in at && x != e ==>
                && x.next == old(x.next)
                && x.prevNext == if x == e.next then NextCell(e) else old(x.prevNext)
    {
      e.next := heads[level, slot];
      e.prevNext := HeadCell(Place(level, slot));
      if e.next != null {
        e.next.prevNext := NextCell(e);
      }
      heads[level, slot] := e;
    }

    /** Link an unregistered entry at the front of `heads[level][slot]`. */
    method Link(level: nat, slot: nat, e: TimerEntry, ghost t: Timer)
      requires Lists() && InRange(Place(level, slot))
      requires e !in at && e.prevNext == Detached
      requires t.place == Place(level, slot) && t.deadline == e.deadline
      modifies this`pending, this`at, this`rank, heads, at.Keys`next, at.Keys`prevNext, e`next, e`prevNext
      ensures Lists() && pending == old(pending) + 1
      ensures at == old(at)[e := t]
      ensures heads[level, slot] == e && e.next == old(heads[level, slot])
      ensures forall h :: InRange(h) && h != Place(level, slot) ==>
                heads[h.level, h.slot] == old(heads[h.level, h.slot])
      ensures e !in old(at)
      ensures LinkedLast(e, old(at.Keys), old(rank), rank)
    {
      assert HeadIntact(t.place);
      PushFront(level, slot, e);
      pending := pending + 1;
      at := at[e := t];
      rank := rank[e := Below(rank, rank.Keys)];
      forall x | x in at
        ensures BackIntact(x) && NextIntact(x)
      {
        if x != e {
          assert old(BackIntact(x) && NextIntact(x));
        }
      }
      forall h | InRange(h)
        ensures HeadIntact(h)
      {
        assert old(HeadIntact(h));
      }
    }

    /** Store through a `prev_next` pointer. */
    method WriteCell(cell: Cell, value: TimerEntry?)
      requires Sized()
      requires cell.HeadCell? ==> InRange(cell.place)
      requires cell.NextCell? ==> cell.entry in at
      modifies heads, at.Keys`next
      ensures forall h :: InRange(h) ==>
                heads[h.level, h.slot] == if cell == HeadCell(h) then value else old(heads[h.level, h.slot])
      ensures forall x :: x in at ==> x.next == if cell == NextCell(x) then value else old(x.next)
    {
      match cell {
        case Detached =>
        case HeadCell(p) => heads[p.level, p.slot] := value;
        case NextCell(q) => q.next := value;
      }
    }

    /** The pointer writes of `remove`: e's cell and e's successor skip e. */
    method Unhook(e: TimerEntry)
      requires Linked() && e in at
      modifies this`pending, this`at, heads, at.Keys`next, at.Keys`prevNext
      ensures at == old(at) - {e} && pending == old(pending) - 1
      ensures e.prevNext == Detached && e.next == null
      ensures forall h :: InRange(h) ==>
                heads[h.level, h.slot] ==
                if old(e.prevNext) == HeadCell(h) then old(e.next) else old(heads[h.level, h.slot])
      ensures forall x :: x in at ==>
                && x.next == (if old(e.prevNext) == NextCell(x) then old(e.next) else old(x.next))
                && x.prevNext == (if x == old(e.next) then old(e.prevNext) else old(x.prevNext))
      ensures forall x {:trigger NextIntact(x)} :: x in at ==> NextIntact(x)
    {
      hide HeadIntact;
      assert BackIntact(e) && NextIntact(e);
      assert e.next != null ==> BackIntact(e.next);
      hide BackIntact;
      var cell := e.prevNext;
      e.prevNext := Detached;
      WriteCell(cell, e.next);
      var next := e.next;
      e.next := null;
      if next != null {
        next.prevNext := cell;
      }
      pending := pending - 1;
      at := at - {e};
      forall x | x in at
        ensures NextIntact(x)
      {
        assert old(NextIntact(x));
      }
    }

    /** Take a registered entry out of the list it is in; all others keep their place. */
    method TakeOut(e: TimerEntry)
      requires Linked() && e in at
      modifies this`pending, this`at, heads, at.Keys`next, at.Keys`prevNext
      ensures Linked()
      ensures at == old(at) - {e}
      ensures e.prevNext == Detached
    {
      assert BackIntact(e) && NextIntact(e);
      assert e.next != null ==> BackIntact(e.next);
      RemovedSize(at, {e});
      Unhook(e);
      forall x | x in at
        ensures BackIntact(x)
      {
        assert old(BackIntact(x));
      }
      forall h | InRange(h)
        ensures HeadIntact(h)
      {
        assert old(HeadIntact(h));
      }
    }

    /** Nothing happens to an entry that is in no list. */
    method Unregister(e: TimerEntry)
      requires Linked() && (e in at || e.prevNext == Detached)
      modifies this`pending, this`at, heads, at.Keys`next, at.Keys`prevNext
      ensures Linked()
      ensures at == old(at) - {e}
      ensures e.prevNext == Detached
    {
      assert e in at ==> BackIntact(e);
      if e.prevNext == Detached {
        assert at - {e} == at;
        return;
      }
      TakeOut(e);
    }

    /** The entries of one list. */
    ghost function OnList(p: Place): (s: set<TimerEntry>)
      reads this`at
      ensures s <= at.Keys
    {
      set e | e in at && at[e].place == p
    }

    lemma ListIsChain(p: Place)
      requires Lists() && InRange(p)
      ensures Chain(heads[p.level, p.slot], OnList(p), rank)
      ensures forall e :: e in OnList(p) ==> at[e].deadline == e.deadline
    {
      var rest := OnList(p);
      var cursor := heads[p.level, p.slot];
      assert HeadIntact(p);
      assert cursor != null ==> BackIntact(cursor);
      forall e | e in rest
        ensures ChainedAt(cursor, rest, rank, e) && at[e].deadline == e.deadline
      {
        assert BackIntact(e) && NextIntact(e);
      }
    }

    /** `heads[level][slot].take()`. */
    method TakeHead(level: nat, slot: nat) returns (cursor: TimerEntry?)
      requires Linked() && InRange(Place(level, slot))
      modifies this`at, heads
      ensures cursor == old(heads[level, slot])
      ensures at == old(at - OnList(Place(level, slot)))
      ensures forall h :: InRange(h) && h != Place(level, slot) ==>
                heads[h.level, h.slot] == old(heads[h.level, h.slot])
      ensures forall e {:trigger NextIntact(e)} :: e in at ==> NextIntact(e)
      ensures forall h {:trigger HeadIntact(h)} :: InRange(h) ==> HeadIntact(h)
    {
      ghost var p := Place(level, slot);
      cursor := heads[level, slot];
      heads[level, slot] := null;
      at := at - OnList(p);
      forall x | x in at
        ensures NextIntact(x)
      {
        assert old(NextIntact(x));
      }
      forall h | InRange(h)
        ensures HeadIntact(h)
      {
        assert old(HeadIntact(h));
      }
    }

    /** Empty a slot head; its entries stay chained to each other. */
    method Detach(level: nat, slot: nat) returns (cursor: TimerEntry?, ghost rest: set<TimerEntry>)
      requires Linked() && InRange(Place(level, slot))
      modifies this`at, heads
      ensures Lists() && pending == |at| + |rest|
      ensures rest == old(OnList(Place(level, slot))) && at == old(at) - rest
      ensures forall e :: e in rest ==> old(at)[e].deadline == e.deadline
      ensures Chain(cursor, rest, rank) && (cursor != null ==> cursor in rest)
    {
      assert HeadIntact(Place(level, slot));
      hide Chain;
      ListIsChain(Place(level, slot));
      rest := OnList(Place(level, slot));
      RemovedSize(at, rest);
      cursor := TakeHead(level, slot);
      forall x | x in at
        ensures BackIntact(x)
      {
        assert old(BackIntact(x));
      }
    }

    /** Release the first entry of a detached list and step to the next one. */
    method Release(node: TimerEntry, ghost rest: set<TimerEntry>, ghost ranks: map<TimerEntry, int>)
      returns (cursor: TimerEntry?)
      requires Chain(node, rest, ranks) && pending >= 1 && Apart(rest, at)
      modifies this`pending, node`next, node`prevNext
      ensures Chain(cursor, rest - {node}, ranks) && (cursor != null ==> cursor in rest - {node})
      ensures node.next == null && node.prevNext == Detached
      ensures pending == old(pending) - 1
    {
      assert ChainedAt(node, rest, ranks, node);
      cursor := node.next;
      node.next := null;
      node.prevNext := Detached;
      pending := pending - 1;
      forall e | e in rest - {node}
        ensures ChainedAt(cursor, rest - {node}, ranks, e)
      {
        assert old(ChainedAt(node, rest, ranks, e));
      }
    }

    /** One turn of `drain_slot`: unregister the entry, then wake. */
    method Fire(node: TimerEntry, ghost rest: set<TimerEntry>, ghost order: seq<TimerEntry>)
      returns (cursor: TimerEntry?)
      requires Chain(node, rest, rank) && node in rest && pending >= 1 && Apart(rest, at)
      requires LatestFirst(order, rank) && AllBefore(order, rest, rank)
      modifies this`pending, this`woken, node`next, node`prevNext, node`waker
      ensures Chain(cursor, rest - {node}, rank) && (cursor != null ==> cursor in rest - {node})
      ensures Apart(rest - {node}, at)
      ensures LatestFirst(order + [node], rank) && AllBefore(order + [node], rest - {node}, rank)
      ensures node.prevNext == Detached && node.waker == None
      ensures pending == old(pending) - 1
      ensures woken == old(woken) + if old(node.waker).Some? then [old(node.waker).value] else []
    {
      InRanks(node, rest, rank);
      FirstIsLatest(node, rest, rank);
      OneMoreLatest(order, node, rest, rank);
      hide Chain;
      hide LatestFirst;
      hide AllBefore;
      cursor := Release(node, rest, rank);
      if node.waker.Some? {
        woken := woken + [node.waker.value];
        node.waker := None;
      }
    }

    /** The loop of `drain_slot` over a detached list. */
    method FireAll(first: TimerEntry?, ghost all: set<TimerEntry>, ghost wakers: map<TimerEntry, Option<Waker>>)
      returns (ghost order: seq<TimerEntry>)
      requires Chain(first, all, rank) && (first != null ==> first in all)
      requires pending >= |all| && Apart(all, at)
      requires forall e :: e in all ==> e in wakers && wakers[e] == e.waker
      modifies this`pending, this`woken, all`next, all`prevNext, all`waker
      ensures pending == old(pending) - |all|
      ensures multiset(order) == multiset(all) && LatestFirst(order, rank)
      ensures woken == old(woken) + WakeCalls(order, wakers)
      ensures forall e :: e in all ==> e.prevNext == Detached && e.waker == None
    {
      hide Chain;
      hide WakeCalls;
      hide LatestFirst;
      hide AllBefore;
      hide Apart;
      ghost var rest: set<TimerEntry> := all;
      var cursor := first;
      order := [];
      NoWakeCalls(wakers);
      NoneLatest(all, rank);
      while cursor != null
        invariant rest <= all && Chain(cursor, rest, rank) && (cursor != null ==> cursor in rest)
        invariant LatestFirst(order, rank) && AllBefore(order, rest, rank) && Apart(rest, at)
        invariant pending == old(pending) - |all| + |rest|
        invariant multiset(order) + multiset(rest) == multiset(all)
        invariant woken == old(woken) + WakeCalls(order, wakers)
        invariant forall e: TimerEntry :: e in rest ==> e.waker == wakers[e]
        invariant forall e: TimerEntry :: e in all && e !in rest ==> e.prevNext == Detached && e.waker == None
        decreases rest
      {
        ghost var node: TimerEntry := cursor;
        cursor := Fire(cursor, rest, order);
        WakeCallsAppend(order, node, wakers);
        rest := rest - {node};
        order := order + [node];
      }
      ChainEnds(rest, rank);
    }

    ghost function WakerMap(): (m: map<TimerEntry, Option<Waker>>)
      reads this`at, at.Keys`waker
      ensures m.Keys == at.Keys && forall e :: e in at ==> m[e] == e.waker
    {
      map e | e in at :: e.waker
    }

    /** `drain_slot`: release every entry of a list and make its wake call. */
    method DrainSlot(level: nat, slot: nat) returns (ghost order: seq<TimerEntry>)
      requires Linked() && InRange(Place(level, slot))
      modifies this`pending, this`at, this`woken, heads, at.Keys`next, at.Keys`prevNext, at.Keys`waker
      ensures Linked()
      ensures at == old(at - OnList(Place(level, slot)))
      ensures multiset(order) == multiset(old(OnList(Place(level, slot)))) && LatestFirst(order, rank)
      ensures woken == old(woken) + WakeCalls(order, old(WakerMap()))
      ensures forall e :: e in old(OnList(Place(level, slot))) ==> e.prevNext == Detached && e.waker == None
      ensures forall e :: e in at ==> e.waker == old(e.waker)
    {
      hide Lists;
      hide Chain;
      hide WakeCalls;
      hide OnList;
      hide WakerMap;
      ghost var wakers := WakerMap();
      var cursor, rest := Detach(level, slot);
      order := FireAll(cursor, rest, wakers);
    }

    /** `choose_slot`: floor(log_SLOTS(delta)), clamped, found by growing the width. */
    method ChooseSlot(deadline: nat) returns (level: nat, slot: nat)
      ensures Place(level, slot) == Choose(shape, currentTick, deadline)
    {
      if deadline <= currentTick {
        return 0, (currentTick + 1) % shape.slots;
      }
      var delta := deadline - currentTick;
      level := 0;
      var width := shape.slots;
      WidthStep(shape, 0);
      while level + 1 < shape.levels && delta >= width
        invariant level < shape.levels && width == Width(shape, level + 1)
        invariant level > 0 ==> Width(shape, level) <= delta
        decreases shape.levels - level
      {
        level := level + 1;
        WidthStep(shape, level);
        width := width * shape.slots;
      }
      LevelUnique(shape, delta, level, LevelOf(shape, delta));
      slot := (deadline / Width(shape, level)) % shape.slots;
    }

    /** Where `cascade` puts an entry: in the list drained next if it is due, else by distance. */
    method CascadeTo(deadline: nat) returns (level: nat, slot: nat)
      ensures Place(level, slot) == CascadePlace(shape, currentTick, deadline) && InRange(Place(level, slot))
    {
      if deadline <= currentTick {
        return 0, currentTick % shape.slots;
      }
      level, slot := ChooseSlot(deadline);
    }

    /** Linking an entry leaves a detached list as it is. */
    method LinkBeside(level: nat, slot: nat, e: TimerEntry, ghost t: Timer, ghost cursor: TimerEntry?,
                      ghost rest: set<TimerEntry>, ghost ranks: map<TimerEntry, int>)
      requires Lists() && InRange(Place(level, slot)) && e !in at && e.prevNext == Detached
      requires t.place == Place(level, slot) && t.deadline == e.deadline
      requires Chain(cursor, rest, ranks) && Apart(rest, at) && e !in rest
      modifies this`pending, this`at, this`rank, heads, at.Keys`next, at.Keys`prevNext, e`next, e`prevNext
      ensures Lists() && pending == old(pending) + 1 && at == old(at)[e := t]
      ensures LinkedLast(e, old(at.Keys), old(rank), rank)
      ensures Chain(cursor, rest, ranks) && Apart(rest, at)
    {
      hide LinkedLast;
      hide Lists;
      hide Chain;
      hide InRange;
      Link(level, slot, e, t);
    }

    /** One turn of `cascade`: unregister the entry and link it where it now belongs. */
    method Relink(node: TimerEntry, ghost rest: set<TimerEntry>, ghost ranks: map<TimerEntry, int>, ghost t: Timer)
      returns (cursor: TimerEntry?)
      requires Lists() && pending == |at| + |rest| && Apart(rest, at)
      requires Chain(node, rest, ranks) && node in rest && t.deadline == node.deadline
      modifies this`pending, this`at, this`rank, heads
      modifies at.Keys`next, at.Keys`prevNext, node`next, node`prevNext
      ensures Lists() && pending == |at| + |rest - {node}|
      ensures at == old(at)[node := Recascaded(shape, currentTick, t)] && Apart(rest - {node}, at)
      ensures Chain(cursor, rest - {node}, ranks) && (cursor != null ==> cursor in rest - {node})
      ensures LinkedLast(node, old(at.Keys), old(rank), rank)
    {
      hide LinkedLast;
      hide Lists;
      hide Chain;
      hide InRange;
      hide Recascaded;
      hide Apart;
      NotAmong(rest, at, node);
      FewerApart(rest, at, node);
      RecascadedTo(shape, currentTick, t);
      cursor := Release(node, rest, ranks);
      var level, slot := CascadeTo(node.deadline);
      LinkBeside(level, slot, node, Recascaded(shape, currentTick, t), cursor, rest - {node}, ranks);
    }

    /** `at0` joined by the cascaded timers of `done`. */
    ghost function Joined(at0: map<TimerEntry, Timer>, done: set<TimerEntry>, timers: map<TimerEntry, Timer>)
      : map<TimerEntry, Timer>
      requires done <= timers.Keys
      reads this`currentTick
    {
      at0 + map e | e in done :: Recascaded(shape, currentTick, timers[e])
    }

    lemma JoinOne(at0: map<TimerEntry, Timer>, done: set<TimerEntry>, timers: map<TimerEntry, Timer>, e: TimerEntry)
      requires done + {e} <= timers.Keys
      ensures Joined(at0, done + {e}, timers)
              == Joined(at0, done, timers)[e := Recascaded(shape, currentTick, timers[e])]
    {
    }

    lemma JoinedKeys(at0: map<TimerEntry, Timer>, done: set<TimerEntry>, timers: map<TimerEntry, Timer>)
      requires done <= timers.Keys
      ensures Joined(at0, done, timers).Keys == at0.Keys + done
      ensures Joined(at0, {}, timers) == at0
    {
    }

    /** How far re-linking a list has got: what is not in `rest` is placed anew and comes later, in reverse. */
    ghost predicate Relinked(
        at1: map<TimerEntry, Timer>, rank1: map<TimerEntry, int>, at0: map<TimerEntry, Timer>,
        rank0: map<TimerEntry, int>, all: set<TimerEntry>, rest: set<TimerEntry>, timers: map<TimerEntry, Timer>)
      requires all <= timers.Keys
      reads this`currentTick
    {
      && rest <= all && at1 == Joined(at0, all - rest, timers)
      && Reversed(all - rest, at0.Keys, rank0, rank1) && Ahead(all - rest, rest, rank0)
    }

    lemma NoneRelinked(
        first: TimerEntry?, at0: map<TimerEntry, Timer>, rank0: map<TimerEntry, int>, all: set<TimerEntry>,
        timers: map<TimerEntry, Timer>)
      requires Chain(first, all, rank0) && at0.Keys <= rank0.Keys && all <= timers.Keys
      ensures Relinked(at0, rank0, at0, rank0, all, all, timers)
    {
      JoinedKeys(at0, {}, timers);
      NoneReversed(first, all, at0.Keys, rank0);
      assert all - all == {};
    }

    lemma OneMoreRelinked(
        node: TimerEntry, at1: map<TimerEntry, Timer>, rank1: map<TimerEntry, int>, rank2: map<TimerEntry, int>,
        at0: map<TimerEntry, Timer>, rank0: map<TimerEntry, int>, all: set<TimerEntry>, rest: set<TimerEntry>,
        timers: map<TimerEntry, Timer>)
      requires all <= timers.Keys && Relinked(at1, rank1, at0, rank0, all, rest, timers)
      requires node in rest && Ahead({node}, rest - {node}, rank0) && Apart(all, at0)
      requires LinkedLast(node, at1.Keys, rank1, rank2)
      ensures Relinked(at1[node := Recascaded(shape, currentTick, timers[node])], rank2, at0, rank0, all, rest - {node},
                       timers)
    {
      var done := all - rest;
      NotAmong(all, at0, node);
      JoinedKeys(at0, done, timers);
      MoveOne(all, rest, node);
      JoinOne(at0, done, timers, node);
      assert at1.Keys == at0.Keys + done;
      hide Joined;
      hide Reversed;
      hide LinkedLast;
      ReversedOneMore(node, done, rest, at0.Keys, rank0, rank1, rank2);
    }

    ghost predicate Timed(all: set<TimerEntry>, timers: map<TimerEntry, Timer>)
      reads all`deadline
      ensures Timed(all, timers) ==> all <= timers.Keys
    {
      forall e :: e in all ==> e in timers && timers[e].deadline == e.deadline
    }

    lemma TimedAt(all: set<TimerEntry>, timers: map<TimerEntry, Timer>, e: TimerEntry)
      requires Timed(all, timers) && e in all
      ensures timers[e].deadline == e.deadline
    {
    }

    lemma RanksCover()
      requires Lists()
      ensures at.Keys <= rank.Keys
    {
    }

    /** One turn of the loop of `cascade`, and how far that gets. */
    method RelinkNext(
        node: TimerEntry, ghost at0: map<TimerEntry, Timer>, ghost rank0: map<TimerEntry, int>,
        ghost all: set<TimerEntry>, ghost rest: set<TimerEntry>, ghost timers: map<TimerEntry, Timer>)
      returns (cursor: TimerEntry?)
      requires Lists() && pending == |at| + |rest| && Apart(rest, at) && Apart(all, at0)
      requires Chain(node, rest, rank0) && node in rest
      requires all <= timers.Keys && Relinked(at, rank, at0, rank0, all, rest, timers)
      requires node in timers && timers[node].deadline == node.deadline
      modifies this`pending, this`at, this`rank, heads
      modifies at.Keys`next, at.Keys`prevNext, node`next, node`prevNext
      ensures Lists() && pending == |at| + |rest - {node}| && Apart(rest - {node}, at)
      ensures at.Keys == old(at.Keys) + {node}
      ensures Chain(cursor, rest - {node}, rank0) && (cursor != null ==> cursor in rest - {node})
      ensures Relinked(at, rank, at0, rank0, all, rest - {node}, timers)
    {
      hide Chain;
      hide Lists;
      hide Recascaded;
      hide Apart;
      hide Relinked;
      hide LinkedLast;
      hide Ahead;
      HeadIsAhead(node, rest, rank0);
      ghost var at1, rank1 := at, rank;
      cursor := Relink(node, rest, rank0, timers[node]);
      OneMoreRelinked(node, at1, rank1, rank, at0, rank0, all, rest, timers);
    }

    /** The loop of `cascade` over a detached list. */
    method RelinkAll(first: TimerEntry?, ghost all: set<TimerEntry>, ghost timers: map<TimerEntry, Timer>)
      requires Lists() && pending == |at| + |all| && Apart(all, at)
      requires Chain(first, all, rank) && (first != null ==> first in all)
      requires Timed(all, timers)
      modifies this`pending, this`at, this`rank, heads
      modifies at.Keys`next, at.Keys`prevNext, all`next, all`prevNext
      ensures Lists() && pending == |at|
      ensures at == old(Joined(at, all, timers))
      ensures Reversed(all, old(at.Keys), old(rank), rank)
    {
      hide Chain;
      hide Lists;
      hide Recascaded;
      hide Joined;
      hide Apart;
      hide Reversed;
      hide Relinked;
      hide LinkedLast;
      hide Ahead;
      hide Timed;
      RanksCover();
      NoneRelinked(first, at, rank, all, timers);
      ghost var rest: set<TimerEntry> := all;
      ghost var rank0, at0 := rank, at;
      var cursor := first;
      while cursor != null
        invariant rest <= all && Chain(cursor, rest, rank0) && (cursor != null ==> cursor in rest)
        invariant Lists() && pending == |at| + |rest|
        invariant Apart(rest, at) && at.Keys <= at0.Keys + all
        invariant Relinked(at, rank, at0, rank0, all, rest, timers)
        decreases rest
      {
        ghost var node: TimerEntry := cursor;
        TimedAt(all, timers, node);
        cursor := RelinkNext(cursor, at0, rank0, all, rest, timers);
        rest := rest - {node};
      }
      ChainEnds(rest, rank0);
      AllRelinked(at0, rank0, all, timers);
    }

    lemma AllRelinked(
        at0: map<TimerEntry, Timer>, rank0: map<TimerEntry, int>, all: set<TimerEntry>, timers: map<TimerEntry, Timer>)
      requires all <= timers.Keys && Relinked(at, rank, at0, rank0, all, {}, timers)
      ensures at == Joined(at0, all, timers) && Reversed(all, at0.Keys, rank0, rank)
    {
      assert all - {} == all;
    }

    /** `cascade`: empty a coarse list and link each of its entries where it now belongs. */
    method Cascade(level: nat, slot: nat)
      requires Linked() && 1 <= level < shape.levels
      requires Place(level, slot) == CascadeSlot(shape, currentTick, level)
      modifies this`pending, this`at, this`rank, heads, at.Keys`next, at.Keys`prevNext
      ensures Linked()
      ensures at == old(CascadeMap(shape, currentTick, level, at))
      ensures OnceReordered(shape, currentTick, level, old(at), old(rank), rank)
    {
      hide Lists;
      hide Chain;
      hide Cascaded;
      hide Recascaded;
      hide Joined;
      hide CascadeMap;
      hide OnList;
      ghost var at0, rank0 := at, rank;
      JoinedIsCascaded(level, slot);
      InSlotIff(level, slot);
      var cursor, rest := Detach(level, slot);
      RelinkAll(cursor, rest, at0);
      ReversedReorders(shape, currentTick, level, at0, rest, rank0, rank);
    }

    lemma InSlotIff(level: nat, slot: nat)
      requires Place(level, slot) == CascadeSlot(shape, currentTick, level)
      ensures forall e :: e in at ==>
                (e in OnList(Place(level, slot)) <==> InSlot(shape, currentTick, level, at[e]) == 1)
    {
    }

    lemma JoinedIsCascaded(level: nat, slot: nat)
      requires Place(level, slot) == CascadeSlot(shape, currentTick, level)
      ensures Joined(at - OnList(Place(level, slot)), OnList(Place(level, slot)), at)
              == CascadeMap(shape, currentTick, level, at)
    {
    }

    /** The cascades of one tick: coarser and coarser levels, up to the first that does not roll over. */
    method CascadeLevels()
      requires Linked() && currentTick >= 1 && AllPlaced(shape, currentTick - 1, at)
      modifies this`pending, this`at, this`rank, heads, at.Keys`next, at.Keys`prevNext
      ensures Linked()
      ensures CascadedAll(shape, currentTick, old(at), at)
      ensures TickReordered(shape, currentTick, old(at), old(rank), rank)
    {
      hide Lists;
      hide AllPlaced;
      hide Reordered;
      hide OnceReordered;
      hide TickReordered;
      hide CascadedSoFar;
      hide CascadedAll;
      hide CascadeMap;
      ghost var at0, rank0 := at, rank;
      RanksCover();
      NotYetReordered(shape, currentTick, at, rank);
      var width := shape.slots;
      WidthStep(shape, 0);
      for level := 1 to shape.levels
        invariant Linked() && at.Keys == at0.Keys && width == Width(shape, level)
        invariant CascadedSoFar(shape, currentTick, level, at0, at)
        invariant Reordered(shape, currentTick, level, at0, rank0, at, rank)
      {
        if currentTick % width != 0 {
          CascadedWhole(shape, currentTick, level, at0, at);
          ReorderedTick(shape, currentTick, level, at0, rank0, at, rank);
          return;
        }
        CascadedStep(shape, currentTick, level, at0, at);
        CascadeKeys(shape, currentTick, level, at);
        ghost var at1, rank1 := at, rank;
        Cascade(level, (currentTick / width) % shape.slots);
        ReorderedStep(shape, currentTick, level, at0, rank0, at1, rank1, rank);
        WidthStep(shape, level);
        width := width * shape.slots;
      }
      CascadedWhole(shape, currentTick, shape.levels, at0, at);
      ReorderedTick(shape, currentTick, shape.levels, at0, rank0, at, rank);
    }

    /** Cascading and then draining the current level-0 list is one tick. */
    lemma CascadedThenDrained(at0: map<TimerEntry, Timer>)
      requires CascadedAll(shape, currentTick, at0, at)
      ensures OnList(Place(0, currentTick % shape.slots)) == TickedOut(shape, currentTick, at0)
      ensures at - OnList(Place(0, currentTick % shape.slots)) == TickAt(shape, currentTick, at0)
    {
      hide CascadedFrom;
      forall e | e in at0
        ensures Ticked(shape, currentTick, at0[e])
                == if e in OnList(Place(0, currentTick % shape.slots)) then Fired else Kept(at[e])
      {
      }
    }

    /** The steps of `advance_one` after the tick counter has moved. */
    method CascadeAndDrain() returns (ghost order: seq<TimerEntry>)
      requires Linked() && currentTick >= 1 && AllPlaced(shape, currentTick - 1, at)
      modifies this`pending, this`at, this`rank, this`woken, heads
      modifies at.Keys`next, at.Keys`prevNext, at.Keys`waker
      ensures Linked()
      ensures at == old(TickAt(shape, currentTick, at))
      ensures multiset(order) == multiset(old(TickedOut(shape, currentTick, at))) && LatestFirst(order, rank)
      ensures TickReordered(shape, currentTick, old(at), old(rank), rank)
      ensures woken == old(woken) + WakeCalls(order, old(WakerMap()))
      ensures forall e :: e in old(TickedOut(shape, currentTick, at)) ==> e.prevNext == Detached && e.waker == None
      ensures forall e :: e in at ==> e.waker == old(e.waker)
    {
      hide Lists;
      hide OnList;
      hide TickAt;
      hide TickedOut;
      hide WakerMap;
      hide WakeCalls;
      hide CascadedFrom;
      hide AllPlaced;
      hide TickReordered;
      ghost var at0 := at;
      ghost var wakers := WakerMap();
      CascadeLevels();
      CascadedThenDrained(at0);
      assert WakerMap() == wakers;
      order := DrainSlot(0, currentTick % shape.slots);
    }

    /**
     * `advance_one`: exactly the entries due at the new tick are drained, each of their
     * wakers is called once, that of the entry linked last first, and every other entry
     * stays registered with its waker. Who was linked last is the order before the tick,
     * changed by its cascades: what they re-link comes later, in reverse.
     */
    method AdvanceOne() returns (ghost order: seq<TimerEntry>)
      requires Valid()
      modifies this`currentTick, this`pending, this`at, this`rank, this`woken, this`drained, heads
      modifies at.Keys`next, at.Keys`prevNext, at.Keys`waker
      ensures Valid() && currentTick == old(currentTick) + 1
      ensures Value() == WheelTick(shape, old(Value()))
      ensures ToAgenda(Value()) == AgendaTick(ToAgenda(old(Value())))
      ensures DueMap(at) == NotDueAt(old(DueMap(at)), currentTick)
      ensures drained[currentTick - 1] == DueAt(old(DueMap(at)), currentTick)
      ensures multiset(order) == multiset(drained[currentTick - 1]) && LatestFirst(order, rank)
      ensures TickReordered(shape, currentTick, old(at), old(rank), rank)
      ensures woken == old(woken) + WakeCalls(order, old(WakerMap()))
      ensures forall e :: e in drained[currentTick - 1] ==> e.prevNext == Detached && e.waker == None
      ensures forall e :: e in at ==> e in old(at) && e.waker == old(e.waker)
    {
      hide Lists;
      hide AllPlaced;
      hide TickAt;
      hide TickedOut;
      hide WakerMap;
      hide WakeCalls;
      hide TickReordered;
      hide DueMap;
      hide DueAt;
      hide NotDueAt;
      hide ToAgenda;
      hide AgendaTick;
      hide LatestFirst;
      TickSays(shape, Value());
      currentTick := currentTick + 1;
      drained := drained + [TickedOut(shape, currentTick, at)];
      order := CascadeAndDrain();
    }

    // ---- the public operations -----------------------------------------------------

    constructor (shape: Shape)
      ensures this.shape == shape && fresh(heads)
      ensures Valid() && Value() == NewWheel() && woken == []
    {
      this.shape := shape;
      heads := new TimerEntry?[shape.levels, shape.slots]((i, j) => null);
      currentTick, pending := 0, 0;
      woken := [];
      at, rank, drained := map[], map[], [];
    }

    method Insert(e: TimerEntry)
      requires Valid() && e !in at && e.prevNext == Detached
      modifies this`pending, this`at, this`rank, heads, at.Keys`next, at.Keys`prevNext, e`next, e`prevNext
      ensures Valid()
      ensures Value() == WheelApply(shape, old(Value()), WheelHistory.Insert(e, e.deadline))
      ensures forall h :: InRange(h) ==>
                heads[h.level, h.slot] ==
                if h == Choose(shape, currentTick, e.deadline) then e else old(heads[h.level, h.slot])
      ensures LinkedLast(e, old(at.Keys), old(rank), rank)
    {
      hide LinkedLast;
      hide Lists;
      hide Placed;
      hide Choose;
      hide Below;
      hide LevelOf;
      var level, slot := ChooseSlot(e.deadline);
      InsertedPlaced(shape, currentTick, e.deadline);
      Link(level, slot, e, Inserted(shape, currentTick, e.deadline));
    }

    method Remove(e: TimerEntry)
      requires Valid() && (e in at || e.prevNext == Detached)
      modifies this`pending, this`at, heads, at.Keys`next, at.Keys`prevNext
      ensures Valid() && e.prevNext == Detached
      ensures Value() == WheelApply(shape, old(Value()), WheelHistory.Remove(e))
    {
      hide Lists;
      hide Placed;
      Unregister(e);
    }

    method Len() returns (n: nat)
      requires Valid()
      ensures n == |at|
    {
      n := pending;
    }

    method IsEmpty() returns (empty: bool)
      requires Valid()
      ensures empty <==> at == map[]
    {
      var n := Len();
      empty := n == 0;
    }

    lemma HeadPresent(e: TimerEntry)
      requires Lists() && e in at
      ensures InRange(at[e].place)
      ensures var p := at[e].place;
              var h := heads[p.level, p.slot];
              h != null && h in at && at[h].place == p && at[h].deadline == h.deadline
    {
      assert BackIntact(e);
      var p := at[e].place;
      ListIsChain(p);
      assert HeadIntact(p);
      assert e in OnList(p);
      if heads[p.level, p.slot] == null {
        ChainEnds(OnList(p), rank);
      } else {
        assert BackIntact(heads[p.level, p.slot]);
      }
    }

    ghost predicate Before(p: Place, level: nat, slot: nat) {
      p.level < level || (p.level == level && p.slot < slot)
    }

    /** h is the first entry of list p. */
    ghost predicate Heads(h: TimerEntry, p: Place)
      requires Sized()
      reads heads
    {
      InRange(p) && heads[p.level, p.slot] == h
    }

    /** d is the least deadline among the first entries of the lists before (level, slot). */
    ghost predicate LeastHead(d: Option<nat>, level: nat, slot: nat)
      requires Sized()
      reads heads, this`at, at.Keys
    {
      && (d.Some? ==> exists h, p :: Before(p, level, slot) && Heads(h, p) && h in at && h.deadline == d.value)
      && forall h, p :: Before(p, level, slot) && Heads(h, p) && h in at ==> d.Some? && d.value <= h.deadline
    }

    lemma HeadOfPlace(p: Place)
      requires Lists() && InRange(p)
      ensures heads[p.level, p.slot] != null ==> heads[p.level, p.slot] in at
    {
      assert HeadIntact(p);
    }

    /** What `next_deadline` looks at: only the first entry of every list. */
    method ScanHeads() returns (min: Option<nat>)
      requires Linked()
      ensures LeastHead(min, shape.levels, 0)
    {
      min := None;
      for level := 0 to shape.levels
        invariant LeastHead(min, level, 0)
      {
        for slot := 0 to shape.slots
          invariant LeastHead(min, level, slot)
        {
          HeadOfPlace(Place(level, slot));
          var head := heads[level, slot];
          if head != null {
            assert Heads(head, Place(level, slot));
            if min == None || min.value > head.deadline {
              min := Some(head.deadline);
            }
          }
        }
      }
    }

    /** What an entry says about the scan: its list has a head, and the scan has seen it. */
    lemma HeadSeen(e: TimerEntry, min: Option<nat>)
      requires Lists() && LeastHead(min, shape.levels, 0) && e in at
      ensures Sized() && InRange(at[e].place)
      ensures var h := heads[at[e].place.level, at[e].place.slot];
              && h != null && h in at && at[h].place == at[e].place && at[h].deadline == h.deadline
              && min.Some? && min.value <= h.deadline
    {
      HeadPresent(e);
      assert Heads(heads[at[e].place.level, at[e].place.slot], at[e].place);
    }

    /** No entry is due before e. */
    ghost predicate Earliest(e: TimerEntry)
      requires e in at
      reads this`at
    {
      forall x :: x in at ==> at[e].due <= at[x].due
    }

    /** A registered entry e is the first of its list. */
    ghost predicate IsHead(e: TimerEntry)
      requires Sized() && e in at
      reads heads, this`at
    {
      Heads(e, at[e].place)
    }

    lemma HeadPlace(h: TimerEntry, p: Place)
      requires Lists() && h in at && Heads(h, p)
      ensures at[h].place == p && IsHead(h) && at[h].deadline == h.deadline
    {
      assert HeadIntact(p);
      assert BackIntact(h);
    }

    /** The result is no later than any due tick iff some list begins with an entry that is due first. */
    lemma ScanIsBoundIff(min: Option<nat>)
      requires Lists() && AllPlaced(shape, currentTick, at) && shape.levels >= 2
      requires LeastHead(min, shape.levels, 0) && min.Some?
      ensures (forall e :: e in at ==> min.value <= at[e].due) <==> exists h :: h in at && IsHead(h) && Earliest(h)
    {
      hide Placed;
      forall e | e in at
        ensures at[e].due == if at[e].deadline > currentTick then at[e].deadline else currentTick + 1
      {
        DueFromDeadline(shape, currentTick, at[e]);
      }
      ghost var h, p :| Before(p, shape.levels, 0) && Heads(h, p) && h in at && h.deadline == min.value;
      HeadPlace(h, p);
      if forall e :: e in at ==> min.value <= at[e].due {
        assert Earliest(h);
      }
      if g :| g in at && IsHead(g) && Earliest(g) {
        HeadPlace(g, at[g].place);
        HeadSeen(g, min);
      }
    }

    /** So it is if all entries of some list are due first, in whatever order they are listed. */
    lemma BoundWhateverTheOrder(min: Option<nat>, first: TimerEntry)
      requires Lists() && AllPlaced(shape, currentTick, at) && shape.levels >= 2
      requires LeastHead(min, shape.levels, 0) && first in at
      requires forall e :: e in at && at[e].place == at[first].place ==> Earliest(e)
      ensures min.Some? && forall e :: e in at ==> min.value <= at[e].due
    {
      hide Placed;
      HeadSeen(first, min);
      ghost var h := heads[at[first].place.level, at[first].place.slot];
      assert IsHead(h) && Earliest(h);
      ScanIsBoundIff(min);
    }

    /**
     * `next_deadline` is the least deadline among the first entries of the lists, and None iff
     * the wheel is empty. With two or more levels it is a lower bound of every due tick iff
     * some list begins with an entry that is due first. In any case some entry is due no later
     * than the result (or at the next tick), and while no deadline is a full lap ahead the
     * result overstates no due tick by as much as one slot of the list holding that entry.
     */
    method NextDeadline() returns (min: Option<nat>)
      requires Valid()
      ensures LeastHead(min, shape.levels, 0)
      ensures min == None <==> at == map[]
      ensures min.Some? && shape.levels >= 2 ==>
                ((forall e :: e in at ==> min.value <= at[e].due) <==>
                 exists h :: h in at && IsHead(h) && Earliest(h))
      ensures min.Some? && shape.levels >= 2 ==>
                exists e :: e in at && (at[e].due <= min.value || at[e].due == currentTick + 1)
      ensures min.Some? && shape.levels >= 2 && (forall e :: e in at ==> WithinLap(shape, currentTick, at[e])) ==>
                forall e :: e in at ==> min.value < at[e].due + Width(shape, at[e].place.level)
    {
      hide Placed;
      hide Lists;
      hide LeastHead;
      min := ScanHeads();
      forall e | e in at
        ensures min.Some?
        ensures shape.levels >= 2 && (forall x :: x in at ==> WithinLap(shape, currentTick, at[x])) ==>
                  min.value < at[e].due + Width(shape, at[e].place.level)
      {
        HeadSeen(e, min);
        var head := heads[at[e].place.level, at[e].place.slot];
        if shape.levels >= 2 && WithinLap(shape, currentTick, at[e]) && WithinLap(shape, currentTick, at[head]) {
          HeadNearList(shape, currentTick, at[e], at[head]);
        }
      }
      SomeHead(min);
      if min.Some? && shape.levels >= 2 {
        ScanIsBoundIff(min);
        ghost var h :| h in at && at[h].deadline == min.value;
        DueFromDeadline(shape, currentTick, at[h]);
      }
    }

    lemma SomeHead(min: Option<nat>)
      requires Lists() && LeastHead(min, shape.levels, 0)
      ensures min.Some? ==> exists h :: h in at && at[h].deadline == min.value
    {
      if min.Some? {
        ghost var h, p :| Before(p, shape.levels, 0) && Heads(h, p) && h in at && h.deadline == min.value;
        HeadPlace(h, p);
      }
    }

    /**
     * How far a run of ticks from `at0` has got: what was due has been drained in the
     * order `order`, earliest first, and woken with the waker it had; the rest waits.
     */
    ghost predicate Drained(at0: map<TimerEntry, Timer>, wakers0: map<TimerEntry, Option<Waker>>,
                            woken0: seq<Waker>, order: seq<TimerEntry>)
      reads this`currentTick, this`woken, this`at, at.Keys`waker
    {
      && multiset(order) == multiset(DueBy(at0, currentTick))
      && InDueOrder(order, at0)
      && woken == woken0 + WakeCalls(order, wakers0)
      && DueMap(at) == DueAfter(at0, currentTick)
      && forall e :: e in at ==> e in wakers0 && e.waker == wakers0[e]
    }

    /** One more tick of such a run. */
    method AdvanceRun(ghost at0: map<TimerEntry, Timer>, ghost wakers0: map<TimerEntry, Option<Waker>>,
                      ghost woken0: seq<Waker>, ghost before: seq<TimerEntry>)
      returns (ghost order: seq<TimerEntry>)
      requires Valid() && Drained(at0, wakers0, woken0, before)
      modifies this`currentTick, this`pending, this`at, this`rank, this`woken, this`drained, heads
      modifies at.Keys`next, at.Keys`prevNext, at.Keys`waker
      ensures Valid() && Drained(at0, wakers0, woken0, order)
      ensures Value() == WheelTick(shape, old(Value())) && currentTick == old(currentTick) + 1
      ensures at.Keys <= old(at.Keys)
    {
      hide Valid;
      hide Value;
      hide WakerMap;
      hide WakeCalls;
      hide DueBy;
      hide DueAfter;
      hide InDueOrder;
      hide WheelTick;
      hide ToAgenda;
      hide AgendaTick;
      hide DueMap;
      hide DueAt;
      hide NotDueAt;
      InAtIff(at);
      ghost var due := DueMap(at);
      ghost var wakers := WakerMap();
      ghost var step := AdvanceOne();
      order := before + step;
      RunGrows(at0, due, currentTick, before, step);
      WakeCallsGrow(woken0, before, step, wakers, wakers0);
    }

    lemma NothingDrained()
      requires Valid()
      ensures Drained(at, WakerMap(), woken, [])
    {
      hide Lists;
      NothingDue(at, currentTick);
    }

    method TickN(n: nat) returns (ghost order: seq<TimerEntry>)
      requires Valid()
      modifies this`currentTick, this`pending, this`at, this`rank, this`woken, this`drained, heads
      modifies at.Keys`next, at.Keys`prevNext, at.Keys`waker
      ensures Valid() && Value() == WheelApply(shape, old(Value()), WheelHistory.TickN(n))
      ensures currentTick == old(currentTick) + n
      ensures Drained(old(at), old(WakerMap()), old(woken), order)
    {
      hide Drained;
      hide Valid;
      hide Value;
      hide WakerMap;
      hide WheelTick;
      hide WheelTicks;
      ghost var at0, wakers0, woken0 := at, WakerMap(), woken;
      order := [];
      NothingDrained();
      for i := 0 to n
        invariant Valid() && Drained(at0, wakers0, woken0, order) && at.Keys <= at0.Keys
        invariant currentTick == old(currentTick) + i
        invariant WheelTicks(shape, Value(), n - i) == WheelTicks(shape, old(Value()), n)
      {
        TicksUnfold(shape, Value(), n - i);
        order := AdvanceRun(at0, wakers0, woken0, order);
      }
      TicksUnfold(shape, Value(), 0);
    }

    method AdvanceTo(target: nat) returns (ghost order: seq<TimerEntry>)
      requires Valid()
      modifies this`currentTick, this`pending, this`at, this`rank, this`woken, this`drained, heads
      modifies at.Keys`next, at.Keys`prevNext, at.Keys`waker
      ensures Valid() && Value() == WheelApply(shape, old(Value()), WheelHistory.AdvanceTo(target))
      ensures currentTick == if old(currentTick) < target then target else old(currentTick)
      ensures Drained(old(at), old(WakerMap()), old(woken), order)
    {
      hide Drained;
      hide Valid;
      hide Value;
      hide WakerMap;
      hide WheelTick;
      hide WheelTicks;
      ghost var at0, wakers0, woken0 := at, WakerMap(), woken;
      ghost var n: nat := if currentTick < target then target - currentTick else 0;
      order := [];
      NothingDrained();
      ghost var last := currentTick + n;
      while currentTick < target
        invariant Valid() && Drained(at0, wakers0, woken0, order) && at.Keys <= at0.Keys
        invariant old(currentTick) <= currentTick <= last
        invariant WheelTicks(shape, Value(), last - currentTick) == WheelTicks(shape, old(Value()), n)
        decreases target - currentTick
      {
        TicksUnfold(shape, Value(), last - currentTick);
        order := AdvanceRun(at0, wakers0, woken0, order);
      }
      TicksUnfold(shape, Value(), 0);
    }

    static lemma TicksUnfold(c: Shape, w: Wheel<TimerEntry>, n: nat)
      ensures WheelTicks(c, w, 0) == w
      ensures n > 0 ==> WheelTicks(c, w, n) == WheelTicks(c, WheelTick(c, w), n - 1)
    {
      hide WheelTick;
    }

    lemma NothingDue(at0: map<TimerEntry, Timer>, now: nat)
      requires AllPlaced(shape, now, at0)
      ensures DueBy(at0, now) == {} && DueAfter(at0, now) == DueMap(at0)
    {
      hide Placed;
      forall e | e in at0
        ensures at0[e].due > now
      {
        DueAhead(shape, now, at0[e]);
      }
    }
  }
}
