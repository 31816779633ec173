/**
 * What `next_deadline` reports for entries inserted one after the other into an empty wheel:
 * it depends on the order, and for which deadlines it is a lower bound in every order.
 */
module DeadlineScan {
  import opened Placement
  import opened TimerWheel
  import opened WheelHistory
  import opened Wrappers

  // ---- insertion orders as sequences of deadlines -----------------------------------------

  /** No later insertion pushed the i-th entry from the head of its list. */
  ghost predicate StaysHead(c: Shape, now: nat, ds: seq<nat>, i: nat)
    requires i < |ds|
  {
    forall j :: i < j < |ds| ==> Choose(c, now, ds[j]) != Choose(c, now, ds[i])
  }

  /** r is the least deadline among the heads. */
  ghost predicate Scanned(c: Shape, now: nat, ds: seq<nat>, r: nat) {
    && (exists i: nat :: i < |ds| && StaysHead(c, now, ds, i) && ds[i] == r)
    && (forall i: nat :: i < |ds| && StaysHead(c, now, ds, i) ==> r <= ds[i])
  }

  /** What the scan reports is no later than any due tick. */
  ghost predicate BoundsAll(c: Shape, now: nat, ds: seq<nat>) {
    forall r: nat, d: nat :: Scanned(c, now, ds, r) && d in ds ==> r <= FireTick(c, now, d)
  }

  /** d is due first. */
  predicate First(c: Shape, now: nat, ds: seq<nat>, d: nat) {
    d in ds && forall i :: 0 <= i < |ds| ==> FireTick(c, now, d) <= FireTick(c, now, ds[i])
  }

  /** Whatever shares a list with what is due first is due at the same tick. */
  ghost predicate FirstUnmixed(c: Shape, now: nat, ds: seq<nat>) {
    forall d, e :: First(c, now, ds, d) && e in ds && Choose(c, now, e) == Choose(c, now, d) ==>
      FireTick(c, now, e) == FireTick(c, now, d)
  }

  lemma {:induction false} SomeFirst(c: Shape, now: nat, ds: seq<nat>) returns (d: nat)
    requires ds != []
    ensures First(c, now, ds, d)
    decreases |ds|
  {
    d := ds[0];
    if |ds| > 1 {
      var e := SomeFirst(c, now, ds[1..]);
      if FireTick(c, now, e) < FireTick(c, now, d) {
        d := e;
      }
      assert forall i :: 1 <= i < |ds| ==> ds[i] == ds[1..][i - 1];
    }
  }

  /** The head of the list that d was put in: the last of its entries. */
  lemma {:induction false} HeadOfList(c: Shape, now: nat, ds: seq<nat>, k: nat) returns (i: nat)
    requires k < |ds|
    ensures k <= i < |ds| && StaysHead(c, now, ds, i) && Choose(c, now, ds[i]) == Choose(c, now, ds[k])
    decreases |ds| - k
  {
    i := k;
    if j :| k < j < |ds| && Choose(c, now, ds[j]) == Choose(c, now, ds[k]) {
      i := HeadOfList(c, now, ds, j);
    }
  }

  /** Unmixed lists of what is due first make the scan a lower bound in the given order. */
  lemma UnmixedIsBound(c: Shape, now: nat, ds: seq<nat>)
    requires c.levels >= 2 && FirstUnmixed(c, now, ds)
    ensures BoundsAll(c, now, ds)
  {
    hide Choose;
    if ds != [] {
      var d := SomeFirst(c, now, ds);
      var k :| 0 <= k < |ds| && ds[k] == d;
      var i := HeadOfList(c, now, ds, k);
      FireTickExact(c, now, ds[i]);
      assert ds[i] in ds;
      assert FireTick(c, now, ds[i]) == FireTick(c, now, d);
      forall r: nat, e: nat | Scanned(c, now, ds, r) && e in ds
        ensures r <= FireTick(c, now, e)
      {
        assert r <= ds[i];
      }
    }
  }

  /** Deadlines that are due at the same tick are put in the same list. */
  lemma SameDueSameList(c: Shape, now: nat, d: nat, e: nat)
    requires c.levels >= 2 && FireTick(c, now, d) == FireTick(c, now, e)
    ensures Choose(c, now, d) == Choose(c, now, e)
  {
    FireTickExact(c, now, d);
    FireTickExact(c, now, e);
    if d != e {
      NextTickPlace(c, now, d);
      NextTickPlace(c, now, e);
    }
  }

  lemma NextTickPlace(c: Shape, now: nat, d: nat)
    requires d <= now + 1
    ensures Choose(c, now, d) == Place(0, (now + 1) % c.slots)
  {
    if d == now + 1 {
      WidthStep(c, 0);
      LevelUnique(c, 1, 0, LevelOf(c, 1));
    }
  }

  /**
   * In an order that ends with an entry which shares a list with what is due first, but is due
   * later, the scan overstates: every head is due later than that.
   */
  lemma MixedOverstates(c: Shape, now: nat, ds: seq<nat>, first: nat, r: nat)
    requires c.levels >= 2 && ds != [] && First(c, now, ds, first)
    requires var last := ds[|ds| - 1];
             Choose(c, now, last) == Choose(c, now, first) && FireTick(c, now, last) != FireTick(c, now, first)
    requires Scanned(c, now, ds, r)
    ensures r > FireTick(c, now, first)
  {
    hide Choose;
    var i: nat :| i < |ds| && StaysHead(c, now, ds, i) && ds[i] == r;
    FireTickExact(c, now, r);
    FireTickExact(c, now, first);
    if FireTick(c, now, r) == FireTick(c, now, first) {
      SameDueSameList(c, now, r, first);
    }
    LaterDue(c, now, r, first);
  }

  lemma LaterDue(c: Shape, now: nat, r: nat, first: nat)
    requires c.levels >= 2 && FireTick(c, now, r) > FireTick(c, now, first)
    ensures r > FireTick(c, now, first)
  {
    FireTickExact(c, now, r);
    FireTickExact(c, now, first);
  }

  /** There is always something to report. */
  lemma SomeScanned(c: Shape, now: nat, ds: seq<nat>) returns (r: nat)
    requires ds != []
    ensures Scanned(c, now, ds, r)
  {
    var i: nat := |ds| - 1;
    r := LeastHeadBefore(c, now, ds, i);
  }

  lemma {:induction false} LeastHeadBefore(c: Shape, now: nat, ds: seq<nat>, i: nat) returns (r: nat)
    requires i < |ds| && StaysHead(c, now, ds, i)
    ensures Scanned(c, now, ds, r)
    decreases ds[i]
  {
    r := ds[i];
    if j: nat :| j < |ds| && StaysHead(c, now, ds, j) && ds[j] < ds[i] {
      r := LeastHeadBefore(c, now, ds, j);
    }
  }

  predicate SameOrders(p: seq<nat>, q: seq<nat>) {
    multiset(p) == multiset(q)
  }

  lemma OrdersShare(p: seq<nat>, q: seq<nat>)
    requires SameOrders(p, q)
    ensures forall d :: d in p <==> d in q
  {
    forall d
      ensures d in p <==> d in q
    {
      assert d in multiset(p) <==> d in multiset(q);
    }
  }

  lemma FirstInBoth(c: Shape, now: nat, p: seq<nat>, q: seq<nat>, d: nat)
    requires SameOrders(p, q) && First(c, now, p, d)
    ensures First(c, now, q, d)
  {
    OrdersShare(p, q);
    forall i | 0 <= i < |q|
      ensures FireTick(c, now, d) <= FireTick(c, now, q[i])
    {
      assert q[i] in p;
    }
  }

  lemma UnmixedInBoth(c: Shape, now: nat, p: seq<nat>, q: seq<nat>)
    requires SameOrders(p, q) && FirstUnmixed(c, now, q)
    ensures FirstUnmixed(c, now, p)
  {
    OrdersShare(p, q);
    forall d, e | First(c, now, p, d) && e in p && Choose(c, now, e) == Choose(c, now, d)
      ensures FireTick(c, now, e) == FireTick(c, now, d)
    {
      FirstInBoth(c, now, p, q, d);
    }
  }

  lemma MovedToEnd(ds: seq<nat>, j: nat) returns (p: seq<nat>)
    requires j < |ds|
    ensures SameOrders(p, ds) && p != [] && p[|p| - 1] == ds[j]
  {
    p := ds[..j] + ds[j + 1..] + [ds[j]];
    assert ds == ds[..j] + [ds[j]] + ds[j + 1..];
  }

  /**
   * The documented lower bound, without reference to the order of the lists: deadlines inserted
   * at one tick keep it in every order of insertion iff nothing shares a list with what is due
   * first unless it is due first itself.
   */
  lemma BoundInEveryOrderIff(c: Shape, now: nat, ds: seq<nat>)
    requires c.levels >= 2
    ensures (forall p :: SameOrders(p, ds) ==> BoundsAll(c, now, p)) <==> FirstUnmixed(c, now, ds)
  {
    hide Choose;
    hide BoundsAll;
    if FirstUnmixed(c, now, ds) {
      forall p | SameOrders(p, ds)
        ensures BoundsAll(c, now, p)
      {
        UnmixedInBoth(c, now, p, ds);
        UnmixedIsBound(c, now, p);
      }
    } else {
      var d, e :| First(c, now, ds, d) && e in ds && Choose(c, now, e) == Choose(c, now, d) &&
        FireTick(c, now, e) != FireTick(c, now, d);
      var p := BrokenOrder(c, now, ds, d, e);
    }
  }

  lemma BrokenOrder(c: Shape, now: nat, ds: seq<nat>, d: nat, e: nat) returns (p: seq<nat>)
    requires c.levels >= 2 && First(c, now, ds, d) && e in ds
    requires Choose(c, now, e) == Choose(c, now, d) && FireTick(c, now, e) != FireTick(c, now, d)
    ensures SameOrders(p, ds) && !BoundsAll(c, now, p)
  {
    hide Choose;
    var j: nat :| j < |ds| && ds[j] == e;
    p := MovedToEnd(ds, j);
    FirstInBoth(c, now, ds, p, d);
    var r := SomeScanned(c, now, p);
    MixedOverstates(c, now, p, d, r);
  }

  // ---- the same on the wheel itself --------------------------------------------------------

  ghost function Deadlines(es: seq<TimerEntry>): (ds: seq<nat>)
    reads es`deadline
    ensures |ds| == |es| && forall i :: 0 <= i < |es| ==> ds[i] == es[i].deadline
  {
    if es == [] then [] else Deadlines(es[..|es| - 1]) + [es[|es| - 1].deadline]
  }

  /** The entry at the head of list p: the last of `ds` that was put there. */
  ghost function LastAt(c: Shape, now: nat, ds: seq<nat>, p: Place): (i: Option<nat>)
    ensures i.Some? ==> i.value < |ds| && Choose(c, now, ds[i.value]) == p && StaysHead(c, now, ds, i.value)
  {
    if ds == [] then None
    else if Choose(c, now, ds[|ds| - 1]) == p then Some(|ds| - 1)
    else LastAt(c, now, ds[..|ds| - 1], p)
  }

  lemma {:induction false} LastAtIs(c: Shape, now: nat, ds: seq<nat>, i: nat)
    requires i < |ds| && StaysHead(c, now, ds, i)
    ensures LastAt(c, now, ds, Choose(c, now, ds[i])) == Some(i)
    decreases |ds|
  {
    hide Choose;
    if i < |ds| - 1 {
      assert Choose(c, now, ds[|ds| - 1]) != Choose(c, now, ds[i]);
      LastAtIs(c, now, ds[..|ds| - 1], i);
    }
  }

  /** The wheel holds exactly `es`, and its heads are those that insertion in this order leaves. */
  ghost predicate Holds(w: Inner, es: seq<TimerEntry>)
    reads w`at, w`currentTick, w.heads, es`deadline
  {
    && w.Sized()
    && w.at.Keys == (set e | e in es)
    && (forall i :: 0 <= i < |es| ==> w.at[es[i]].due == FireTick(w.shape, w.currentTick, es[i].deadline))
    && (forall p: Place {:trigger w.InRange(p)} :: w.InRange(p) ==>
          w.heads[p.level, p.slot] == HeadAmong(w.shape, w.currentTick, es, p))
  }

  ghost function HeadAmong(c: Shape, now: nat, es: seq<TimerEntry>, p: Place): TimerEntry?
    reads es`deadline
  {
    var i := LastAt(c, now, Deadlines(es), p);
    if i.Some? then es[i.value] else null
  }

  lemma NothingListed(w: Inner)
    requires w.Lists() && w.at == map[]
    ensures Holds(w, [])
  {
    forall p: Place | w.InRange(p)
      ensures w.heads[p.level, p.slot] == null
    {
      assert w.HeadIntact(p);
    }
  }

  lemma OneMoreListed(c: Shape, now: nat, es: seq<TimerEntry>, e: TimerEntry, p: Place)
    ensures HeadAmong(c, now, es + [e], p) ==
            if Choose(c, now, e.deadline) == p then e else HeadAmong(c, now, es, p)
  {
    assert (es + [e])[..|es|] == es;
    assert Deadlines(es + [e])[..|es|] == Deadlines(es);
  }

  /** Inserts the entries one after the other, and then asks for the next deadline. */
  method InsertAll(w: Inner, es: seq<TimerEntry>) returns (min: Option<nat>)
    requires w.Valid() && w.at == map[]
    requires forall i :: 0 <= i < |es| ==> es[i].prevNext == Detached
    requires forall i, j :: 0 <= i < j < |es| ==> es[i] != es[j]
    modifies w`pending, w`at, w`rank, w.heads, es`next, es`prevNext
    ensures w.Valid() && Holds(w, es)
    ensures es == [] ==> min == None
    ensures es != [] ==> min.Some? && Scanned(w.shape, w.currentTick, Deadlines(es), min.value)
  {
    hide Inner.Valid;
    hide Holds;
    hide Deadlines;
    hide Scanned;
    NothingYet(w);
    for i := 0 to |es|
      invariant w.Valid() && Holds(w, es[..i])
      invariant forall j :: i <= j < |es| ==> es[j].prevNext == Detached
    {
      InsertNext(w, es[..i], es[i]);
      assert es[..i + 1] == es[..i] + [es[i]];
    }
    assert es[..|es|] == es;
    min := Ask(w, es);
  }

  lemma NothingYet(w: Inner)
    requires w.Valid() && w.at == map[]
    ensures Holds(w, [])
  {
    NothingListed(w);
  }

  method Ask(w: Inner, es: seq<TimerEntry>) returns (min: Option<nat>)
    requires w.Valid() && Holds(w, es)
    ensures es == [] ==> min == None
    ensures es != [] ==> min.Some? && Scanned(w.shape, w.currentTick, Deadlines(es), min.value)
  {
    hide Holds;
    hide Scanned;
    min := w.NextDeadline();
    ScanOf(w, es, min);
  }

  method InsertNext(w: Inner, es: seq<TimerEntry>, e: TimerEntry)
    requires w.Valid() && Holds(w, es) && e !in es && e.prevNext == Detached
    modifies w`pending, w`at, w`rank, w.heads, es`next, es`prevNext, e`next, e`prevNext
    ensures w.Valid() && Holds(w, es + [e])
  {
    hide Inner.Lists;
    hide AllPlaced;
    hide Placed;
    hide HeadAmong;
    w.Insert(e);
    forall p: Place | w.InRange(p)
      ensures w.heads[p.level, p.slot] == HeadAmong(w.shape, w.currentTick, es + [e], p)
    {
      OneMoreListed(w.shape, w.currentTick, es, e, p);
    }
  }

  lemma ScanOf(w: Inner, es: seq<TimerEntry>, min: Option<nat>)
    requires Holds(w, es) && w.LeastHead(min, w.shape.levels, 0)
    ensures es == [] ==> min == None
    ensures es != [] ==> min.Some? && Scanned(w.shape, w.currentTick, Deadlines(es), min.value)
  {
    hide Choose;
    var c, now, ds := w.shape, w.currentTick, Deadlines(es);
    forall i: nat | i < |es| && StaysHead(c, now, ds, i)
      ensures min.Some? && min.value <= ds[i]
    {
      LastAtIs(c, now, ds, i);
      var p := Choose(c, now, ds[i]);
      assert w.InRange(p);
      assert w.Heads(es[i], p) && w.Before(p, c.levels, 0);
    }
    if min.Some? {
      var h, p :| w.Before(p, c.levels, 0) && w.Heads(h, p) && h in w.at && h.deadline == min.value;
      assert w.InRange(p);
    }
    if es != [] {
      var r := SomeScanned(c, now, ds);
    }
  }

  /** Deadline 8 is due first of 8 and 9, and they share a list on a wheel of 8 slots and 2 levels. */
  lemma EightThenNine(r: nat)
    requires Scanned(Config(8, 2), 0, [8, 9], r)
    ensures r == 9 && FireTick(Config(8, 2), 0, 8) == 8
  {
    EightAndNine();
    var c: Shape := Config(8, 2);
    var i: nat :| i < 2 && StaysHead(c, 0, [8, 9], i) && [8, 9][i] == r;
    assert Choose(c, 0, 8) == Choose(c, 0, 9);
    assert [8, 9][1] == 9 && [8, 9][0] == 8;
  }

  /** The documented lower bound fails: the wheel reports 9 while it holds an entry due at 8. */
  method Overstated() returns (w: Inner, early: TimerEntry, min: Option<nat>)
    ensures w.Valid() && early in w.at && w.at[early].due == 8 && min == Some(9)
  {
    hide Inner.Valid;
    hide Scanned;
    w := new Inner(Config(8, 2));
    early := new TimerEntry(8);
    var late := new TimerEntry(9);
    var es := [early, late];
    min := InsertAll(w, es);
    assert Deadlines(es) == [8, 9];
    assert es[0] in es;
    EightThenNine(min.value);
  }
}
