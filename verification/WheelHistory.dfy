/**
 * Whole histories of a wheel. The mechanism (levels, slots, cascades) is compared with
 * the agenda it implements: a map from entry to the tick at which the entry is due.
 */
module WheelHistory {
  import opened Placement

  datatype Op<E> =
    | Insert(entry: E, deadline: nat)
    | Remove(entry: E)
    | Tick
    | TickN(n: nat)
    | AdvanceTo(target: nat)

  /** `drained[t - 1]` holds the entries drained by the tick that moved the wheel to t. */
  datatype Wheel<E(==)> = Wheel(now: nat, at: map<E, Timer>, drained: seq<set<E>>)
  datatype Agenda<E(==)> = Agenda(now: nat, due: map<E, nat>, drained: seq<set<E>>)

  // ---- the mechanism -----------------------------------------------------------

  function TickAt<E>(c: Shape, now: nat, at: map<E, Timer>): map<E, Timer> {
    map e | e in at && Ticked(c, now, at[e]).Kept? :: Ticked(c, now, at[e]).timer
  }

  function TickedOut<E>(c: Shape, now: nat, at: map<E, Timer>): set<E> {
    set e | e in at && Ticked(c, now, at[e]).Fired?
  }

  function WheelTick<E>(c: Shape, w: Wheel<E>): Wheel<E> {
    var now := w.now + 1;
    Wheel(now, TickAt(c, now, w.at), w.drained + [TickedOut(c, now, w.at)])
  }

  function WheelTicks<E>(c: Shape, w: Wheel<E>, n: nat): Wheel<E>
    decreases n
  {
    if n == 0 then w else WheelTicks(c, WheelTick(c, w), n - 1)
  }

  function WheelApply<E>(c: Shape, w: Wheel<E>, op: Op<E>): Wheel<E> {
    match op
    case Insert(e, d) => w.(at := w.at[e := Inserted(c, w.now, d)])
    case Remove(e) => w.(at := w.at - {e})
    case Tick => WheelTick(c, w)
    case TickN(n) => WheelTicks(c, w, n)
    case AdvanceTo(target) => WheelTicks(c, w, if w.now < target then target - w.now else 0)
  }

  function WheelRun<E>(c: Shape, w: Wheel<E>, ops: seq<Op<E>>): Wheel<E>
    decreases |ops|
  {
    if ops == [] then w else WheelRun(c, WheelApply(c, w, ops[0]), ops[1..])
  }

  // ---- the agenda --------------------------------------------------------------

  function DueAt<E>(due: map<E, nat>, t: nat): set<E> {
    set e | e in due && due[e] == t
  }

  function NotDueAt<E>(due: map<E, nat>, t: nat): map<E, nat> {
    map e | e in due && due[e] != t :: due[e]
  }

  function AgendaTick<E>(a: Agenda<E>): Agenda<E> {
    var now := a.now + 1;
    Agenda(now, NotDueAt(a.due, now), a.drained + [DueAt(a.due, now)])
  }

  function AgendaTicks<E>(a: Agenda<E>, n: nat): Agenda<E>
    decreases n
  {
    if n == 0 then a else AgendaTicks(AgendaTick(a), n - 1)
  }

  function AgendaApply<E>(c: Shape, a: Agenda<E>, op: Op<E>): Agenda<E> {
    match op
    case Insert(e, d) => a.(due := a.due[e := FireTick(c, a.now, d)])
    case Remove(e) => a.(due := a.due - {e})
    case Tick => AgendaTick(a)
    case TickN(n) => AgendaTicks(a, n)
    case AdvanceTo(target) => AgendaTicks(a, if a.now < target then target - a.now else 0)
  }

  function AgendaRun<E>(c: Shape, a: Agenda<E>, ops: seq<Op<E>>): Agenda<E>
    decreases |ops|
  {
    if ops == [] then a else AgendaRun(c, AgendaApply(c, a, ops[0]), ops[1..])
  }

  // ---- refinement --------------------------------------------------------------

  ghost predicate AllPlaced<E>(c: Shape, now: nat, at: map<E, Timer>) {
    forall e :: e in at ==> Placed(c, now, at[e])
  }

  function DueMap<E>(at: map<E, Timer>): map<E, nat> {
    map e | e in at :: at[e].due
  }

  function ToAgenda<E>(w: Wheel<E>): Agenda<E> {
    Agenda(w.now, DueMap(w.at), w.drained)
  }

  lemma TickRefines<E>(c: Shape, w: Wheel<E>)
    requires AllPlaced(c, w.now, w.at)
    ensures ToAgenda(WheelTick(c, w)) == AgendaTick(ToAgenda(w))
    ensures AllPlaced(c, w.now + 1, WheelTick(c, w).at)
  {
    hide Placed;
    hide Ticked;
    var now := w.now + 1;
    forall e | e in w.at
      ensures Lasted(c, now, w.at[e], Ticked(c, now, w.at[e]))
      ensures Ticked(c, now, w.at[e]).Fired? <==> w.at[e].due == now
    {
      TickedExact(c, now, w.at[e]);
      DueAhead(c, w.now, w.at[e]);
    }
    assert ToAgenda(WheelTick(c, w)).due == AgendaTick(ToAgenda(w)).due;
    assert TickedOut(c, now, w.at) == DueAt(DueMap(w.at), now);
  }

  /** The same in terms of the due ticks. */
  lemma TickSays<E>(c: Shape, w: Wheel<E>)
    requires AllPlaced(c, w.now, w.at)
    ensures var n := WheelTick(c, w);
            && AllPlaced(c, n.now, n.at) && ToAgenda(n) == AgendaTick(ToAgenda(w))
            && DueMap(n.at) == NotDueAt(DueMap(w.at), n.now) && n.at.Keys <= w.at.Keys
            && n.drained == w.drained + [DueAt(DueMap(w.at), n.now)]
  {
    hide Placed;
    hide Ticked;
    TickRefines(c, w);
  }

  lemma {:induction false} TicksRefine<E>(c: Shape, w: Wheel<E>, n: nat)
    requires AllPlaced(c, w.now, w.at)
    ensures ToAgenda(WheelTicks(c, w, n)) == AgendaTicks(ToAgenda(w), n)
    ensures WheelTicks(c, w, n).now == w.now + n
    ensures AllPlaced(c, w.now + n, WheelTicks(c, w, n).at)
    decreases n
  {
    hide Placed;
    hide Ticked;
    if n > 0 {
      TickRefines(c, w);
      TicksRefine(c, WheelTick(c, w), n - 1);
    }
  }

  /** Every operation of the wheel is the operation of the agenda. */
  lemma ApplyRefines<E>(c: Shape, w: Wheel<E>, op: Op<E>)
    requires AllPlaced(c, w.now, w.at)
    ensures ToAgenda(WheelApply(c, w, op)) == AgendaApply(c, ToAgenda(w), op)
    ensures AllPlaced(c, WheelApply(c, w, op).now, WheelApply(c, w, op).at)
  {
    hide Placed;
    match op
    case Insert(e, d) =>
      InsertedPlaced(c, w.now, d);
      assert DueMap(w.at[e := Inserted(c, w.now, d)]) == DueMap(w.at)[e := FireTick(c, w.now, d)];
    case Remove(e) =>
      assert DueMap(w.at - {e}) == DueMap(w.at) - {e};
    case Tick => TickRefines(c, w);
    case TickN(n) => TicksRefine(c, w, n);
    case AdvanceTo(target) => TicksRefine(c, w, if w.now < target then target - w.now else 0);
  }

  /** The wheel refines the agenda over every history. */
  lemma {:induction false} WheelRefinesAgenda<E>(c: Shape, w: Wheel<E>, ops: seq<Op<E>>)
    requires AllPlaced(c, w.now, w.at)
    ensures ToAgenda(WheelRun(c, w, ops)) == AgendaRun(c, ToAgenda(w), ops)
    ensures AllPlaced(c, WheelRun(c, w, ops).now, WheelRun(c, w, ops).at)
    decreases |ops|
  {
    hide Placed;
    if ops != [] {
      ApplyRefines(c, w, ops[0]);
      WheelRefinesAgenda(c, WheelApply(c, w, ops[0]), ops[1..]);
    }
  }

  // ---- exact firing over histories ----------------------------------------------

  predicate Leaves<E(==)>(op: Op<E>, e: E) {
    (op.Insert? || op.Remove?) ==> op.entry != e
  }

  /** The agenda holds e until its due tick and drains it in that tick, once. */
  ghost predicate OnAgenda<E>(a: Agenda<E>, e: E, since: nat, due: nat) {
    && |a.drained| == a.now
    && since <= a.now
    && (a.now < due ==> e in a.due && a.due[e] == due)
    && (a.now >= due ==> e !in a.due)
    && forall t: nat {:trigger a.drained[t]} :: since <= t < a.now ==> (e in a.drained[t] <==> t + 1 == due)
  }

  lemma TickOnAgenda<E>(a: Agenda<E>, e: E, since: nat, due: nat)
    requires OnAgenda(a, e, since, due) && since < due
    ensures OnAgenda(AgendaTick(a), e, since, due)
  {
  }

  lemma {:induction false} TicksOnAgenda<E>(a: Agenda<E>, e: E, since: nat, due: nat, n: nat)
    requires OnAgenda(a, e, since, due) && since < due
    ensures OnAgenda(AgendaTicks(a, n), e, since, due)
    decreases n
  {
    if n > 0 {
      TickOnAgenda(a, e, since, due);
      TicksOnAgenda(AgendaTick(a), e, since, due, n - 1);
    }
  }

  lemma {:induction false} RunOnAgenda<E>(c: Shape, a: Agenda<E>, e: E, since: nat, due: nat, ops: seq<Op<E>>)
    requires OnAgenda(a, e, since, due) && since < due
    requires forall op :: op in ops ==> Leaves(op, e)
    ensures OnAgenda(AgendaRun(c, a, ops), e, since, due)
    decreases |ops|
  {
    if ops != [] {
      var b := AgendaApply(c, a, ops[0]);
      assert OnAgenda(b, e, since, due) by {
        match ops[0]
        case Insert(x, d) => assert Leaves(ops[0], e);
        case Remove(x) => assert Leaves(ops[0], e);
        case Tick => TickOnAgenda(a, e, since, due);
        case TickN(n) => TicksOnAgenda(a, e, since, due, n);
        case AdvanceTo(target) =>
          TicksOnAgenda(a, e, since, due, if a.now < target then target - a.now else 0);
      }
      RunOnAgenda(c, b, e, since, due, ops[1..]);
    }
  }

  lemma {:induction false} RunAppend<E>(c: Shape, w: Wheel<E>, before: seq<Op<E>>, after: seq<Op<E>>)
    ensures WheelRun(c, w, before + after) == WheelRun(c, WheelRun(c, w, before), after)
    decreases |before|
  {
    if before == [] {
      assert before + after == after;
    } else {
      assert (before + after)[0] == before[0] && (before + after)[1..] == before[1..] + after;
      RunAppend(c, WheelApply(c, w, before[0]), before[1..], after);
    }
  }

  lemma {:induction false} DrainedPerTick<E>(c: Shape, w: Wheel<E>, ops: seq<Op<E>>)
    requires |w.drained| == w.now
    ensures |WheelRun(c, w, ops).drained| == WheelRun(c, w, ops).now
    decreases |ops|
  {
    if ops != [] {
      match ops[0] {
        case TickN(n) => DrainedPerTicks(c, w, n);
        case AdvanceTo(target) => DrainedPerTicks(c, w, if w.now < target then target - w.now else 0);
        case _ =>
      }
      DrainedPerTick(c, WheelApply(c, w, ops[0]), ops[1..]);
    }
  }

  lemma {:induction false} DrainedPerTicks<E>(c: Shape, w: Wheel<E>, n: nat)
    requires |w.drained| == w.now
    ensures |WheelTicks(c, w, n).drained| == WheelTicks(c, w, n).now
    decreases n
  {
    if n > 0 {
      DrainedPerTicks(c, WheelTick(c, w), n - 1);
    }
  }

  function NewWheel<E>(): Wheel<E> {
    Wheel(0, map[], [])
  }

  /**
   * Exact firing over every history: an entry inserted with deadline d when the wheel is
   * at tick t, and neither removed nor inserted again, is drained by exactly one tick:
   * the one that moves the wheel to its due tick. With two or more levels that is
   * max(d, t + 1).
   */
  lemma FiresOnce<E>(c: Shape, before: seq<Op<E>>, e: E, d: nat, after: seq<Op<E>>)
    requires forall op :: op in after ==> Leaves(op, e)
    ensures var t := WheelRun(c, NewWheel(), before).now;
            var w := WheelRun(c, NewWheel(), before + [Insert(e, d)] + after);
            var due := FireTick(c, t, d);
            && |w.drained| == w.now >= t
            && (e in w.at <==> w.now < due)
            && (forall i: nat {:trigger w.drained[i]} :: t <= i < w.now ==> (e in w.drained[i] <==> i + 1 == due))
            && (c.levels >= 2 ==> due == if d > t then d else t + 1)
  {
    hide Placed;
    var w0 := WheelRun(c, NewWheel(), before);
    var w1 := WheelApply(c, w0, Insert(e, d));
    RunAppend(c, NewWheel(), before, [Insert(e, d)] + after);
    assert before + [Insert(e, d)] + after == before + ([Insert(e, d)] + after);
    assert ([Insert(e, d)] + after)[1..] == after;
    WheelRefinesAgenda(c, NewWheel<E>(), before);
    DrainedPerTick(c, NewWheel<E>(), before);
    ApplyRefines(c, w0, Insert(e, d));
    WheelRefinesAgenda(c, w1, after);
    RunOnAgenda(c, ToAgenda(w1), e, w0.now, FireTick(c, w0.now, d), after);
    FireTickExact(c, w0.now, d);
  }
}
