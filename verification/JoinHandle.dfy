/**
 * The state shared by a task and its join handle, as an interleaving state machine: one
 * thread polls the handle, any number of threads finish the task (complete it, cancel it,
 * drop the completer or a cancel-on-drop handle). Every atomic access is one step; the
 * waker slot is locked from the moment a finisher takes the waker until it has called it.
 */
module JoinHandle {
  import opened Wrappers

  type Tid = nat

  /** Wakers that wake the same task are the same value. */
  type Waker = nat

  datatype Flag = Pending | Ready | Cancelled

  datatype Answer<V> = StillPending | Value(v: V) | WasCancelled | Panicked

  /** Where the polling thread is. */
  datatype PollPc = Resting | LoadFlag(w: Waker) | Register(w: Waker) | Recheck(w: Waker) | TakeResult

  /** Where a finishing thread is; `owner` tells the completer's own call from the others. */
  datatype FinishPc<V> =
    | Idle
    | StoreResult(v: V)
    | StoreReady
    | StoreCancelled
    | TakeWaker(owner: bool)
    | Wake(w: Waker, owner: bool)
    | LoadForDrop

  /**
   * The last four fields record history: every value handed out, the answer of the latest
   * poll, the waker of the latest poll if it answered "pending" and nothing has called that
   * waker since, and whether some finishing call has been through the waker slot.
   */
  datatype State<V> = State(
    flag: Flag, result: Option<V>, slot: Option<Waker>, slotHeldBy: Option<Tid>, completer: bool,
    poll: PollPc, finishers: map<Tid, FinishPc<V>>,
    handedOut: seq<V>, last: Option<Answer<V>>, waiting: Option<Waker>, settled: bool)

  function Initial<V>(): State<V> {
    State(Pending, None, None, None, true, Resting, map[], [], None, None, false)
  }

  function Pc<V>(s: State<V>, t: Tid): FinishPc<V> {
    if t in s.finishers then s.finishers[t] else Idle
  }

  datatype Action<V> =
    | BeginPoll(w: Waker)
    | PollStep
    | BeginComplete(t: Tid, v: V)
    | BeginDropCompleter(t: Tid)
    | BeginDropTask(t: Tid)
    | BeginCancel(t: Tid)
    | FinishStep(t: Tid)

  /** The poll answers; a pending answer leaves its waker waiting. */
  function Answered<V>(s: State<V>, a: Answer<V>, waiting: Option<Waker>): State<V> {
    s.(poll := Resting, last := Some(a), waiting := waiting)
  }

  function PollNext<V>(s: State<V>): Option<State<V>> {
    match s.poll
    case Resting => None
    case LoadFlag(w) =>
      (match s.flag
       case Ready => Some(s.(poll := TakeResult))
       case Cancelled => Some(Answered(s, WasCancelled, None))
       case Pending => Some(s.(poll := Register(w))))
    case Register(w) =>
      if s.slotHeldBy.Some? then None
      else Some(s.(slot := if s.slot == Some(w) then s.slot else Some(w), poll := Recheck(w)))
    case Recheck(w) =>
      (match s.flag
       case Ready => Some(s.(poll := TakeResult))
       case Cancelled => Some(Answered(s, WasCancelled, None))
       case Pending => Some(Answered(s, StillPending, Some(w))))
    case TakeResult =>
      match s.result
      case None => Some(Answered(s, Panicked, None))
      case Some(v) => Some(Answered(s.(result := None, handedOut := s.handedOut + [v]), Value(v), None))
  }

  /** The completer is dropped when its own call is over. */
  function AfterWake<V>(owner: bool): FinishPc<V> {
    if owner then LoadForDrop else Idle
  }

  function FinishTo<V>(s: State<V>, t: Tid): FinishPc<V> {
    match Pc(s, t)
    case Idle => Idle
    case StoreResult(_) => StoreReady
    case StoreReady => TakeWaker(true)
    case StoreCancelled => TakeWaker(false)
    case TakeWaker(owner) => if s.slot.Some? then Wake(s.slot.value, owner) else AfterWake(owner)
    case Wake(_, owner) => AfterWake(owner)
    case LoadForDrop => if s.flag == Pending then StoreCancelled else Idle
  }

  function FinishEffect<V>(s: State<V>, t: Tid): Option<State<V>> {
    match Pc(s, t)
    case Idle => None
    case StoreResult(v) => Some(s.(result := Some(v)))
    case StoreReady => Some(s.(flag := Ready))
    case StoreCancelled => Some(s.(flag := Cancelled))
    case TakeWaker(_) =>
      if s.slotHeldBy.Some? then None
      else if s.slot.Some? then Some(s.(slot := None, slotHeldBy := Some(t)))
      else Some(s.(settled := true))
    case Wake(w, _) =>
      Some(s.(slotHeldBy := None, settled := true, waiting := if s.waiting == Some(w) then None else s.waiting))
    case LoadForDrop => Some(s)
  }

  function FinishNext<V>(s: State<V>, t: Tid): Option<State<V>> {
    match FinishEffect(s, t)
    case None => None
    case Some(e) => Some(e.(finishers := s.finishers[t := FinishTo(s, t)]))
  }

  function Begin<V>(s: State<V>, t: Tid, pc: FinishPc<V>): Option<State<V>> {
    if Pc(s, t) == Idle then Some(s.(finishers := s.finishers[t := pc])) else None
  }

  function Next<V>(s: State<V>, a: Action<V>): Option<State<V>> {
    match a
    case BeginPoll(w) =>
      if s.poll == Resting then Some(s.(poll := LoadFlag(w), waiting := None)) else None
    case PollStep => PollNext(s)
    case BeginComplete(t, v) =>
      if s.completer then Begin(s.(completer := false), t, StoreResult(v)) else None
    case BeginDropCompleter(t) =>
      if s.completer then Begin(s.(completer := false), t, LoadForDrop) else None
    case BeginDropTask(t) => Begin(s, t, LoadForDrop)
    case BeginCancel(t) => Begin(s, t, StoreCancelled)
    case FinishStep(t) => FinishNext(s, t)
  }

  function Run<V>(s: State<V>, acts: seq<Action<V>>): Option<State<V>>
    decreases |acts|
  {
    if acts == [] then Some(s)
    else
      match Next(s, acts[0])
      case None => None
      case Some(n) => Run(n, acts[1..])
  }

  // ---- the invariant ----------------------------------------------------------------

  predicate Completing<V>(pc: FinishPc<V>) {
    pc.StoreResult? || pc.StoreReady?
  }

  predicate Waking<V>(pc: FinishPc<V>) {
    pc.TakeWaker? || pc.Wake?
  }

  /** The slot is locked by exactly the thread that is calling the waker it took from it. */
  ghost predicate SlotLocking<V(!new)>(s: State<V>) {
    && (forall t: Tid {:trigger Pc(s, t)} :: Pc(s, t).Wake? <==> s.slotHeldBy == Some(t))
    && (s.slotHeldBy.Some? ==> s.slot == None)
  }

  /** One completer, one value, stored before the flag says so and handed out at most once. */
  ghost predicate OneValue<V(!new)>(s: State<V>) {
    && |s.handedOut| <= 1
    && (s.completer ==> s.result == None && s.handedOut == [] && s.flag != Ready)
    && (forall t: Tid {:trigger Pc(s, t)} ::
          Completing(Pc(s, t)) ==> !s.completer && s.flag != Ready && s.handedOut == [])
    && (forall t: Tid {:trigger Pc(s, t)} :: Pc(s, t).StoreResult? ==> s.result == None)
    && (forall t: Tid {:trigger Pc(s, t)} :: Pc(s, t).StoreReady? ==> s.result.Some?)
    && (forall t: Tid, u: Tid {:trigger Pc(s, t), Pc(s, u)} :: Completing(Pc(s, t)) && Completing(Pc(s, u)) ==> t == u)
    && (s.flag == Ready || s.poll == TakeResult ==> s.result.Some? || |s.handedOut| == 1)
    && (s.poll == TakeResult ==> !s.completer && forall t: Tid {:trigger Pc(s, t)} :: !Completing(Pc(s, t)))
    && (s.handedOut != [] ==> s.result == None)
  }

  /** Somebody will call the waker of a poll that answered "pending". */
  ghost predicate WakerInGoodHands<V(!new)>(s: State<V>) {
    && (forall t: Tid {:trigger Pc(s, t)} :: Waking(Pc(s, t)) ==> s.flag != Pending)
    && (s.poll.Recheck? && s.flag == Pending ==> s.slot == Some(s.poll.w))
    && (s.waiting.Some? ==>
          (s.slot == s.waiting && (s.flag == Pending || exists t: Tid :: Pc(s, t).TakeWaker?)) ||
          (s.slotHeldBy.Some? && Pc(s, s.slotHeldBy.value).Wake? && Pc(s, s.slotHeldBy.value).w == s.waiting.value))
    && (s.settled ==> s.flag != Pending && s.waiting == None)
    && (s.poll != Resting ==> s.waiting == None)
  }

  ghost predicate Inv<V(!new)>(s: State<V>) {
    SlotLocking(s) && OneValue(s) && WakerInGoodHands(s)
  }

  lemma SameFinishers<V(!new)>(s: State<V>, s': State<V>)
    requires s'.finishers == s.finishers
    ensures forall t: Tid {:trigger Pc(s, t)} {:trigger Pc(s', t)} :: Pc(s', t) == Pc(s, t)
  {
  }

  lemma OneFinisherMoves<V(!new)>(s: State<V>, s': State<V>, t: Tid, pc: FinishPc<V>)
    requires s'.finishers == s.finishers[t := pc]
    ensures forall u: Tid {:trigger Pc(s, u)} {:trigger Pc(s', u)} :: u != t ==> Pc(s', u) == Pc(s, u)
    ensures Pc(s', t) == pc
  {
  }

  lemma PollKeeps<V(!new)>(s: State<V>, a: Action<V>)
    requires Inv(s) && (a.BeginPoll? || a.PollStep?) && Next(s, a).Some?
    ensures Inv(Next(s, a).value)
  {
    SameFinishers(s, Next(s, a).value);
    hide Pc;
  }

  lemma BeginKeeps<V(!new)>(s: State<V>, a: Action<V>)
    requires Inv(s) && !a.BeginPoll? && !a.PollStep? && !a.FinishStep? && Next(s, a).Some?
    ensures Inv(Next(s, a).value)
  {
    var s' := Next(s, a).value;
    OneFinisherMoves(s, s', a.t, Pc(s', a.t));
    assert Pc(s, a.t) == Idle && !Waking(Pc(s', a.t));
    hide Pc;
  }

  lemma FinishKeepsSlot<V(!new)>(s: State<V>, t: Tid)
    requires Inv(s) && FinishNext(s, t).Some?
    ensures SlotLocking(FinishNext(s, t).value)
  {
    hide OneValue;
    hide WakerInGoodHands;
    OneFinisherMoves(s, FinishNext(s, t).value, t, FinishTo(s, t));
    hide Pc;
  }

  lemma FinishKeepsValue<V(!new)>(s: State<V>, t: Tid)
    requires Inv(s) && FinishNext(s, t).Some?
    ensures OneValue(FinishNext(s, t).value)
  {
    hide SlotLocking;
    hide WakerInGoodHands;
    OneFinisherMoves(s, FinishNext(s, t).value, t, FinishTo(s, t));
    hide Pc;
  }

  lemma FinishKeepsWaker<V(!new)>(s: State<V>, t: Tid)
    requires Inv(s) && FinishNext(s, t).Some?
    ensures WakerInGoodHands(FinishNext(s, t).value)
  {
    hide OneValue;
    OneFinisherMoves(s, FinishNext(s, t).value, t, FinishTo(s, t));
    hide Pc;
  }

  lemma NextKeeps<V(!new)>(s: State<V>, a: Action<V>)
    requires Inv(s) && Next(s, a).Some?
    ensures Inv(Next(s, a).value)
  {
    match a
    case BeginPoll(_) => PollKeeps(s, a);
    case PollStep => PollKeeps(s, a);
    case FinishStep(t) =>
      FinishKeepsSlot(s, t);
      FinishKeepsValue(s, t);
      FinishKeepsWaker(s, t);
    case _ => BeginKeeps(s, a);
  }

  lemma {:induction false} RunKeeps<V(!new)>(s: State<V>, acts: seq<Action<V>>)
    requires Inv(s) && Run(s, acts).Some?
    ensures Inv(Run(s, acts).value)
    decreases |acts|
  {
    hide Inv;
    if acts != [] {
      NextKeeps(s, acts[0]);
      RunKeeps(Next(s, acts[0]).value, acts[1..]);
    }
  }

  ghost predicate Reachable<V(!new)>(s: State<V>) {
    exists acts :: Run(Initial(), acts) == Some(s)
  }

  lemma ReachableInv<V(!new)>(s: State<V>)
    requires Reachable(s)
    ensures Inv(s)
  {
    var acts :| Run(Initial(), acts) == Some(s);
    RunKeeps(Initial(), acts);
  }

  // ---- what the handle promises ------------------------------------------------------

  /**
   * Once any completing, cancelling or dropping call has been through the waker slot, no
   * poll that answered "pending" is left with its waker not called; and none will be.
   */
  lemma FinishedMeansWoken<V(!new)>(s: State<V>, acts: seq<Action<V>>)
    requires Reachable(s) && s.settled && Run(s, acts).Some?
    ensures var r := Run(s, acts).value; r.settled && r.waiting == None && r.flag != Pending
  {
    ReachableInv(s);
    RunKeeps(s, acts);
    StaysSettled(s, acts);
  }

  lemma {:induction false} StaysSettled<V(!new)>(s: State<V>, acts: seq<Action<V>>)
    requires s.settled && Run(s, acts).Some?
    ensures Run(s, acts).value.settled
    decreases |acts|
  {
    if acts != [] {
      StaysSettled(Next(s, acts[0]).value, acts[1..]);
    }
  }

  /** In a call that is going to set the flag, unless it is set by then. */
  predicate Settling<V>(pc: FinishPc<V>) {
    pc.StoreResult? || pc.StoreReady? || pc.StoreCancelled? || pc.LoadForDrop?
  }

  /** The flag is set, or some finishing call is going to set it. */
  ghost predicate Ending<V(!new)>(s: State<V>) {
    s.flag != Pending || exists t: Tid :: Settling(Pc(s, t))
  }

  /** Using or dropping the completer ends the task, and whoever set the flag is on the way to the waker. */
  ghost predicate Progress<V(!new)>(s: State<V>) {
    && (!s.completer ==> Ending(s))
    && (s.flag != Pending && !s.settled ==> exists t: Tid :: Waking(Pc(s, t)))
  }

  lemma StaysEnding<V(!new)>(s: State<V>, a: Action<V>)
    requires Ending(s) && Next(s, a).Some?
    ensures Ending(Next(s, a).value)
  {
    var n := Next(s, a).value;
    if n.flag == Pending {
      var t :| Settling(Pc(s, t));
      assert Settling(Pc(n, t));
    }
  }

  lemma StaysProgressing<V(!new)>(s: State<V>, a: Action<V>)
    requires Inv(s) && Progress(s) && Next(s, a).Some?
    ensures Progress(Next(s, a).value)
  {
    var n := Next(s, a).value;
    if Ending(s) {
      StaysEnding(s, a);
    }
    if s.completer && !n.completer {
      assert Settling(Pc(n, a.t));
    }
    if n.flag != Pending && !n.settled {
      if s.flag == Pending {
        assert Waking(Pc(n, a.t));
      } else {
        var t :| Waking(Pc(s, t));
        assert Waking(Pc(n, t));
      }
    }
  }

  lemma {:induction false} RunProgresses<V(!new)>(s: State<V>, acts: seq<Action<V>>)
    requires Inv(s) && Progress(s) && Run(s, acts).Some?
    ensures Progress(Run(s, acts).value)
    decreases |acts|
  {
    hide Inv;
    hide Progress;
    hide Next;
    if acts != [] {
      NextKeeps(s, acts[0]);
      StaysProgressing(s, acts[0]);
      RunProgresses(Next(s, acts[0]).value, acts[1..]);
    }
  }

  lemma {:induction false} RunEnds<V(!new)>(s: State<V>, acts: seq<Action<V>>)
    requires Ending(s) && Run(s, acts).Some?
    ensures Ending(Run(s, acts).value)
    decreases |acts|
  {
    hide Ending;
    hide Next;
    if acts != [] {
      StaysEnding(s, acts[0]);
      RunEnds(Next(s, acts[0]).value, acts[1..]);
    }
  }

  /** No finishing call is under way. */
  ghost predicate AllIdle<V(!new)>(s: State<V>) {
    forall t: Tid {:trigger Pc(s, t)} :: Pc(s, t) == Idle
  }

  /** The task has ended, and nobody is left waiting for that. */
  predicate Resolved<V>(s: State<V>) {
    s.flag != Pending && s.settled && s.waiting == None
  }

  /**
   * Completing the task, or dropping the completer without completing it, resolves the handle:
   * once that call and all others are over the flag is set and no pending poll is left uncalled.
   */
  lemma CompleterResolves<V(!new)>(s: State<V>)
    requires Reachable(s) && !s.completer && AllIdle(s)
    ensures Resolved(s)
  {
    var acts :| Run(Initial(), acts) == Some(s);
    RunProgresses(Initial(), acts);
    ReachableInv(s);
  }

  /** So does cancelling it, or dropping a handle that cancels on drop. */
  lemma CancelResolves<V(!new)>(s: State<V>, a: Action<V>, acts: seq<Action<V>>)
    requires Reachable(s) && (a.BeginCancel? || a.BeginDropTask?) && Run(s, [a] + acts).Some?
    requires AllIdle(Run(s, [a] + acts).value)
    ensures Resolved(Run(s, [a] + acts).value)
  {
    assert ([a] + acts)[1..] == acts;
    var n := Next(s, a).value;
    assert Settling(Pc(n, a.t));
    RunEnds(n, acts);
    var before :| Run(Initial(), before) == Some(s);
    RunSplits(Initial(), before, [a] + acts);
    var r := Run(s, [a] + acts).value;
    assert Run(Initial(), before + ([a] + acts)) == Some(r);
    RunProgresses(Initial(), before + ([a] + acts));
    ReachableInv(r);
  }

  lemma {:induction false} RunSplits<V(!new)>(s: State<V>, a: seq<Action<V>>, b: seq<Action<V>>)
    ensures Run(s, a + b) == if Run(s, a).Some? then Run(Run(s, a).value, b) else None
    decreases |a|
  {
    hide Next;
    if a == [] {
      assert a + b == b;
    } else {
      assert (a + b)[0] == a[0] && (a + b)[1..] == a[1..] + b;
      if Next(s, a[0]).Some? {
        RunSplits(Next(s, a[0]).value, a[1..], b);
      }
    }
  }

  // ---- which end it is, by the calls that were made ------------------------------------

  ghost predicate CompletedWith<V(!new)>(acts: seq<Action<V>>, v: V) {
    exists t: Tid :: BeginComplete(t, v) in acts
  }

  predicate Cancels<V>(a: Action<V>) {
    a.BeginCancel? || a.BeginDropTask? || a.BeginDropCompleter?
  }

  predicate SomeCancel<V>(acts: seq<Action<V>>) {
    exists i :: 0 <= i < |acts| && Cancels(acts[i])
  }

  /** Every value came with a completing call. */
  ghost predicate ValuesCaused<V(!new)>(s: State<V>, acts: seq<Action<V>>) {
    && (s.result.Some? ==> CompletedWith(acts, s.result.value))
    && (forall i :: 0 <= i < |s.handedOut| ==> CompletedWith(acts, s.handedOut[i]))
    && (s.last.Some? && s.last.value.Value? ==> CompletedWith(acts, s.last.value.v))
    && (forall t: Tid {:trigger Pc(s, t)} :: Pc(s, t).StoreResult? ==> CompletedWith(acts, Pc(s, t).v))
  }

  /** Every cancellation came with a cancelling or dropping call. */
  ghost predicate CancelsCaused<V(!new)>(s: State<V>, acts: seq<Action<V>>) {
    && (s.flag == Cancelled || s.last == Some(WasCancelled) ==> SomeCancel(acts))
    && (forall t: Tid {:trigger Pc(s, t)} ::
          Pc(s, t).StoreCancelled? || (Pc(s, t).LoadForDrop? && s.flag == Pending) ==> SomeCancel(acts))
  }

  ghost predicate Caused<V(!new)>(s: State<V>, acts: seq<Action<V>>) {
    ValuesCaused(s, acts) && CancelsCaused(s, acts)
  }

  lemma MoreCalls<V(!new)>(acts: seq<Action<V>>, a: Action<V>)
    ensures forall v :: CompletedWith(acts, v) ==> CompletedWith(acts + [a], v)
    ensures a.BeginComplete? ==> CompletedWith(acts + [a], a.v)
    ensures SomeCancel(acts) || Cancels(a) ==> SomeCancel(acts + [a])
  {
    forall v | CompletedWith(acts, v)
      ensures CompletedWith(acts + [a], v)
    {
      var t: Tid :| BeginComplete(t, v) in acts;
      assert BeginComplete(t, v) in acts + [a];
    }
    if a.BeginComplete? {
      assert a == BeginComplete(a.t, a.v) && a in acts + [a];
    }
    if SomeCancel(acts) {
      var i :| 0 <= i < |acts| && Cancels(acts[i]);
      assert Cancels((acts + [a])[i]);
    } else if Cancels(a) {
      assert Cancels((acts + [a])[|acts|]);
    }
  }

  /** What a step does to the finishing threads: at most the one that it names moves. */
  lemma Moves<V(!new)>(s: State<V>, a: Action<V>)
    requires Next(s, a).Some?
    ensures var n := Next(s, a).value;
            if a.BeginPoll? || a.PollStep? then
              forall t: Tid {:trigger Pc(s, t)} {:trigger Pc(n, t)} :: Pc(n, t) == Pc(s, t)
            else forall t: Tid {:trigger Pc(s, t)} {:trigger Pc(n, t)} :: t != a.t ==> Pc(n, t) == Pc(s, t)
  {
  }

  lemma PolledValues<V(!new)>(s: State<V>, before: seq<Action<V>>)
    requires ValuesCaused(s, before) && PollNext(s).Some?
    ensures ValuesCaused(PollNext(s).value, before + [PollStep])
  {
    hide CompletedWith;
    MoreCalls(before, PollStep);
    var n := PollNext(s).value;
    SameFinishers(s, n);
    hide Pc;
    if s.poll == TakeResult && s.result.Some? {
      HandedOver(s, before + [PollStep]);
      hide PollNext;
    } else {
      NothingTaken(s);
      hide PollNext;
    }
  }

  lemma HandedOver<V(!new)>(s: State<V>, acts: seq<Action<V>>)
    requires s.poll == TakeResult && s.result.Some? && CompletedWith(acts, s.result.value)
    requires forall i :: 0 <= i < |s.handedOut| ==> CompletedWith(acts, s.handedOut[i])
    ensures var n := PollNext(s).value;
            && n.result == None && n.last == Some(Value(s.result.value))
            && forall i :: 0 <= i < |n.handedOut| ==> CompletedWith(acts, n.handedOut[i])
  {
    hide CompletedWith;
  }

  lemma NothingTaken<V(!new)>(s: State<V>)
    requires PollNext(s).Some? && (s.poll != TakeResult || s.result == None)
    ensures var n := PollNext(s).value;
            && n.result == s.result && n.handedOut == s.handedOut
            && (n.last == s.last || (n.last.Some? && !n.last.value.Value?))
  {
  }

  lemma FinishedValues<V(!new)>(s: State<V>, before: seq<Action<V>>, t: Tid)
    requires ValuesCaused(s, before) && FinishNext(s, t).Some?
    ensures ValuesCaused(FinishNext(s, t).value, before + [FinishStep(t)])
  {
    hide CompletedWith;
    MoreCalls(before, FinishStep(t));
    OneFinisherMoves(s, FinishNext(s, t).value, t, FinishTo(s, t));
    hide Pc;
  }

  lemma ValuesStayCaused<V(!new)>(s: State<V>, before: seq<Action<V>>, a: Action<V>)
    requires ValuesCaused(s, before) && Next(s, a).Some?
    ensures ValuesCaused(Next(s, a).value, before + [a])
  {
    if a.PollStep? {
      PolledValues(s, before);
    } else if a.FinishStep? {
      FinishedValues(s, before, a.t);
    } else {
      hide CompletedWith;
      MoreCalls(before, a);
      Moves(s, a);
    }
  }

  lemma CancelsStayCaused<V(!new)>(s: State<V>, before: seq<Action<V>>, a: Action<V>)
    requires Inv(s) && CancelsCaused(s, before) && Next(s, a).Some?
    ensures CancelsCaused(Next(s, a).value, before + [a])
  {
    hide CompletedWith;
    hide SomeCancel;
    hide SlotLocking;
    hide OneValue;
    MoreCalls(before, a);
    Moves(s, a);
  }

  lemma StaysCaused<V(!new)>(s: State<V>, before: seq<Action<V>>, a: Action<V>)
    requires Inv(s) && Caused(s, before) && Next(s, a).Some?
    ensures Caused(Next(s, a).value, before + [a])
  {
    hide ValuesCaused;
    hide CancelsCaused;
    ValuesStayCaused(s, before, a);
    CancelsStayCaused(s, before, a);
  }

  lemma {:induction false} RunCaused<V(!new)>(s: State<V>, before: seq<Action<V>>, acts: seq<Action<V>>)
    requires Inv(s) && Caused(s, before) && Run(s, acts).Some?
    ensures Caused(Run(s, acts).value, before + acts)
    decreases |acts|
  {
    hide Inv;
    hide Caused;
    hide Next;
    if acts == [] {
      assert before + acts == before;
    } else {
      NextKeeps(s, acts[0]);
      StaysCaused(s, before, acts[0]);
      RunCaused(Next(s, acts[0]).value, before + [acts[0]], acts[1..]);
      assert before + acts == (before + [acts[0]]) + acts[1..];
    }
  }

  /**
   * Over any run the handle is READY only with the value of a completing call, which is what it
   * hands out and what its polls answer, and it is CANCELLED, and says so, only after a
   * cancelling or dropping call.
   */
  lemma EndIsCaused<V(!new)>(acts: seq<Action<V>>)
    requires Run(Initial(), acts).Some?
    ensures var s := Run(Initial(), acts).value;
            && (s.flag == Ready ==> exists v :: CompletedWith(acts, v) && (s.result == Some(v) || s.handedOut == [v]))
            && (s.last.Some? && s.last.value.Value? ==> CompletedWith(acts, s.last.value.v))
            && (s.flag == Cancelled || s.last == Some(WasCancelled) ==> SomeCancel(acts))
  {
    RunKeeps(Initial(), acts);
    RunCaused(Initial(), [], acts);
    assert [] + acts == acts;
    var s := Run(Initial(), acts).value;
    if s.flag == Ready {
      var v := if s.result.Some? then s.result.value else s.handedOut[0];
      assert CompletedWith(acts, v);
      assert s.result == Some(v) || s.handedOut == [v];
    }
  }

  /** So a task that was completed and never cancelled ends READY. */
  lemma CompletionWins<V(!new)>(acts: seq<Action<V>>)
    requires Run(Initial(), acts).Some? && !SomeCancel(acts)
    requires !Run(Initial(), acts).value.completer && AllIdle(Run(Initial(), acts).value)
    ensures Run(Initial(), acts).value.flag == Ready
  {
    EndIsCaused(acts);
    var s := Run(Initial(), acts).value;
    assert Reachable(s);
    CompleterResolves(s);
  }

  // ---- what a poll answers ----------------------------------------------------------------

  predicate BeginsPoll<V>(acts: seq<Action<V>>) {
    exists i :: 0 <= i < |acts| && acts[i].BeginPoll?
  }

  /** Cancelled, and no completion can still come. */
  ghost predicate CancelledForGood<V(!new)>(s: State<V>) {
    s.flag == Cancelled && !MayComplete(s)
  }

  lemma StaysForGood<V(!new)>(s: State<V>, a: Action<V>)
    requires CancelledForGood(s) && Next(s, a).Some?
    ensures CancelledForGood(Next(s, a).value)
  {
    var n := Next(s, a).value;
    assert !Completing(Pc(s, 0));
    forall t
      ensures !Completing(Pc(n, t))
    {
      assert !Completing(Pc(s, t));
    }
  }

  predicate EndAnswer<V>(last: Option<Answer<V>>, forGood: bool) {
    last.Some? && last.value != StillPending && (forGood ==> last.value == WasCancelled)
  }

  /**
   * A poll that begins once the task has ended answers something else than "pending", whatever
   * happens meanwhile; and it answers "cancelled", time after time, if that is for good.
   */
  lemma {:induction false} EndedPollAnswers<V(!new)>(s: State<V>, acts: seq<Action<V>>, forGood: bool)
    requires s.flag != Pending && (s.poll == Resting || s.poll.LoadFlag? || s.poll == TakeResult)
    requires forGood ==> CancelledForGood(s) && s.poll != TakeResult
    requires Run(s, acts).Some?
    ensures var r := Run(s, acts).value;
            r.poll == Resting && (s.poll != Resting || BeginsPoll(acts) || EndAnswer(s.last, forGood)) ==>
              EndAnswer(r.last, forGood)
    decreases |acts|
  {
    hide MayComplete;
    if acts != [] {
      var n := Next(s, acts[0]).value;
      if forGood {
        StaysForGood(s, acts[0]);
      }
      EndedPollAnswers(n, acts[1..], forGood);
      if BeginsPoll(acts) && !acts[0].BeginPoll? {
        var i :| 0 <= i < |acts| && acts[i].BeginPoll?;
        assert acts[1..][i - 1].BeginPoll?;
      }
    }
  }

  /**
   * A cancel that stores its flag after the task was completed takes the value back for good:
   * every poll that begins after that answers "cancelled", whatever happens then.
   */
  lemma CancelTakesBack<V(!new)>(s: State<V>, t: Tid, acts: seq<Action<V>>)
    requires Reachable(s) && s.flag == Ready && s.poll == Resting && Pc(s, t) == StoreCancelled
    requires Run(s, [FinishStep(t)] + acts).Some? && BeginsPoll(acts)
    ensures var r := Run(s, [FinishStep(t)] + acts).value;
            r.flag == Cancelled && (r.poll == Resting ==> r.last == Some(WasCancelled))
  {
    ReachableInv(s);
    var n := Next(s, FinishStep(t)).value;
    OneFinisherMoves(s, n, t, FinishTo(s, t));
    assert ([FinishStep(t)] + acts)[1..] == acts;
    assert CancelledForGood(n) by {
      forall u ensures !Completing(Pc(n, u)) {
        assert !Completing(Pc(s, u));
      }
    }
    EndedPollAnswers(n, acts, true);
    StaysCancelled(n, acts);
  }

  /** Until then a waiting waker is in the slot, or in the hands of a thread about to call it. */
  lemma WaitingIsCovered<V(!new)>(s: State<V>) returns (t: Tid)
    requires Reachable(s) && s.waiting.Some? && s.flag != Pending
    ensures Waking(Pc(s, t))
    ensures Pc(s, t).TakeWaker? ==>
              s.slot == s.waiting && s.slotHeldBy == None &&
              FinishNext(s, t).Some? && Pc(FinishNext(s, t).value, t).Wake? &&
              Pc(FinishNext(s, t).value, t).w == s.waiting.value
    ensures Pc(s, t).Wake? ==>
              Pc(s, t).w == s.waiting.value &&
              FinishNext(s, t).Some? && FinishNext(s, t).value.waiting == None
  {
    ReachableInv(s);
    if s.slotHeldBy.Some? {
      t := s.slotHeldBy.value;
    } else {
      t :| Pc(s, t).TakeWaker?;
    }
  }

  /** A finishing call in which the flag went from pending passes through the slot: it always can. */
  lemma SlotHolderProceeds<V(!new)>(s: State<V>, t: Tid)
    requires Reachable(s) && Pc(s, t) != Idle && FinishNext(s, t) == None
    ensures Pc(s, t).TakeWaker? && s.slotHeldBy.Some? && FinishNext(s, s.slotHeldBy.value).Some?
  {
    ReachableInv(s);
    assert Pc(s, s.slotHeldBy.value).Wake?;
  }

  /** The steps left in a finishing call, each of which is one less. */
  function StepsLeft<V>(pc: FinishPc<V>): nat {
    match pc
    case Idle => 0
    case LoadForDrop => 4
    case StoreCancelled => 3
    case TakeWaker(owner) => if owner then 6 else 2
    case Wake(_, owner) => if owner then 5 else 1
    case StoreReady => 7
    case StoreResult(_) => 8
  }

  lemma FinishingEnds<V(!new)>(s: State<V>, t: Tid)
    requires FinishNext(s, t).Some?
    ensures StepsLeft(Pc(FinishNext(s, t).value, t)) < StepsLeft(Pc(s, t))
  {
    OneFinisherMoves(s, FinishNext(s, t).value, t, FinishTo(s, t));
  }

  /** The flag says READY only when the value is there to be taken, or has been. */
  lemma ReadyHasValue<V(!new)>(s: State<V>)
    requires Reachable(s) && s.flag == Ready
    ensures s.result.Some? <==> s.handedOut == []
  {
    ReachableInv(s);
  }

  /** The value is handed out at most once, over any run. */
  lemma HandedOutOnce<V(!new)>(s: State<V>)
    requires Reachable(s)
    ensures |s.handedOut| <= 1
  {
    ReachableInv(s);
  }

  /** A poll that reaches for the result panics iff an earlier poll already handed the value out. */
  lemma PanicsIffHandedOut<V(!new)>(s: State<V>)
    requires Reachable(s) && s.poll == TakeResult
    ensures PollNext(s).Some?
    ensures PollNext(s).value.last == Some(Panicked) <==> s.handedOut != []
    ensures PollNext(s).value.last != Some(Panicked) ==>
              s.result.Some? && PollNext(s).value.last == Some(Value(s.result.value))
  {
    ReachableInv(s);
  }

  /** `is_finished` never goes back to false. */
  lemma {:induction false} FinishedForGood<V(!new)>(s: State<V>, acts: seq<Action<V>>)
    requires s.flag != Pending && Run(s, acts).Some?
    ensures Run(s, acts).value.flag != Pending
    decreases |acts|
  {
    if acts != [] {
      FinishedForGood(Next(s, acts[0]).value, acts[1..]);
    }
  }

  // ---- is a cancelled handle cancelled for good? ---------------------------------------

  /** The completer has not been used yet, or its call has not yet stored READY. */
  ghost predicate MayComplete<V(!new)>(s: State<V>) {
    s.completer || exists t: Tid :: Completing(Pc(s, t))
  }

  /**
   * The documentation says that a cancelled handle resolves to "cancelled" even if the task
   * completes later. The code keeps that promise exactly when no completion can still come:
   * `complete` overwrites the flag.
   */
  lemma CancelHoldsIff<V(!new)>(s: State<V>, v: V)
    requires Reachable(s) && s.flag == Cancelled
    ensures (forall acts :: Run(s, acts).Some? ==> Run(s, acts).value.flag == Cancelled) <==> !MayComplete(s)
  {
    ReachableInv(s);
    if MayComplete(s) {
      var acts := Overwrite(s, v);
      assert Run(s, acts).value.flag == Ready;
    } else {
      forall acts | Run(s, acts).Some?
        ensures Run(s, acts).value.flag == Cancelled
      {
        StaysCancelled(s, acts);
      }
    }
  }

  lemma {:induction false} StaysCancelled<V(!new)>(s: State<V>, acts: seq<Action<V>>)
    requires s.flag == Cancelled && !MayComplete(s) && Run(s, acts).Some?
    ensures Run(s, acts).value.flag == Cancelled
    decreases |acts|
  {
    if acts != [] {
      var n := Next(s, acts[0]).value;
      assert !MayComplete(n) by {
        forall t
          ensures !Completing(Pc(n, t))
        {
          assert !Completing(Pc(s, t));
        }
      }
      StaysCancelled(n, acts[1..]);
    }
  }

  lemma FreeThread<V(!new)>(s: State<V>) returns (t: Tid)
    ensures Pc(s, t) == Idle
  {
    t := FreshIn(s.finishers.Keys);
  }

  lemma FreshIn(used: set<Tid>) returns (t: Tid)
    ensures forall u: Tid :: u in used ==> u < t
    decreases |used|
  {
    if used == {} {
      t := 0;
    } else {
      var u :| u in used;
      var rest := FreshIn(used - {u});
      t := if u < rest then rest else u + 1;
      assert forall x: Tid :: x in used ==> x == u || x in used - {u};
    }
  }

  /** The run in which the pending completion goes through. */
  lemma Overwrite<V(!new)>(s: State<V>, v: V) returns (acts: seq<Action<V>>)
    requires MayComplete(s)
    ensures Run(s, acts).Some? && Run(s, acts).value.flag == Ready
  {
    if s.completer {
      var t := FreeThread(s);
      var s1 := Next(s, BeginComplete(t, v)).value;
      var rest := Store(s1, t);
      acts := [BeginComplete(t, v)] + rest;
    } else {
      var t :| Completing(Pc(s, t));
      acts := Store(s, t);
    }
  }

  lemma Store<V(!new)>(s: State<V>, t: Tid) returns (acts: seq<Action<V>>)
    requires Completing(Pc(s, t))
    ensures Run(s, acts).Some? && Run(s, acts).value.flag == Ready
    decreases StepsLeft(Pc(s, t))
  {
    if Pc(s, t).StoreReady? {
      acts := [FinishStep(t)];
      assert Run(Next(s, acts[0]).value, acts[1..]) == Next(s, acts[0]);
    } else {
      var rest := Store(Next(s, FinishStep(t)).value, t);
      acts := [FinishStep(t)] + rest;
      assert acts[1..] == rest;
    }
  }
}
