/**
 * The wake/park protocol of the executor, as an interleaving state machine. One thread
 * runs the executor; any number of threads run wakers. Every atomic access and every
 * acquisition or release of the queue lock is one step, in any order the threads choose.
 */
module Executor {
  import opened Wrappers

  type Id = nat
  type Tid = nat

  /** Whose future is being polled. */
  datatype Polling = MainFuture | TaskFuture(id: Id)

  /** Where the executor thread is. */
  datatype ExecPc =
    | Outside
    | SwapNotified
    | Poll(p: Polling)
    | Spawn(back: Option<Polling>, id: Id)
    | Pop
    | TakeEntry(id: Id)
    | ClearQueued(id: Id)
    | StoreDone(id: Id)
    | Reinsert(id: Id)
    | LockToPark
    | CheckNotified
    | CheckQueue
    | Parked
    | Relock

  /** Where a waking thread is, inside `wake_target` or `MainWaker::wake`. */
  datatype WakerPc =
    | Idle
    | LoadDone(id: Id)
    | SwapQueued(id: Id)
    | LockQueue(id: Id)
    | Push(id: Id)
    | Notify
    | Unlock
    | MainStore(call: nat)
    | MainLock
    | MainNotify
    | MainUnlock

  datatype Lock = Free | ByExec | ByWaker(t: Tid)

  /**
   * Every call of block_on has a `notified` flag of its own: `calls` counts the calls and
   * `notified` is the flag of the latest. Two fields only record history: `taken` the ids
   * popped so far, and `wakes` the tasks with an accepted or coalesced wake that no poll has
   * followed yet.
   */
  datatype State = State(
    queue: seq<Id>, queued: set<Id>, done: set<Id>, registry: set<Id>, nextId: Id,
    notified: bool, calls: nat, blocking: bool, lock: Lock, exec: ExecPc, wakers: map<Tid, WakerPc>,
    taken: seq<Id>, wakes: set<Id>)

  function Initial(): State {
    State([], {}, {}, {}, 1, false, 0, false, Free, Outside, map[], [], {})
  }

  function Pc(s: State, t: Tid): WakerPc {
    if t in s.wakers then s.wakers[t] else Idle
  }

  datatype Action =
    | EnterBlockOn
    | EnterRunUntilStalled
    | BeginSpawn
    | FinishPoll(ready: bool)
    | ExecStep
    | TimeOut
    | BeginWake(t: Tid, id: Id)
    | BeginMainWake(t: Tid, call: nat)
    | WakerStep(t: Tid)

  /** The polled future spawns a task, or code outside the executor does. */
  function AfterSpawn(back: Option<Polling>): ExecPc {
    match back case None => Outside case Some(p) => Poll(p)
  }

  function ExecNext(s: State): Option<State> {
    match s.exec
    case SwapNotified =>
      if s.notified then Some(s.(notified := false, exec := Poll(MainFuture))) else Some(s.(exec := Pop))
    case Spawn(back, id) =>
      if s.lock != Free then None else Some(s.(queue := s.queue + [id], exec := AfterSpawn(back)))
    case Pop =>
      if s.lock != Free then None
      else if s.queue == [] then Some(s.(exec := if s.blocking then LockToPark else Outside))
      else Some(s.(queue := s.queue[1..], taken := s.taken + [s.queue[0]], exec := TakeEntry(s.queue[0])))
    case TakeEntry(id) =>
      if id in s.registry then Some(s.(registry := s.registry - {id}, exec := ClearQueued(id)))
      else Some(s.(exec := Pop))
    case ClearQueued(id) =>
      Some(s.(queued := s.queued - {id}, wakes := s.wakes - {id}, exec := Poll(TaskFuture(id))))
    case StoreDone(id) => Some(s.(done := s.done + {id}, exec := Pop))
    case Reinsert(id) => Some(s.(registry := s.registry + {id}, exec := Pop))
    case LockToPark => if s.lock != Free then None else Some(s.(lock := ByExec, exec := CheckNotified))
    case CheckNotified =>
      if s.notified then Some(s.(lock := Free, exec := SwapNotified)) else Some(s.(exec := CheckQueue))
    case CheckQueue =>
      Some(s.(lock := Free, exec := if s.queue != [] then SwapNotified else Parked))
    case Relock => if s.lock != Free then None else Some(s.(exec := SwapNotified))
    case Outside => None
    case Poll(_) => None
    case Parked => None
  }

  function Notified(e: ExecPc): ExecPc {
    if e == Parked then Relock else e
  }

  /** Where a waker's step takes it. */
  function WakerTo(s: State, t: Tid): WakerPc {
    match Pc(s, t)
    case Idle => Idle
    case LoadDone(id) => if id in s.done then Idle else SwapQueued(id)
    case SwapQueued(id) => if id in s.queued then Idle else LockQueue(id)
    case LockQueue(id) => Push(id)
    case Push(id) => Notify
    case Notify => Unlock
    case Unlock => Idle
    case MainStore(_) => MainLock
    case MainLock => MainNotify
    case MainNotify => MainUnlock
    case MainUnlock => Idle
  }

  /** What the step does to the shared state; None while the lock it needs is taken. */
  function WakerEffect(s: State, t: Tid): Option<State> {
    match Pc(s, t)
    case Idle => None
    case LoadDone(_) => Some(s)
    case SwapQueued(id) => Some(s.(queued := s.queued + {id}, wakes := s.wakes + {id}))
    case LockQueue(_) => if s.lock != Free then None else Some(s.(lock := ByWaker(t)))
    case Push(id) => Some(s.(queue := s.queue + [id]))
    case Notify => Some(s.(exec := Notified(s.exec)))
    case Unlock => Some(s.(lock := Free))
    case MainStore(call) => Some(s.(notified := s.notified || call == s.calls))
    case MainLock => if s.lock != Free then None else Some(s.(lock := ByWaker(t)))
    case MainNotify => Some(s.(exec := Notified(s.exec)))
    case MainUnlock => Some(s.(lock := Free))
  }

  function WakerNext(s: State, t: Tid): Option<State> {
    match WakerEffect(s, t)
    case None => None
    case Some(e) => Some(e.(wakers := s.wakers[t := WakerTo(s, t)]))
  }

  /** One step of one thread; None when that step is not possible. */
  function Next(s: State, a: Action): Option<State> {
    match a
    case EnterBlockOn =>
      if s.exec != Outside then None
      else Some(s.(notified := true, calls := s.calls + 1, blocking := true, exec := SwapNotified))
    case EnterRunUntilStalled =>
      if s.exec != Outside then None else Some(s.(blocking := false, exec := Pop))
    case BeginSpawn =>
      var id := s.nextId;
      var spawned := s.(nextId := id + 1, queued := s.queued + {id}, registry := s.registry + {id});
      if s.exec == Outside then Some(spawned.(exec := Spawn(None, id)))
      else if s.exec.Poll? then Some(spawned.(exec := Spawn(Some(s.exec.p), id)))
      else None
    case FinishPoll(ready) =>
      if !s.exec.Poll? then None
      else
        Some(s.(exec := match s.exec.p
                        case MainFuture => if ready then Outside else Pop
                        case TaskFuture(id) => if ready then StoreDone(id) else Reinsert(id)))
    case ExecStep => ExecNext(s)
    case TimeOut => if s.exec == Parked then Some(s.(exec := Relock)) else None
    case BeginWake(t, id) =>
      if Pc(s, t) == Idle && id < s.nextId then Some(s.(wakers := s.wakers[t := LoadDone(id)])) else None
    case BeginMainWake(t, call) =>
      if Pc(s, t) == Idle && call <= s.calls then Some(s.(wakers := s.wakers[t := MainStore(call)])) else None
    case WakerStep(t) => WakerNext(s, t)
  }

  // ---- who is responsible for a queued task ----------------------------------------

  /** The task id a waker has flagged but not yet pushed. */
  function Carried(pc: WakerPc): Option<Id> {
    match pc
    case LockQueue(id) => Some(id)
    case Push(id) => Some(id)
    case _ => None
  }

  /** The task id the executor has popped but not yet cleared, or is about to enqueue. */
  function ExecCarried(e: ExecPc): Option<Id> {
    match e
    case TakeEntry(id) => Some(id)
    case ClearQueued(id) => Some(id)
    case Spawn(_, id) => Some(id)
    case _ => None
  }

  /** The task whose entry the executor holds outside the registry. */
  function InHand(e: ExecPc): Option<Id> {
    match e
    case ClearQueued(id) => Some(id)
    case Poll(TaskFuture(id)) => Some(id)
    case Spawn(Some(TaskFuture(id)), _) => Some(id)
    case Reinsert(id) => Some(id)
    case _ => None
  }

  predicate Unfinished(s: State, id: Id) {
    id in s.registry || InHand(s.exec) == Some(id)
  }

  predicate HeldLock(pc: WakerPc) {
    pc.Push? || pc.Notify? || pc.Unlock? || pc.MainNotify? || pc.MainUnlock?
  }

  ghost predicate CarriedBySome(s: State, id: Id) {
    exists t :: Carried(Pc(s, t)) == Some(id)
  }

  // ---- the invariant ----------------------------------------------------------------

  ghost predicate Locking(s: State) {
    && (s.lock == ByExec <==> s.exec == CheckNotified || s.exec == CheckQueue)
    && (forall t {:trigger Pc(s, t)} :: HeldLock(Pc(s, t)) <==> s.lock == ByWaker(t))
  }

  predicate DistinctIds(q: seq<Id>) {
    forall i, j :: 0 <= i < j < |q| ==> q[i] != q[j]
  }

  /** No task has two parties responsible for getting it polled. */
  ghost predicate Exclusive(s: State) {
    && DistinctIds(s.queue)
    && (forall id :: id in s.queue ==> id in s.queued && ExecCarried(s.exec) != Some(id))
    && (ExecCarried(s.exec).Some? ==> ExecCarried(s.exec).value in s.queued)
    && (forall t {:trigger Pc(s, t)} :: Carried(Pc(s, t)).Some? ==>
          var id := Carried(Pc(s, t)).value;
          id in s.queued && id !in s.queue && ExecCarried(s.exec) != Some(id))
    && (forall t, u {:trigger Pc(s, t), Pc(s, u)} :: t != u && Carried(Pc(s, t)).Some? ==>
          Carried(Pc(s, t)) != Carried(Pc(s, u)))
  }

  /** Every unfinished task flagged `queued` has somebody responsible for it. */
  ghost predicate Accounted(s: State) {
    forall id {:trigger Unfinished(s, id)} :: Unfinished(s, id) && id in s.queued ==>
      id in s.queue || ExecCarried(s.exec) == Some(id) || CarriedBySome(s, id)
  }

  /** Ids in use have been allocated, and a wake waits only on a flagged task. */
  ghost predicate Allocated(s: State) {
    && (forall id :: id in s.queued || id in s.registry || id in s.done || id in s.wakes ==> id < s.nextId)
    && (forall t {:trigger Pc(s, t)} ::
          (Pc(s, t).LoadDone? || Pc(s, t).SwapQueued?) ==> Pc(s, t).id < s.nextId)
    && s.wakes <= s.queued
  }

  /** An entry is in the registry or in the executor's hands, not both; done ones in neither. */
  ghost predicate Registered(s: State) {
    && (InHand(s.exec).Some? ==> InHand(s.exec).value < s.nextId && InHand(s.exec).value !in s.registry)
    && (s.exec.StoreDone? ==> s.exec.id < s.nextId && s.exec.id !in s.registry)
    && (forall id {:trigger id in s.done} :: id in s.done ==> !Unfinished(s, id))
    && (s.exec.Spawn? ==> s.exec.id in s.registry)
  }

  /** While parked, work can only have arrived together with a wake still under way. */
  ghost predicate SleepsSafely(s: State) {
    && (s.exec == Parked && s.queue != [] ==> s.lock.ByWaker? && Pc(s, s.lock.t) == Notify)
    && ((s.exec == CheckQueue || s.exec == Parked) && s.notified ==>
          exists t :: Pc(s, t) == MainLock || (Pc(s, t) == MainNotify && s.exec == Parked))
  }

  ghost predicate Inv(s: State) {
    Locking(s) && Exclusive(s) && Accounted(s) && Allocated(s) && Registered(s) && SleepsSafely(s)
  }

  lemma InitialInv()
    ensures Inv(Initial())
  {
  }

  /** Steps of the executor move no waker. */
  lemma SameWakers(s: State, s': State)
    requires s'.wakers == s.wakers
    ensures forall t {:trigger Pc(s, t)} {:trigger Pc(s', t)} :: Pc(s', t) == Pc(s, t)
    ensures forall id :: CarriedBySome(s, id) ==> CarriedBySome(s', id)
  {
    forall id: Id | CarriedBySome(s, id)
      ensures CarriedBySome(s', id)
    {
      var t :| Carried(Pc(s, t)) == Some(id);
      assert Carried(Pc(s', t)) == Some(id);
    }
  }

  lemma QueueStepKeepsExclusive(s: State)
    requires Inv(s) && ExecNext(s).Some? && (s.exec == Pop || s.exec.Spawn?)
    ensures Exclusive(ExecNext(s).value)
  {
    hide Accounted;
    hide SleepsSafely;
    hide Locking;
    hide Allocated;
    hide Registered;
    hide DistinctIds;
    SameWakers(s, ExecNext(s).value);
    if s.exec == Pop {
      if s.queue != [] {
        PoppedIds(s.queue);
      }
    } else {
      PushedIds(s.queue, s.exec.id);
    }
  }

  lemma ExecKeepsExclusive(s: State)
    requires Inv(s) && ExecNext(s).Some?
    ensures Exclusive(ExecNext(s).value)
  {
    if s.exec == Pop || s.exec.Spawn? {
      QueueStepKeepsExclusive(s);
    } else {
      hide Accounted;
      hide SleepsSafely;
      hide Locking;
      hide Allocated;
      hide Registered;
      hide DistinctIds;
      SameWakers(s, ExecNext(s).value);
    }
  }

  lemma PoppedIds(q: seq<Id>)
    requires q != [] && DistinctIds(q)
    ensures DistinctIds(q[1..]) && q[0] in q
    ensures forall id :: id in q[1..] ==> id in q && id != q[0]
  {
  }

  lemma PushedIds(q: seq<Id>, id: Id)
    requires DistinctIds(q) && id !in q
    ensures DistinctIds(q + [id])
    ensures forall x :: x in q + [id] <==> x in q || x == id
  {
  }

  lemma ExecKeepsAccounted(s: State)
    requires Inv(s) && ExecNext(s).Some?
    ensures Accounted(ExecNext(s).value)
  {
    hide SleepsSafely;
    hide Locking;
    var s' := ExecNext(s).value;
    SameWakers(s, s');
    hide CarriedBySome;
    forall id | Unfinished(s', id) && id in s'.queued
      ensures id in s'.queue || ExecCarried(s'.exec) == Some(id) || CarriedBySome(s', id)
    {
      assert Unfinished(s, id);
    }
  }

  lemma ExecKeepsRegistered(s: State)
    requires Inv(s) && ExecNext(s).Some?
    ensures Allocated(ExecNext(s).value) && Registered(ExecNext(s).value)
  {
    hide Accounted;
    hide SleepsSafely;
    hide Locking;
    SameWakers(s, ExecNext(s).value);
  }

  lemma ExecKeepsParking(s: State)
    requires Inv(s) && ExecNext(s).Some?
    ensures Locking(ExecNext(s).value) && SleepsSafely(ExecNext(s).value)
  {
    hide Accounted;
    hide Exclusive;
    hide Allocated;
    hide Registered;
    SameWakers(s, ExecNext(s).value);
  }

  // ---- steps of the environment and of wakers ---------------------------------------

  predicate IsEnvironment(a: Action) {
    !a.ExecStep? && !a.WakerStep? && !a.BeginWake? && !a.BeginMainWake?
  }

  lemma EnvironmentKeeps(s: State, a: Action)
    requires Inv(s) && IsEnvironment(a) && Next(s, a).Some?
    ensures Inv(Next(s, a).value)
  {
    var s' := Next(s, a).value;
    SameWakers(s, s');
    hide CarriedBySome;
    forall id | Unfinished(s', id) && id in s'.queued
      ensures id in s'.queue || ExecCarried(s'.exec) == Some(id) || CarriedBySome(s', id)
    {
      assert (a.BeginSpawn? && id == s.nextId) || Unfinished(s, id);
    }
  }

  /** A waker's step moves that waker only. */
  lemma OneWakerMoves(s: State, s': State, t: Tid, pc: WakerPc)
    requires s'.wakers == s.wakers[t := pc]
    ensures forall u: Tid {:trigger Pc(s, u)} {:trigger Pc(s', u)} :: u != t ==> Pc(s', u) == Pc(s, u)
    ensures Pc(s', t) == pc
    ensures forall id: Id :: CarriedBySome(s, id) && Carried(Pc(s, t)) != Some(id) ==> CarriedBySome(s', id)
  {
    forall id: Id | CarriedBySome(s, id) && Carried(Pc(s, t)) != Some(id)
      ensures CarriedBySome(s', id)
    {
      var u :| Carried(Pc(s, u)) == Some(id);
      assert Carried(Pc(s', u)) == Some(id);
    }
  }

  lemma BeginWakeKeeps(s: State, a: Action)
    requires Inv(s) && (a.BeginWake? || a.BeginMainWake?) && Next(s, a).Some?
    ensures Inv(Next(s, a).value)
  {
    var s' := Next(s, a).value;
    OneWakerMoves(s, s', a.t, Pc(s', a.t));
    hide CarriedBySome;
    forall id | Unfinished(s', id) && id in s'.queued
      ensures id in s'.queue || ExecCarried(s'.exec) == Some(id) || CarriedBySome(s', id)
    {
      assert Unfinished(s, id);
    }
  }

  lemma WakerKeepsLocking(s: State, t: Tid)
    requires Inv(s) && WakerNext(s, t).Some?
    ensures Locking(WakerNext(s, t).value)
  {
    hide Accounted;
    hide Exclusive;
    hide Allocated;
    hide Registered;
    hide SleepsSafely;
    var s' := WakerNext(s, t).value;
    OneWakerMoves(s, s', t, WakerTo(s, t));
    hide Pc;
  }

  lemma CarryingKeepsExclusive(s: State, t: Tid)
    requires Inv(s) && WakerNext(s, t).Some?
    requires Pc(s, t).SwapQueued? || Pc(s, t).LockQueue? || Pc(s, t).Push?
    ensures Exclusive(WakerNext(s, t).value)
  {
    hide Accounted;
    hide SleepsSafely;
    hide Locking;
    hide Allocated;
    hide Registered;
    hide DistinctIds;
    var s' := WakerNext(s, t).value;
    OneWakerMoves(s, s', t, WakerTo(s, t));
    hide Pc;
    if Pc(s, t).Push? {
      PushedIds(s.queue, Pc(s, t).id);
    }
  }

  lemma IdlingKeepsExclusive(s: State, t: Tid)
    requires Inv(s) && WakerNext(s, t).Some?
    requires !Pc(s, t).SwapQueued? && !Pc(s, t).LockQueue? && !Pc(s, t).Push?
    ensures Exclusive(WakerNext(s, t).value)
  {
    hide Accounted;
    hide SleepsSafely;
    hide Locking;
    hide Allocated;
    hide Registered;
    hide DistinctIds;
    var s' := WakerNext(s, t).value;
    OneWakerMoves(s, s', t, WakerTo(s, t));
    assert Carried(Pc(s', t)) == None;
    assert s'.queue == s.queue && s'.queued == s.queued && ExecCarried(s'.exec) == ExecCarried(s.exec);
    hide Pc;
    hide Carried;
    hide ExecCarried;
    hide WakerNext;
  }

  lemma WakerKeepsExclusive(s: State, t: Tid)
    requires Inv(s) && WakerNext(s, t).Some?
    ensures Exclusive(WakerNext(s, t).value)
  {
    if Pc(s, t).SwapQueued? || Pc(s, t).LockQueue? || Pc(s, t).Push? {
      CarryingKeepsExclusive(s, t);
    } else {
      IdlingKeepsExclusive(s, t);
    }
  }

  lemma WakerKeepsAccounted(s: State, t: Tid)
    requires Inv(s) && WakerNext(s, t).Some?
    ensures Accounted(WakerNext(s, t).value)
  {
    hide Exclusive;
    hide SleepsSafely;
    hide Locking;
    hide Allocated;
    hide Registered;
    var s' := WakerNext(s, t).value;
    OneWakerMoves(s, s', t, WakerTo(s, t));
    hide Pc;
    forall id | Unfinished(s', id) && id in s'.queued
      ensures id in s'.queue || ExecCarried(s'.exec) == Some(id) || CarriedBySome(s', id)
    {
      assert Unfinished(s, id);
      assert Carried(Pc(s', t)) == Some(id) ==> CarriedBySome(s', id);
    }
  }

  lemma WakerKeepsRegistered(s: State, t: Tid)
    requires Inv(s) && WakerNext(s, t).Some?
    ensures Allocated(WakerNext(s, t).value) && Registered(WakerNext(s, t).value)
  {
    hide Accounted;
    hide Exclusive;
    hide SleepsSafely;
    hide Locking;
    var s' := WakerNext(s, t).value;
    OneWakerMoves(s, s', t, WakerTo(s, t));
    hide Pc;
  }

  lemma WakerKeepsSleep(s: State, t: Tid)
    requires Inv(s) && WakerNext(s, t).Some?
    ensures SleepsSafely(WakerNext(s, t).value)
  {
    hide Accounted;
    hide Exclusive;
    hide Allocated;
    hide Registered;
    var s' := WakerNext(s, t).value;
    OneWakerMoves(s, s', t, WakerTo(s, t));
    hide Pc;
  }

  /** The invariant holds in every state any interleaving can reach. */
  lemma NextKeeps(s: State, a: Action)
    requires Inv(s) && Next(s, a).Some?
    ensures Inv(Next(s, a).value)
  {
    match a
    case ExecStep =>
      ExecKeepsExclusive(s);
      ExecKeepsAccounted(s);
      ExecKeepsRegistered(s);
      ExecKeepsParking(s);
    case WakerStep(t) =>
      WakerKeepsLocking(s, t);
      WakerKeepsExclusive(s, t);
      WakerKeepsAccounted(s, t);
      WakerKeepsRegistered(s, t);
      WakerKeepsSleep(s, t);
    case BeginWake(_, _) => BeginWakeKeeps(s, a);
    case BeginMainWake(_, _) => BeginWakeKeeps(s, a);
    case _ => EnvironmentKeeps(s, a);
  }

  // ---- whole runs -------------------------------------------------------------------

  function Run(s: State, acts: seq<Action>): Option<State>
    decreases |acts|
  {
    if acts == [] then Some(s)
    else
      match Next(s, acts[0])
      case None => None
      case Some(n) => Run(n, acts[1..])
  }

  lemma {:induction false} RunKeeps(s: State, acts: seq<Action>)
    requires Inv(s) && Run(s, acts).Some?
    ensures Inv(Run(s, acts).value)
    decreases |acts|
  {
    hide Inv;
    if acts != [] {
      NextKeeps(s, acts[0]);
      RunKeeps(Next(s, acts[0]).value, acts[1..]);
    }
  }

  /** The states that some interleaving reaches from a new executor. */
  ghost predicate Reachable(s: State) {
    exists acts :: Run(Initial(), acts) == Some(s)
  }

  lemma ReachableInv(s: State)
    requires Reachable(s)
    ensures Inv(s)
  {
    var acts :| Run(Initial(), acts) == Some(s);
    InitialInv();
    RunKeeps(Initial(), acts);
  }

  // ---- no lost and no duplicated wake ----------------------------------------------

  /**
   * In every reachable state an unfinished task is flagged `queued` iff somebody is
   * responsible for it: it is in the queue, or a waker is about to push it, or the
   * executor has popped it and not yet cleared the flag, or is about to enqueue it.
   */
  lemma QueuedIffResponsible(s: State, id: Id)
    requires Reachable(s) && Unfinished(s, id)
    ensures id in s.queued <==> id in s.queue || CarriedBySome(s, id) || ExecCarried(s.exec) == Some(id)
  {
    ReachableInv(s);
    hide CarriedBySome;
    CarriedIsQueued(s, id);
  }

  lemma CarriedIsQueued(s: State, id: Id)
    requires Inv(s)
    ensures CarriedBySome(s, id) ==> id in s.queued && id !in s.queue && ExecCarried(s.exec) != Some(id)
  {
    if CarriedBySome(s, id) {
      var t :| Carried(Pc(s, t)) == Some(id);
    }
  }

  /** And it is exactly one party, once: of any task, finished or not. */
  lemma ResponsibleOnce(s: State, id: Id, t: Tid, u: Tid, i: nat, j: nat)
    requires Reachable(s)
    ensures Carried(Pc(s, t)) == Some(id) == Carried(Pc(s, u)) ==> t == u
    ensures Carried(Pc(s, t)) == Some(id) ==> id !in s.queue && ExecCarried(s.exec) != Some(id)
    ensures ExecCarried(s.exec) == Some(id) ==> id !in s.queue
    ensures i < |s.queue| && j < |s.queue| && s.queue[i] == id == s.queue[j] ==> i == j
  {
    ReachableInv(s);
    assert Pc(s, t) == Pc(s, t) && Pc(s, u) == Pc(s, u);
  }

  /**
   * A wake that got past the `done` check stays on record until the executor begins a
   * poll of the task, and as long as it does an unfinished task has somebody responsible.
   */
  lemma WakeEndsInPoll(s: State, a: Action, id: Id)
    requires Reachable(s) && id in s.wakes && Next(s, a).Some?
    ensures Unfinished(s, id) ==> id in s.queue || CarriedBySome(s, id) || ExecCarried(s.exec) == Some(id)
    ensures id !in Next(s, a).value.wakes ==>
              s.exec == ClearQueued(id) && Next(s, a).value.exec == Poll(TaskFuture(id))
  {
    ReachableInv(s);
    if Unfinished(s, id) {
      QueuedIffResponsible(s, id);
    }
  }

  /** A wake is dropped only when the task is done, which no unfinished task is. */
  lemma OnlyDoneWakesDrop(s: State, t: Tid)
    requires Reachable(s) && Pc(s, t).LoadDone? && Unfinished(s, Pc(s, t).id)
    ensures WakerNext(s, t).Some? && Pc(WakerNext(s, t).value, t) == SwapQueued(Pc(s, t).id)
  {
    ReachableInv(s);
  }

  /** Ids are popped in exactly the order in which they were pushed; none is lost or repeated. */
  lemma {:induction false} FirstInFirstOut(s: State, acts: seq<Action>) returns (pushed: seq<Id>)
    requires Run(s, acts).Some?
    ensures var r := Run(s, acts).value; r.taken + r.queue == s.taken + s.queue + pushed
    ensures |Run(s, acts).value.taken| >= |s.taken|
    decreases |acts|
  {
    pushed := [];
    if acts != [] {
      var n := Next(s, acts[0]).value;
      var rest := FirstInFirstOut(n, acts[1..]);
      var first := PushedByStep(s, acts[0]);
      pushed := first + rest;
    }
  }

  lemma PushedByStep(s: State, a: Action) returns (pushed: seq<Id>)
    requires Next(s, a).Some?
    ensures var n := Next(s, a).value; n.taken + n.queue == s.taken + s.queue + pushed && |n.taken| >= |s.taken|
  {
    var n := Next(s, a).value;
    if a.ExecStep? && s.exec.Spawn? {
      pushed := [s.exec.id];
    } else if a.WakerStep? && Pc(s, a.t).Push? {
      pushed := [Pc(s, a.t).id];
    } else {
      pushed := [];
      if a.ExecStep? && s.exec == Pop && s.queue != [] {
        assert s.queue == [s.queue[0]] + s.queue[1..];
      }
    }
  }

  /** So the task at position i of the queue is the one that the (i+1)-th pop from now takes. */
  lemma QueuedTaskIsTaken(s: State, acts: seq<Action>, i: nat)
    requires Run(s, acts).Some? && i < |s.queue|
    ensures var r := Run(s, acts).value;
            var pops := |r.taken| - |s.taken|;
            if i < pops then r.taken[|s.taken| + i] == s.queue[i]
            else 0 <= i - pops < |r.queue| && r.queue[i - pops] == s.queue[i]
  {
    var r := Run(s, acts).value;
    var pushed := FirstInFirstOut(s, acts);
    var k := |s.taken| + i;
    assert (s.taken + s.queue + pushed)[k] == s.queue[i];
    assert (r.taken + r.queue)[k] == if k < |r.taken| then r.taken[k] else r.queue[k - |r.taken|];
  }

  // ---- every wake is followed by a poll ------------------------------------------------

  /** That future is being polled; it may be spawning a task. */
  predicate Polls(s: State, p: Polling) {
    s.exec == Poll(p) || (s.exec.Spawn? && s.exec.back == Some(p))
  }

  predicate PollBegins(s: State, a: Action, p: Polling) {
    !Polls(s, p) && Next(s, a).Some? && Polls(Next(s, a).value, p)
  }

  /** The poll of the task answers that the future is ready. */
  predicate Completes(s: State, a: Action, id: Id) {
    a == FinishPoll(true) && s.exec == Poll(TaskFuture(id))
  }

  /** A poll of the task begins, or the one that is going on answers that it is ready. */
  predicate Serves(s: State, a: Action, id: Id)
    requires Next(s, a).Some?
  {
    PollBegins(s, a, TaskFuture(id)) || Completes(s, a, id)
  }

  /** In this run a poll of the task begins, or one answers that it is ready. */
  predicate Served(s: State, acts: seq<Action>, id: Id)
    decreases |acts|
  {
    acts != [] && Next(s, acts[0]).Some? &&
    (Serves(s, acts[0], id) || Served(Next(s, acts[0]).value, acts[1..], id))
  }

  /** How many ids are popped between two states of a run. */
  function Pops(s: State, r: State): int {
    |r.taken| - |s.taken|
  }

  /** A step that does not serve a task leaves it unfinished, and its flag and its wake on record. */
  lemma StaysLive(s: State, a: Action, id: Id)
    requires Unfinished(s, id) && Next(s, a).Some? && !Serves(s, a, id)
    ensures Unfinished(Next(s, a).value, id)
    ensures id in s.queued ==> id in Next(s, a).value.queued
    ensures id in s.wakes ==> id in Next(s, a).value.wakes
  {
  }

  /** Where such a step leaves an id of the queue: one place further if it pops, with the executor if it is its turn. */
  lemma QueueMoves(s: State, a: Action, id: Id, i: nat)
    requires Unfinished(s, id) && Next(s, a).Some? && i < |s.queue| && s.queue[i] == id
    ensures var n := Next(s, a).value;
            var pops := Pops(s, n);
            && 0 <= pops <= 1
            && (pops <= i ==> i - pops < |n.queue| && n.queue[i - pops] == id)
            && (pops > i ==> n.exec == TakeEntry(id) && id in n.registry)
  {
  }

  /** The executor has popped the id and is on its way to poll it. */
  predicate Popped(s: State, id: Id) {
    (s.exec == TakeEntry(id) && id in s.registry) || s.exec == ClearQueued(id)
  }

  lemma PoppedStays(s: State, a: Action, id: Id)
    requires Popped(s, id) && Next(s, a).Some? && !Serves(s, a, id)
    ensures Popped(Next(s, a).value, id) && Pops(s, Next(s, a).value) == 0
  {
  }

  lemma {:induction false} PoppedIsServed(s: State, acts: seq<Action>, id: Id)
    requires Popped(s, id) && Run(s, acts).Some? && Pops(s, Run(s, acts).value) > 0
    ensures Served(s, acts, id)
    decreases |acts|
  {
    hide Next;
    hide Popped;
    hide Serves;
    if !Serves(s, acts[0], id) {
      PoppedStays(s, acts[0], id);
      PoppedIsServed(Next(s, acts[0]).value, acts[1..], id);
    }
  }

  /**
   * An id at position i of the queue is served before i + 2 more ids are popped: it is the one
   * that the (i+1)-th pop takes, and its entry is still there.
   */
  lemma {:induction false} QueuedIsServed(s: State, acts: seq<Action>, id: Id, i: nat)
    requires Unfinished(s, id) && i < |s.queue| && s.queue[i] == id
    requires Run(s, acts).Some? && Pops(s, Run(s, acts).value) > i + 1
    ensures Served(s, acts, id)
    decreases |acts|
  {
    hide Next;
    hide Unfinished;
    hide Serves;
    if !Serves(s, acts[0], id) {
      var n := Next(s, acts[0]).value;
      QueueMoves(s, acts[0], id, i);
      StaysLive(s, acts[0], id);
      if Pops(s, n) > i {
        PoppedIsServed(n, acts[1..], id);
      } else {
        QueuedIsServed(n, acts[1..], id, i - Pops(s, n));
      }
    }
  }

  /** Only the waker itself moves on, until it has pushed what it carries. */
  lemma CarrierMoves(s: State, a: Action, t: Tid, id: Id)
    requires Carried(Pc(s, t)) == Some(id) && Next(s, a).Some?
    ensures var n := Next(s, a).value;
            if a != WakerStep(t) then Pc(n, t) == Pc(s, t)
            else if Pc(s, t) == LockQueue(id) then Pc(n, t) == Push(id)
            else n.queue == s.queue + [id]
  {
  }

  /** How many steps this waker takes in a run. */
  function StepsOf(acts: seq<Action>, t: Tid): nat {
    if acts == [] then 0 else (if acts[0] == WakerStep(t) then 1 else 0) + StepsOf(acts[1..], t)
  }

  /** With two steps of its own a waker has pushed the id that it carries, unless that was served before. */
  lemma {:induction false} CarriedIsPushed(s: State, acts: seq<Action>, t: Tid, id: Id) returns (k: nat)
    requires Unfinished(s, id) && Carried(Pc(s, t)) == Some(id) && Run(s, acts).Some?
    requires StepsOf(acts, t) >= (if Pc(s, t) == LockQueue(id) then 2 else 1)
    ensures k <= |acts|
    ensures Served(s, acts, id) ||
            (Run(s, acts[..k]).Some? && Run(s, acts[..k]).value.queue != [] &&
             var q := Run(s, acts[..k]).value.queue; q[|q| - 1] == id)
    decreases |acts|
  {
    hide Next;
    hide Unfinished;
    hide Serves;
    k := 0;
    var n := Next(s, acts[0]).value;
    CarrierMoves(s, acts[0], t, id);
    if !Serves(s, acts[0], id) {
      StaysLive(s, acts[0], id);
      if acts[0] == WakerStep(t) && Pc(s, t) == Push(id) {
        k := 1;
        assert acts[..1][1..] == [];
        assert Run(n, []) == Some(n);
      } else {
        k := CarriedIsPushed(n, acts[1..], t, id);
        k := k + 1;
        assert acts[..k][0] == acts[0] && acts[..k][1..] == acts[1..][..k - 1];
      }
    }
  }

  /** A run that does not serve the task keeps it live, flagged and its wake on record. */
  lemma {:induction false} UnservedStays(s: State, acts: seq<Action>, id: Id)
    requires Unfinished(s, id) && Run(s, acts).Some? && !Served(s, acts, id)
    ensures var r := Run(s, acts).value;
            Unfinished(r, id) && (id in s.queued ==> id in r.queued) && (id in s.wakes ==> id in r.wakes)
    decreases |acts|
  {
    hide Next;
    hide Unfinished;
    hide Serves;
    if acts != [] {
      StaysLive(s, acts[0], id);
      UnservedStays(Next(s, acts[0]).value, acts[1..], id);
    }
  }

  lemma {:induction false} ServedLater(s: State, a: seq<Action>, b: seq<Action>, id: Id)
    requires Run(s, a).Some? && Served(Run(s, a).value, b, id)
    ensures Served(s, a + b, id)
    decreases |a|
  {
    hide Next;
    hide Serves;
    if a == [] {
      assert a + b == b;
    } else {
      ServedLater(Next(s, a[0]).value, a[1..], b, id);
      assert (a + b)[1..] == a[1..] + b;
    }
  }

  lemma {:induction false} RunSplits(s: State, a: seq<Action>, b: seq<Action>)
    ensures Run(s, a + b) == if Run(s, a).Some? then Run(Run(s, a).value, b) else None
    decreases |a|
  {
    hide Next;
    if a == [] {
      assert a + b == b;
    } else {
      assert (a + b)[0] == a[0] && (a + b)[1..] == a[1..] + b;
      if Next(s, a[0]).Some? {
        RunSplits(Next(s, a[0]).value, a[1..], b);
      }
    }
  }

  /** After these steps the id is at position i of the queue. */
  predicate QueuedAt(s: State, acts: seq<Action>, id: Id, i: nat) {
    Run(s, acts).Some? && i < |Run(s, acts).value.queue| && Run(s, acts).value.queue[i] == id
  }

  /** Whenever the id is at position i during the run, at most i + 1 pops come after that. */
  ghost predicate InTurn(s: State, acts: seq<Action>, id: Id)
    requires Run(s, acts).Some?
  {
    forall k: nat, i: nat :: k <= |acts| && QueuedAt(s, acts[..k], id, i) ==>
      Pops(Run(s, acts[..k]).value, Run(s, acts).value) <= i + 1
  }

  /**
   * Every wake is followed by a poll. Whatever happens after a task was flagged, either the run
   * has since begun a poll of it (or the poll going on has answered that it is ready), or it is
   * unfinished and flagged and somebody is responsible for it; and from when it is in the queue,
   * at position i, at most i + 1 pops come before that poll, however the threads interleave.
   */
  lemma WakeIsServed(s: State, acts: seq<Action>, id: Id)
    requires Reachable(s) && Unfinished(s, id) && id in s.queued && Run(s, acts).Some? && !Served(s, acts, id)
    ensures var r := Run(s, acts).value;
            && Unfinished(r, id) && (id in s.wakes ==> id in r.wakes) && id in r.queued
            && (id in r.queue || CarriedBySome(r, id) || ExecCarried(r.exec) == Some(id))
    ensures InTurn(s, acts, id)
  {
    UnservedStays(s, acts, id);
    ReachableThen(s, acts);
    var r := Run(s, acts).value;
    QueuedIffResponsible(r, id);
    hide Served;
    hide Run;
    hide QueuedAt;
    forall k: nat, i: nat | k <= |acts| && QueuedAt(s, acts[..k], id, i)
      ensures Pops(Run(s, acts[..k]).value, r) <= i + 1
    {
      NoneServedAfter(s, acts, id, k, i);
    }
  }

  lemma NoneServedAfter(s: State, acts: seq<Action>, id: Id, k: nat, i: nat)
    requires Unfinished(s, id) && Run(s, acts).Some? && !Served(s, acts, id)
    requires k <= |acts| && QueuedAt(s, acts[..k], id, i)
    ensures Run(s, acts[..k]).Some? && Pops(Run(s, acts[..k]).value, Run(s, acts).value) <= i + 1
  {
    hide Run;
    hide Served;
    hide Unfinished;
    var a, b := acts[..k], acts[k..];
    assert a + b == acts;
    var m := Run(s, a).value;
    RunSplits(s, a, b);
    if Served(s, a, id) {
      ServedSooner(s, a, b, id);
    } else {
      UnservedStays(s, a, id);
      if Pops(m, Run(s, acts).value) > i + 1 {
        QueuedIsServed(m, b, id, i);
        ServedLater(s, a, b, id);
      }
    }
  }

  lemma {:induction false} ServedSooner(s: State, a: seq<Action>, b: seq<Action>, id: Id)
    requires Served(s, a, id)
    ensures Served(s, a + b, id)
    decreases |a|
  {
    hide Next;
    hide Serves;
    assert (a + b)[0] == a[0] && (a + b)[1..] == a[1..] + b;
    if !Serves(s, a[0], id) {
      ServedSooner(Next(s, a[0]).value, a[1..], b, id);
    }
  }

  lemma ReachableThen(s: State, acts: seq<Action>)
    requires Reachable(s) && Run(s, acts).Some?
    ensures Reachable(Run(s, acts).value)
  {
    hide Run;
    var before :| Run(Initial(), before) == Some(s);
    RunSplits(Initial(), before, acts);
    assert Run(Initial(), before + acts) == Run(s, acts);
  }

  // ---- only a ready poll ends a task, and only a ready main future ends block_on --------

  /** In this run a poll of the task answers that it is ready. */
  predicate Completed(s: State, acts: seq<Action>, id: Id)
    decreases |acts|
  {
    acts != [] && Next(s, acts[0]).Some? &&
    (Completes(s, acts[0], id) || Completed(Next(s, acts[0]).value, acts[1..], id))
  }

  lemma OnlyReadyEnds(s: State, a: Action, id: Id)
    requires Inv(s) && Next(s, a).Some? && id < s.nextId
    ensures Unfinished(Next(s, a).value, id) <==> Unfinished(s, id) && !Completes(s, a, id)
    ensures id < Next(s, a).value.nextId
  {
    hide Locking;
    hide Exclusive;
    hide Accounted;
    hide SleepsSafely;
  }

  /**
   * Whatever the threads do, a task stays unfinished until a poll of it answers that it is ready,
   * and is never one after that; and nothing is marked done before.
   */
  lemma {:induction false} UnfinishedUntilReady(s: State, acts: seq<Action>, id: Id)
    requires Inv(s) && Unfinished(s, id) && Run(s, acts).Some?
    ensures var r := Run(s, acts).value;
            (Unfinished(r, id) <==> !Completed(s, acts, id)) && (Unfinished(r, id) ==> id !in r.done)
    decreases |acts|
  {
    hide Next;
    hide Completes;
    if acts == [] {
    } else {
      var n := Next(s, acts[0]).value;
      NextKeeps(s, acts[0]);
      AllocatedId(s, id);
      OnlyReadyEnds(s, acts[0], id);
      if Completes(s, acts[0], id) {
        EndedForGood(n, acts[1..], id);
      } else {
        UnfinishedUntilReady(n, acts[1..], id);
      }
    }
  }

  lemma AllocatedId(s: State, id: Id)
    requires Inv(s) && Unfinished(s, id)
    ensures id < s.nextId
  {
  }

  lemma {:induction false} EndedForGood(s: State, acts: seq<Action>, id: Id)
    requires Inv(s) && !Unfinished(s, id) && id < s.nextId && Run(s, acts).Some?
    ensures !Unfinished(Run(s, acts).value, id)
    decreases |acts|
  {
    hide Next;
    hide Inv;
    if acts != [] {
      NextKeeps(s, acts[0]);
      OnlyReadyEnds(s, acts[0], id);
      EndedForGood(Next(s, acts[0]).value, acts[1..], id);
    }
  }

  /** The main future answers that it is ready. */
  predicate MainCompletes(s: State, a: Action) {
    a == FinishPoll(true) && s.exec == Poll(MainFuture)
  }

  predicate MainCompleted(s: State, acts: seq<Action>)
    decreases |acts|
  {
    acts != [] && Next(s, acts[0]).Some? &&
    (MainCompletes(s, acts[0]) || MainCompleted(Next(s, acts[0]).value, acts[1..]))
  }

  /** run_until_stalled finds the queue empty. */
  predicate Stalls(s: State, a: Action) {
    a == ExecStep && s.exec == Pop && s.queue == []
  }

  lemma ReturnStep(s: State, a: Action)
    requires !BetweenCalls(s) && Next(s, a).Some?
    ensures var n := Next(s, a).value;
            && n.blocking == s.blocking
            && (s.blocking ==> (BetweenCalls(n) <==> MainCompletes(s, a)))
            && (BetweenCalls(n) && !s.blocking ==> Stalls(s, a) || MainCompletes(s, a))
  {
  }

  /** block_on has not returned before the main future is ready. */
  lemma {:induction false} ReturnsWhenReady(s: State, acts: seq<Action>)
    requires !BetweenCalls(s) && s.blocking && Run(s, acts).Some?
    ensures BetweenCalls(Run(s, acts).value) ==> MainCompleted(s, acts)
    decreases |acts|
  {
    hide Next;
    hide MainCompletes;
    hide BetweenCalls;
    if acts != [] {
      ReturnStep(s, acts[0]);
      if !MainCompletes(s, acts[0]) {
        ReturnsWhenReady(Next(s, acts[0]).value, acts[1..]);
      }
    }
  }

  // ---- wakes of the main future -----------------------------------------------------------

  /** In this run a poll of the main future begins. */
  predicate MainPolled(s: State, acts: seq<Action>)
    decreases |acts|
  {
    acts != [] && Next(s, acts[0]).Some? &&
    (PollBegins(s, acts[0], MainFuture) || MainPolled(Next(s, acts[0]).value, acts[1..]))
  }

  lemma {:induction false} NotifiedUntilPolled(s: State, acts: seq<Action>)
    requires s.notified && Run(s, acts).Some? && !MainPolled(s, acts)
    ensures Run(s, acts).value.notified
    decreases |acts|
  {
    if acts != [] {
      NotifiedUntilPolled(Next(s, acts[0]).value, acts[1..]);
    }
  }

  /** Steps that the executor still has to take until it polls a notified main future; 0 while it runs tasks. */
  function StepsToMain(e: ExecPc): nat {
    match e
    case LockToPark => 3
    case CheckNotified => 2
    case Relock => 2
    case SwapNotified => 1
    case _ => 0
  }

  lemma NotifiedMainIsNext(s: State)
    requires s.notified && StepsToMain(s.exec) > 0 && ExecNext(s).Some?
    ensures var n := ExecNext(s).value;
            if StepsToMain(s.exec) == 1 then n.exec == Poll(MainFuture)
            else n.notified && StepsToMain(n.exec) == StepsToMain(s.exec) - 1
  {
  }

  /**
   * A wake of the main future of the call going on is not lost: from the first step of its waker
   * on the flag stays set until a poll of the main future begins; until then the executor does
   * not sleep unless that waker, or another, is still on its way to notify it; and when it finds
   * nothing more to run the poll comes within three steps of its own.
   */
  lemma MainWakeIsServed(s: State, t: Tid, acts: seq<Action>) returns (u: Tid)
    requires Reachable(s) && Pc(s, t) == MainStore(s.calls)
    requires Run(s, [WakerStep(t)] + acts).Some?
    requires !MainPolled(Next(s, WakerStep(t)).value, acts)
    ensures var r := Run(s, [WakerStep(t)] + acts).value;
            && r.notified && (r.exec == Parked ==> StepsToNotify(Pc(r, u)) > 0)
            && (r.exec == Pop && r.queue == [] && r.blocking && ExecNext(r).Some? ==>
                  StepsToMain(ExecNext(r).value.exec) == 3 && ExecNext(r).value.notified)
  {
    OneAction(s, WakerStep(t), acts);
    var n := Next(s, WakerStep(t)).value;
    NotifiedUntilPolled(n, acts);
    ReachableThen(s, [WakerStep(t)] + acts);
    var r := Run(s, [WakerStep(t)] + acts).value;
    u := 0;
    if r.exec == Parked {
      u := NeverSleepsOnWork(r, 0);
    }
  }

  // ---- no poll without a wake -------------------------------------------------------------

  /** The step sets the flag of the task: it is spawned, or a wake finds the flag clear. */
  predicate Flags(s: State, a: Action, id: Id) {
    (a.BeginSpawn? && s.nextId == id) || (a.WakerStep? && Pc(s, a.t) == SwapQueued(id) && id !in s.queued)
  }

  function Ones(b: bool): nat {
    if b then 1 else 0
  }

  function PollsBegun(s: State, acts: seq<Action>, p: Polling): nat
    decreases |acts|
  {
    if acts == [] || Next(s, acts[0]) == None then 0
    else Ones(PollBegins(s, acts[0], p)) + PollsBegun(Next(s, acts[0]).value, acts[1..], p)
  }

  function TimesFlagged(s: State, acts: seq<Action>, id: Id): nat
    decreases |acts|
  {
    if acts == [] || Next(s, acts[0]) == None then 0
    else Ones(Flags(s, acts[0], id)) + TimesFlagged(Next(s, acts[0]).value, acts[1..], id)
  }

  /** Beginning a poll clears the flag, flagging sets it, and no other step touches it. */
  predicate TakesFlag(s: State, a: Action, id: Id)
    requires Next(s, a).Some?
  {
    Ones(PollBegins(s, a, TaskFuture(id))) + Ones(id in Next(s, a).value.queued) ==
    Ones(id in s.queued) + Ones(Flags(s, a, id))
  }

  lemma ExecTakesFlag(s: State, id: Id)
    requires Inv(s) && Next(s, ExecStep).Some?
    ensures TakesFlag(s, ExecStep, id)
  {
    hide Locking;
    hide Accounted;
    hide SleepsSafely;
    hide Allocated;
    hide Registered;
    hide DistinctIds;
  }

  lemma OthersTakeFlag(s: State, a: Action, id: Id)
    requires Inv(s) && Next(s, a).Some? && a != ExecStep
    ensures TakesFlag(s, a, id)
  {
    hide Locking;
    hide Exclusive;
    hide Accounted;
    hide SleepsSafely;
    hide Registered;
  }

  lemma PollTakesFlag(s: State, a: Action, id: Id)
    requires Inv(s) && Next(s, a).Some?
    ensures TakesFlag(s, a, id)
  {
    hide Inv;
    hide TakesFlag;
    if a == ExecStep {
      ExecTakesFlag(s, id);
    } else {
      OthersTakeFlag(s, a, id);
    }
  }

  /**
   * Over any run each poll of a task takes back one setting of its flag: none is polled that was
   * not woken or spawned since its last poll, and no accepted wake is for nothing.
   */
  lemma {:induction false} PollsAreCaused(s: State, acts: seq<Action>, id: Id)
    requires Inv(s) && Run(s, acts).Some?
    ensures PollsBegun(s, acts, TaskFuture(id)) + Ones(id in Run(s, acts).value.queued) ==
            Ones(id in s.queued) + TimesFlagged(s, acts, id)
    decreases |acts|
  {
    hide Next;
    hide Inv;
    hide PollBegins;
    hide Flags;
    if acts != [] {
      NextKeeps(s, acts[0]);
      PollTakesFlag(s, acts[0], id);
      PollsAreCaused(Next(s, acts[0]).value, acts[1..], id);
    }
  }

  /** A call of block_on begins, or a wake of the main future of the call going on. */
  predicate Notifies(s: State, a: Action) {
    a.EnterBlockOn? || (a.WakerStep? && Pc(s, a.t) == MainStore(s.calls))
  }

  function TimesNotified(s: State, acts: seq<Action>): nat
    decreases |acts|
  {
    if acts == [] || Next(s, acts[0]) == None then 0
    else Ones(Notifies(s, acts[0])) + TimesNotified(Next(s, acts[0]).value, acts[1..])
  }

  lemma MainPollTakesNotice(s: State, a: Action)
    requires Next(s, a).Some?
    ensures var n := Next(s, a).value;
            Ones(PollBegins(s, a, MainFuture)) + Ones(n.notified) <= Ones(s.notified) + Ones(Notifies(s, a))
  {
  }

  /** The main future is polled at most once for the start of the call and for each wake of it. */
  lemma {:induction false} MainPollsAreCaused(s: State, acts: seq<Action>)
    requires Run(s, acts).Some?
    ensures PollsBegun(s, acts, MainFuture) + Ones(Run(s, acts).value.notified) <=
            Ones(s.notified) + TimesNotified(s, acts)
    decreases |acts|
  {
    hide Next;
    hide PollBegins;
    hide Notifies;
    if acts != [] {
      MainPollTakesNotice(s, acts[0]);
      MainPollsAreCaused(Next(s, acts[0]).value, acts[1..]);
    }
  }

  /**
   * When block_on finds the queue empty and no other thread moves, it polls the main future
   * again if that has been woken, and sleeps if not.
   */
  lemma SleepsIffIdle(s: State)
    requires s.exec == Pop && s.blocking && s.queue == [] && s.lock == Free
    ensures var polls := [ExecStep, ExecStep, ExecStep, ExecStep];
            && Run(s, polls).Some?
            && Run(s, polls).value.exec == if s.notified then Poll(MainFuture) else Parked
  {
    var s1 := Next(s, ExecStep).value;
    var s2 := Next(s1, ExecStep).value;
    var s3 := Next(s2, ExecStep).value;
    var s4 := Next(s3, ExecStep).value;
    hide Next;
    assert Run(s4, []) == Some(s4);
    OneAction(s3, ExecStep, []);
    OneAction(s2, ExecStep, [ExecStep]);
    OneAction(s1, ExecStep, [ExecStep, ExecStep]);
    OneAction(s, ExecStep, [ExecStep, ExecStep, ExecStep]);
    assert [ExecStep] + [ExecStep, ExecStep, ExecStep] == [ExecStep, ExecStep, ExecStep, ExecStep];
    assert [ExecStep] + [ExecStep, ExecStep] == [ExecStep, ExecStep, ExecStep];
    assert [ExecStep] + [ExecStep] == [ExecStep, ExecStep];
    assert [ExecStep] + [] == [ExecStep];
  }

  /** Inside run_until_stalled, at work on a task. */
  predicate RunsTasks(s: State) {
    !s.blocking && (s.exec == Pop || s.exec.TakeEntry? || s.exec.ClearQueued? || s.exec.StoreDone? ||
                    s.exec.Reinsert? || (s.exec.Poll? && s.exec.p.TaskFuture?) ||
                    (s.exec.Spawn? && s.exec.back.Some? && s.exec.back.value.TaskFuture?))
  }

  lemma RunsTasksStep(s: State, a: Action)
    requires RunsTasks(s) && Next(s, a).Some?
    ensures if Stalls(s, a) then BetweenCalls(Next(s, a).value) else RunsTasks(Next(s, a).value)
  {
  }

  /** A stalled call: the run comes to an empty queue. */
  predicate Stalled(s: State, acts: seq<Action>)
    decreases |acts|
  {
    acts != [] && Next(s, acts[0]).Some? && (Stalls(s, acts[0]) || Stalled(Next(s, acts[0]).value, acts[1..]))
  }

  /**
   * run_until_stalled polls tasks until it finds the queue empty, and never polls a main future,
   * sleeps or returns before.
   */
  lemma RunsUntilStalled(s: State, acts: seq<Action>)
    requires s.exec == Outside && Run(s, [EnterRunUntilStalled] + acts).Some?
    requires !Stalled(Next(s, EnterRunUntilStalled).value, acts)
    ensures RunsTasks(Run(s, [EnterRunUntilStalled] + acts).value)
  {
    OneAction(s, EnterRunUntilStalled, acts);
    StillRunsTasks(Next(s, EnterRunUntilStalled).value, acts);
  }

  lemma {:induction false} StillRunsTasks(s: State, acts: seq<Action>)
    requires RunsTasks(s) && Run(s, acts).Some? && !Stalled(s, acts)
    ensures RunsTasks(Run(s, acts).value)
    decreases |acts|
  {
    hide Next;
    hide Stalls;
    hide RunsTasks;
    if acts != [] {
      RunsTasksStep(s, acts[0]);
      StillRunsTasks(Next(s, acts[0]).value, acts[1..]);
    }
  }

  // ---- the executor never sleeps on work ---------------------------------------------

  /** Steps that a waker still has to take, itself, until it notifies. */
  function StepsToNotify(pc: WakerPc): nat {
    match pc
    case LockQueue(_) => 3
    case Push(_) => 2
    case Notify => 1
    case MainLock => 2
    case MainNotify => 1
    case _ => 0
  }

  predicate HasWork(s: State, id: Id) {
    s.queue != [] || s.notified || (Unfinished(s, id) && id in s.queued)
  }

  /** While block_on is parked, work is pending only if a waker is on its way to notify it. */
  lemma NeverSleepsOnWork(s: State, id: Id) returns (t: Tid)
    requires Reachable(s) && s.exec == Parked && HasWork(s, id)
    ensures StepsToNotify(Pc(s, t)) > 0
    ensures s.lock != ByExec
  {
    ReachableInv(s);
    if s.queue != [] {
      t := s.lock.t;
    } else if s.notified {
      t :| Pc(s, t) == MainLock || Pc(s, t) == MainNotify;
    } else {
      QueuedIffResponsible(s, id);
      t :| Carried(Pc(s, t)) == Some(id);
    }
  }

  /** The lock is only ever held by a thread that can take its next step. */
  lemma LockHolderProceeds(s: State)
    requires Reachable(s)
    ensures s.lock == ByExec ==> ExecNext(s).Some?
    ensures s.lock.ByWaker? ==> WakerNext(s, s.lock.t).Some?
  {
    ReachableInv(s);
    if s.lock.ByWaker? {
      assert HeldLock(Pc(s, s.lock.t));
    }
  }

  /** Each step of that waker brings it closer, and the last one ends the sleep. */
  lemma NotifyEndsSleep(s: State, t: Tid)
    requires StepsToNotify(Pc(s, t)) > 0 && WakerNext(s, t).Some?
    ensures var n := WakerNext(s, t).value;
            if StepsToNotify(Pc(s, t)) == 1 then n.exec != Parked
            else StepsToNotify(Pc(n, t)) == StepsToNotify(Pc(s, t)) - 1
  {
  }

  // ---- what block_on leaves behind ------------------------------------------------------

  /** Every task spawned so far is unfinished, or done, or about to be marked done. */
  predicate NoneLost(s: State) {
    forall id {:trigger Unfinished(s, id)} {:trigger id in s.done} :: 1 <= id < s.nextId ==>
      Unfinished(s, id) || id in s.done || s.exec == StoreDone(id)
  }

  lemma NextLosesNone(s: State, a: Action)
    requires NoneLost(s) && Next(s, a).Some?
    ensures NoneLost(Next(s, a).value)
  {
    var n := Next(s, a).value;
    forall id: Id | 1 <= id < n.nextId
      ensures Unfinished(n, id) || id in n.done || n.exec == StoreDone(id)
    {
      assert id < s.nextId ==> Unfinished(s, id) || id in s.done || s.exec == StoreDone(id);
    }
  }

  lemma {:induction false} RunLosesNone(s: State, acts: seq<Action>)
    requires NoneLost(s) && Run(s, acts).Some?
    ensures NoneLost(Run(s, acts).value)
    decreases |acts|
  {
    hide NoneLost;
    hide Next;
    if acts != [] {
      NextLosesNone(s, acts[0]);
      RunLosesNone(Next(s, acts[0]).value, acts[1..]);
    }
  }

  predicate Enters(a: Action) {
    a.EnterBlockOn? || a.EnterRunUntilStalled?
  }

  /** Between calls: at most a spawn from outside is under way. */
  predicate BetweenCalls(s: State) {
    s.exec == Outside || (s.exec.Spawn? && s.exec.back == None)
  }

  /** What was queued stays queued, and each of the tasks there were is as unfinished as before. */
  predicate LeavesTasks(s: State, r: State) {
    && s.queue <= r.queue && r.taken == s.taken && s.nextId <= r.nextId
    && forall id: Id :: id < s.nextId ==> (Unfinished(r, id) <==> Unfinished(s, id))
  }

  lemma BetweenCallsStep(s: State, a: Action)
    requires BetweenCalls(s) && Next(s, a).Some? && !Enters(a)
    ensures BetweenCalls(Next(s, a).value) && LeavesTasks(s, Next(s, a).value)
  {
  }

  lemma {:induction false} BetweenCallsLeaves(s: State, acts: seq<Action>)
    requires BetweenCalls(s) && Run(s, acts).Some? && forall a :: a in acts ==> !Enters(a)
    ensures LeavesTasks(s, Run(s, acts).value)
    decreases |acts|
  {
    hide Next;
    hide BetweenCalls;
    if acts != [] {
      assert !Enters(acts[0]);
      BetweenCallsStep(s, acts[0]);
      BetweenCallsLeaves(Next(s, acts[0]).value, acts[1..]);
    }
  }

  /**
   * The documentation says that block_on drops what is still queued when the main future is
   * ready. Until the next call a task is left over iff it had not finished by then, and
   * whatever was queued stays queued, whoever spawns and wakes in the meantime.
   */
  lemma LeftOverIff(s: State, after: seq<Action>, id: Id)
    requires Reachable(s) && s.exec == Poll(MainFuture) && 1 <= id < s.nextId
    requires Run(s, [FinishPoll(true)] + after).Some? && forall a :: a in after ==> !Enters(a)
    ensures var r := Run(s, [FinishPoll(true)] + after).value;
            && (Unfinished(r, id) <==> id !in s.done)
            && (Unfinished(r, id) <==> Unfinished(s, id))
            && s.queue <= r.queue
  {
    var acts :| Run(Initial(), acts) == Some(s);
    RunLosesNone(Initial(), acts);
    ReachableInv(s);
    assert Unfinished(s, id) <==> id !in s.done;
    OneAction(s, FinishPoll(true), after);
    var n := Next(s, FinishPoll(true)).value;
    assert Unfinished(n, id) <==> Unfinished(s, id);
    BetweenCallsLeaves(n, after);
  }

  /** A main future that spawns a task and is ready at once leaves it queued. */
  lemma LeftoverRun()
    ensures exists acts ::
              var r := Run(Initial(), acts);
              r.Some? && r.value.exec == Outside && r.value.queue == [1] && Unfinished(r.value, 1)
  {
    var s0 := Initial();
    var s1 := Next(s0, EnterBlockOn).value;
    var s2 := Next(s1, ExecStep).value;
    var s3 := Next(s2, BeginSpawn).value;
    var s4 := Next(s3, ExecStep).value;
    var s5 := Next(s4, FinishPoll(true)).value;
    hide Next;
    assert Run(s5, []) == Some(s5);
    OneAction(s4, FinishPoll(true), []);
    var a1 := [FinishPoll(true)] + [];
    OneAction(s3, ExecStep, a1);
    var a2 := [ExecStep] + a1;
    OneAction(s2, BeginSpawn, a2);
    var a3 := [BeginSpawn] + a2;
    OneAction(s1, ExecStep, a3);
    var a4 := [ExecStep] + a3;
    OneAction(s0, EnterBlockOn, a4);
    assert Run(s0, [EnterBlockOn] + a4) == Some(s5);
  }

  lemma OneAction(s: State, a: Action, acts: seq<Action>)
    requires Next(s, a).Some?
    ensures Run(s, [a] + acts) == Run(Next(s, a).value, acts)
  {
    assert ([a] + acts)[1..] == acts;
  }
}
