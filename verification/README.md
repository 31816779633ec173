# Timers, executor, WebSocket and HTTP/1.1: a Dafny model

Four parts of the workspace, each a simple specification with a mechanism that is much
harder than it, and proofs that the mechanism meets the specification.

- **The hierarchical timer wheel and the futures on it.** `Placement` is the arithmetic of
  one entry: where it is put, how cascades move it, and that it is drained in exactly the
  right tick. `WheelHistory` lifts that to every history of operations and to a plain map from
  entry to due tick. `TimerWheel` is the wheel on the heap, with its intrusive lists, back
  pointers and cursor loops; each method is proved against the map. `DeadlineScan` is what
  `next_deadline` reports, by the order of insertion. `TimerFutures` and `Interval` are the
  futures that use the wheel, where a driver may tick in the middle of a `poll_tick`,
  and `Saturation` says when 64-bit saturation shows. SLOTS and LEVELS stay symbolic throughout.
- **The executor's wake and park protocol, and the join handle.** `Executor` and `JoinHandle`
  are interleaving state machines: every atomic access and every lock acquisition or release
  is a step of its own, and the theorems hold in every state that any interleaving reaches.
- **WebSocket (RFC 6455).** `FrameCodec` is the codec on bytes, `WebSocket` says what one call
  of `recv` makes of all the bytes to come, `WebSocketStream` is the stream object proved
  against that, and `ClosingHandshake` puts two endpoints on FIFO channels.
- **HTTP/1.1 framing (RFC 9112).** `Connection` has the transport, which hands out any
  non-empty part of what fits on each read and records whether a read had to wait, and the
  leftover buffer; `HeadReads` says for
  which byte streams the sizes of those reads matter. `HeadParser`, `HeadPrinters` and `Body`
  are the head parser, the two printers and the body reader; `Spelling`, `HeadRules` and
  `BodyRules` say, without their functions, which lines, names and bodies they accept. `Server`
  and `Client` are the keep-alive loop and the client's half of an exchange, and end in a round
  trip through both; `Framing` says what version and framing fields make of a message, and
  `CutShort` what becomes of one that is cut short.
  Each method's contract speaks of the bytes that remain, in the buffer or unread, and so
  holds for every way the transport cuts them.

`Powers`, `Numerals`, `Bytes`, `Search` and `Wrappers` hold what these share.

Where the code and its documentation disagree the model follows the code:

- `next_deadline` is documented as a lower bound of the next firing tick. `DeadlineScan.Overstated`
  runs a wheel on which it is not. `TimerWheel.Inner.NextDeadline` has the exact condition on the
  list heads and an error bound, and `DeadlineScan.BoundInEveryOrderIff` the exact condition on the
  deadlines, whatever the order of insertion.
- With one level an entry more than SLOTS ticks ahead is drained early, and a `Sleep` or `Timeout`
  on it is then never woken: `Placement.FireTickExact` and `TimerFutures.StrandsIff` have the exact
  condition, `TimerFutures.Strand` is a run.
- `MissedTickBehavior::Skip` is documented to arm the first multiple of the period after now:
  `Interval.SkipOnGridIff` says when it does, and `Interval.SourceNextIff` when its sum wraps.
- A cancelled join handle is documented to stay cancelled when the task completes later:
  `JoinHandle.CancelHoldsIff` says when it does.
- `block_on` is documented to drop the tasks still queued when it returns. It leaves exactly the
  unfinished ones in the registry and the queue: `Executor.LeftOverIff`, `Executor.LeftoverRun`.
- Two different Content-Length values are documented to be rejected. They are iff the first is
  not a length: `Body.LengthsRejectedIff`; `Server.ConflictServed` is a request that is served.
- The version of a response is read from the major digit, so it is the written one iff that is
  HTTP/1.1: `HeadParser.ResponseVersionIff`; `HeadPrinters.EitherVersionRead` has the responses.
- A malformed request is documented to be answered with status 400. It gets no answer:
  `Server.AnsweredIff`, `Server.RefuseEmptyLine`.
- The length of a response is documented to be added automatically. It is not for an empty body,
  for which the client then waits until the server ends the connection, while the server waits for
  the next request: `Client.SelfDelimitedIff` and `Client.KeepAliveRoundTrip` have the exact
  condition, `Client.EmptyReplyHangs` an instance.
- Fragmented messages are documented to be assembled internally. A Pong after the first fragment
  drops the assembly: `WebSocket.FragmentationInvariance` is an equivalence for that reason, and
  `WebSocket.SplitByPongLost` has three frames.
- A head of up to MAX_HEAD bytes is accepted unless a read carries the buffer past that limit:
  `HeadReads.ReadsDecideIff` says for which bytes that depends on the reads, and
  `Server.LongPathUndecided` is a request on which it does.

## Model

| member | source | states |
|---|---|---|
| Placement.LevelOf | crates/tpt-async-timer/src/wheel.rs:133-139 | the level chosen is the one whose width fits the distance: at least its width, and below the next unless it is the top |
| Placement.LevelUnique | crates/tpt-async-timer/src/wheel.rs:133-139 | and no other level fits |
| Placement.Choose | crates/tpt-async-timer/src/wheel.rs:124-145 | the chosen list exists: level and slot are in range |
| Placement.ChosenWaits | crates/tpt-async-timer/src/wheel.rs:133-144 | a list chosen by distance is drained (level 0) or cascaded (above) before the deadline, and not more than one turn early |
| Placement.FireTickExact | crates/tpt-async-timer/src/wheel.rs:136-144 | an entry is drained exactly at its deadline (the next tick if that has passed) iff the wheel has a second level or the deadline is at most SLOTS ticks away |
| Placement.InsertedPlaced | crates/tpt-async-timer/src/wheel.rs:148-154 | insertion establishes the placement invariant |
| Placement.CascadeKeeps | crates/tpt-async-timer/src/wheel.rs:256-278 | one cascade of one entry keeps the invariant of the middle of a tick |
| Placement.CascadesKeep | crates/tpt-async-timer/src/wheel.rs:219-230 | so do all cascades of a tick, up to the first level that does not roll over |
| Placement.LaterExact | crates/tpt-async-timer/src/wheel.rs:219-278 | a tick re-links each entry at most once: those it re-links come later than all others, those of coarser levels later, and those of one list in the reverse of their order before |
| Placement.TickedExact | crates/tpt-async-timer/src/wheel.rs:216-234 | a tick drains an entry iff it is due at the new tick, and otherwise keeps the invariant |
| Placement.EvolvedExact | crates/tpt-async-timer/src/wheel.rs:216-278 | over n ticks an entry is drained iff its due tick is among them, at that tick |
| Placement.FiresExactly | crates/tpt-async-timer/src/wheel.rs:210-234 | with two or more levels, after n ticks an entry has fired iff max(deadline, next tick) has come, however many turns of the top level that takes |
| Placement.LinkedAtMost | crates/tpt-async-timer/src/wheel.rs:254-278 | over its whole life, the draining tick included and for every deadline, an entry is linked at most LEVELS + floor(delta / SLOTS^LEVELS) times |
| Placement.LinkedThatOften | crates/tpt-async-timer/src/wheel.rs:254-278 | with two levels the bound is reached: an entry one turn ahead is linked twice, the second time in the tick that drains it |
| Placement.DueAhead | crates/tpt-async-timer/src/wheel.rs:236-252 | a waiting entry is never overdue |
| Placement.SameListSameBlock | crates/tpt-async-timer/src/wheel.rs:141-144 | within one lap all entries of a level-k list are due in the same block of SLOTS^k ticks |
| Placement.HeadNearList | crates/tpt-async-timer/src/wheel.rs:347-367 | so a list head overstates the due tick of any entry of its list by less than SLOTS^k |
| Saturation.SaturatingLevelExact | crates/tpt-async-timer/src/wheel.rs:133-139 | the loop over saturating widths picks the same level as one over exact widths |
| Saturation.SaturatingChooseExact | crates/tpt-async-timer/src/wheel.rs:124-145 | the saturating 64-bit arithmetic places an entry as exact arithmetic would iff the tick is not 0, or the deadline is not 2^64 - 1, or the widest slot fits 64 bits |
| Saturation.SaturatingCascadeExact | crates/tpt-async-timer/src/wheel.rs:221-229 | and cascades at the same ticks, iff the tick is not 2^64 - 1 or the width fits |
| WheelHistory.TickRefines | crates/tpt-async-timer/src/wheel.rs:216-234 | a tick of the placed wheel is a tick of the plain map from entry to due tick |
| WheelHistory.ApplyRefines | crates/tpt-async-timer/src/wheel.rs:369-393 | so is every public operation |
| WheelHistory.WheelRefinesAgenda | crates/tpt-async-timer/src/wheel.rs:310-418 | over every history of insert, remove, tick, tick_n and advance_to the wheel refines that map |
| WheelHistory.RunOnAgenda | crates/tpt-async-timer/src/wheel.rs:210-234 | an entry nobody inserts again or removes stays in the map until its due tick and is drained in that tick only |
| WheelHistory.FiresOnce | crates/tpt-async-timer/src/wheel.rs:210-234 | exact firing over every history: an entry inserted at tick t with deadline d and left alone is drained by exactly one tick, the one that reaches max(d, t + 1) when LEVELS >= 2 |
| TimerWheel.Inner.constructor | crates/tpt-async-timer/src/wheel.rs:317-327 | a new wheel is valid and empty at tick 0 |
| TimerWheel.Inner.PushFront | crates/tpt-async-timer/src/wheel.rs:166-182 | pointer surgery of a push at the front: which cells change, and to what |
| TimerWheel.Inner.Link | crates/tpt-async-timer/src/wheel.rs:156-183 | the entry becomes head of its list, and all other heads stay; all lists stay well formed: every node is where its back pointer says, in one list only, and no list has a cycle |
| TimerWheel.Inner.WriteCell | crates/tpt-async-timer/src/wheel.rs:195-199 | writes the one cell, slot head or predecessor, that a back pointer names |
| TimerWheel.Inner.Unhook | crates/tpt-async-timer/src/wheel.rs:190-207 | unlinking changes only the cell that pointed at the entry and the back pointer of its successor |
| TimerWheel.Inner.TakeOut | crates/tpt-async-timer/src/wheel.rs:186-208 | and keeps all lists well formed without that entry |
| TimerWheel.Inner.Unregister | crates/tpt-async-timer/src/wheel.rs:185-208 | remove: exactly that entry goes, or nothing changes if it was not registered |
| TimerWheel.Inner.ListIsChain | crates/tpt-async-timer/src/wheel.rs:237-239 | a slot head leads through exactly the entries placed in that slot |
| TimerWheel.Inner.Detach | crates/tpt-async-timer/src/wheel.rs:238-239 | taking a slot head leaves a valid wheel without that list |
| TimerWheel.Inner.Fire | crates/tpt-async-timer/src/wheel.rs:242-250 | a drained node is unregistered and its waker, if any, called once |
| TimerWheel.Inner.FireAll | crates/tpt-async-timer/src/wheel.rs:240-251 | the loop visits each node of the list once, the one linked last first, whatever its links, and calls exactly their wakers in that order |
| TimerWheel.Inner.DrainSlot | crates/tpt-async-timer/src/wheel.rs:237-252 | exactly the entries of the slot are unregistered and woken, the one linked last first |
| TimerWheel.Inner.ChooseSlot | crates/tpt-async-timer/src/wheel.rs:124-145 | the loop computes the specified placement |
| TimerWheel.Inner.Relink | crates/tpt-async-timer/src/wheel.rs:261-276 | one turn of the cascade loop moves one entry to where it now belongs |
| TimerWheel.Inner.RelinkAll | crates/tpt-async-timer/src/wheel.rs:258-277 | the cascade loop moves every entry of the list, each once; they end up linked later than all others, in reverse |
| TimerWheel.Inner.Cascade | crates/tpt-async-timer/src/wheel.rs:254-278 | cascade maps exactly the entries of the slot to their new places; all others stay; the order of linking changes by that reversal and no more |
| TimerWheel.Inner.CascadeLevels | crates/tpt-async-timer/src/wheel.rs:219-230 | the cascades of a tick, stopping at the first level that does not roll over, and the order of linking they leave |
| TimerWheel.Inner.AdvanceOne | crates/tpt-async-timer/src/wheel.rs:216-234 | drains exactly what is due at the new tick, calls each of those wakers once, that of the entry linked last first, where the order is that before the tick as its cascades change it; leaves every other entry registered with its waker; refines the map |
| TimerWheel.Inner.Insert | crates/tpt-async-timer/src/wheel.rs:148-154 | adds the entry with its due tick, at the head of the chosen list |
| TimerWheel.Inner.Remove | crates/tpt-async-timer/src/wheel.rs:185-208 | deletes it, or does nothing |
| TimerWheel.Inner.Len | crates/tpt-async-timer/src/wheel.rs:337-339 | the counter is the number of registered entries |
| TimerWheel.Inner.IsEmpty | crates/tpt-async-timer/src/wheel.rs:343-345 | true iff none is registered |
| TimerWheel.Inner.ScanHeads | crates/tpt-async-timer/src/wheel.rs:355-366 | the least deadline among the first entries of the lists |
| TimerWheel.Inner.ScanIsBoundIff | crates/tpt-async-timer/src/wheel.rs:347-352 | with two or more levels the result is no later than any due tick iff some list begins with an entry that is due first |
| TimerWheel.Inner.BoundWhateverTheOrder | crates/tpt-async-timer/src/wheel.rs:347-352 | which holds, in whatever order the lists were filled, if all that share the list of an entry are due first with it |
| TimerWheel.Inner.NextDeadline | crates/tpt-async-timer/src/wheel.rs:353-367 | the least deadline among the list heads, None iff empty; a lower bound of all due ticks iff some list begins with an entry due first; some entry is due by the result or at the next tick; within one lap the result overstates no due tick by as much as one slot of its level |
| TimerWheel.Inner.AdvanceRun | crates/tpt-async-timer/src/wheel.rs:383-392 | one more tick of a run: what was due has been drained in due order and woken with the waker it had |
| TimerWheel.Inner.TickN | crates/tpt-async-timer/src/wheel.rs:376-381 | n ticks drain exactly the entries due in (now, now + n], in non-decreasing due order |
| TimerWheel.Inner.AdvanceTo | crates/tpt-async-timer/src/wheel.rs:388-393 | the same up to a target; nothing if it has passed |
| DeadlineScan.InsertAll | crates/tpt-async-timer/src/wheel.rs:347-367 | entries inserted in some order into an empty wheel: what next_deadline then reports, from their deadlines and their order |
| DeadlineScan.UnmixedIsBound | crates/tpt-async-timer/src/wheel.rs:347-352 | it is a lower bound if nothing shares a list with what is due first unless it is due first itself |
| DeadlineScan.MixedOverstates | crates/tpt-async-timer/src/wheel.rs:347-352 | it is later than the first due tick if the last entry inserted shares the list of what is due first and is due later |
| DeadlineScan.BoundInEveryOrderIff | crates/tpt-async-timer/src/wheel.rs:347-352 | so deadlines keep the documented bound in every order of insertion iff nothing shares a list with what is due first unless it is due first itself |
| DeadlineScan.Overstated | crates/tpt-async-timer/src/wheel.rs:347-352 | and a wheel on which it fails: it reports 9 and holds an entry that is due at 8 |
| TimerFutures.Tick | crates/tpt-async-timer/src/wheel.rs:371-373 | a future drained by a tick is due by the tick it was registered for, and a waker equivalent to that of its last poll is called; all others stay as armed as they were |
| TimerFutures.Drive | crates/tpt-async-timer/src/wheel.rs:371-381 | the same over any number of ticks |
| TimerFutures.StrandedIff | crates/tpt-async-timer/src/wheel.rs:136-144 | a pending future is in no list, so that nothing will wake it, iff it was drained before its deadline, which takes a single level |
| TimerFutures.StrandsIff | crates/tpt-async-timer/src/wheel.rs:136-144 | a registration leads there iff there is one level and the deadline is more than SLOTS ticks away |
| TimerFutures.Strand | crates/tpt-async-timer/src/sleep.rs:94-141 | for instance a sleep of 9 ticks on 8 slots and one level, polled, ticked once and polled again |
| TimerFutures.Deregister | crates/tpt-async-timer/src/sleep.rs:105-109 | removal frees one entry and leaves every other future as it was |
| TimerFutures.Register | crates/tpt-async-timer/src/sleep.rs:112-138 | a pending poll leaves the entry with a waker equivalent to its own and inserts it once: the wheel holds it until the tick at which it drains it, which is its deadline when LEVELS >= 2 |
| TimerFutures.Sleep.Poll | crates/tpt-async-timer/src/sleep.rs:94-141 | ready iff now >= deadline, and then the wheel holds no pointer to the entry; otherwise the wheel holds it iff the tick at which it drains it is still to come, fixed by the first poll and equal to the deadline when LEVELS >= 2 |
| TimerFutures.Sleep.Reset | crates/tpt-async-timer/src/sleep.rs:74-81 | the wheel forgets the old registration |
| TimerFutures.Sleep.Drop | crates/tpt-async-timer/src/sleep.rs:144-152 | after a drop the wheel holds no pointer to the entry |
| TimerFutures.Timeout.Poll | crates/tpt-async-timer/src/timeout.rs:76-123 | the inner value wins over the deadline; timed out iff now >= deadline; while pending the wheel holds the entry iff the tick at which it drains it is still to come, the deadline when LEVELS >= 2 |
| TimerFutures.Timeout.Drop | crates/tpt-async-timer/src/timeout.rs:126-132 | as for Sleep |
| Interval.Interval.PollTick | crates/tpt-async-timer/src/interval.rs:117-138 | yields iff the deadline has come when the sleep is polled, and re-arms by the missed-tick rule from the tick read afterwards, however many ticks a driver makes in between |
| Interval.BurstDeadline | crates/tpt-async-timer/src/interval.rs:35-38 | over any poll history, with ticks inside the polls too, the burst deadline is one period after the ticks yielded |
| Interval.BurstNotEarly | crates/tpt-async-timer/src/interval.rs:117-138 | burst never yields more ticks than periods have passed |
| Interval.BurstCatchesUp | crates/tpt-async-timer/src/interval.rs:117-138 | polled until pending at tick now, burst has yielded floor((now - start) / period) ticks |
| Interval.RearmedWithinPeriod | crates/tpt-async-timer/src/interval.rs:35-44 | Skip and Delay re-arm in (now, now + period], never less than a period after the old deadline; Delay at now + period |
| Interval.RearmsAPeriodApart | crates/tpt-async-timer/src/interval.rs:35-44 | over any poll history no behaviour re-arms less than a period after the last deadline |
| Interval.SkipStaysAligned | crates/tpt-async-timer/src/interval.rs:39-42 | on the grid of multiples of the period Skip arms the next multiple |
| Interval.SkipAlignedAlways | crates/tpt-async-timer/src/interval.rs:39-42 | and stays on it over any poll history |
| Interval.SkipOnGridIff | crates/tpt-async-timer/src/interval.rs:25-29 | the documented "first multiple after now" is what Skip arms iff the old deadline is no later than the multiple before now |
| Interval.SkipOffGrid | crates/tpt-async-timer/src/interval.rs:25-29 | for old deadline 13, period 10 and now 13 it arms 23 instead |
| Interval.SourceNextIff | crates/tpt-async-timer/src/interval.rs:35-44 | in 64-bit arithmetic the deadline is the exact one capped at 2^64 - 1 iff the plain sum that aligns Skip fits or the other sum saturates; where it wraps, Skip arms one period after the missed deadline |
| Interval.SkipWraps | crates/tpt-async-timer/src/interval.rs:39-42 | for instance a period of 2^63 missed at 0 is armed in the past |
| Executor.NextKeeps | crates/tpt-async-executor/src/lib.rs:147-395 | every step of every thread keeps the protocol invariant |
| Executor.RunKeeps | crates/tpt-async-executor/src/lib.rs:147-395 | so does every interleaving |
| Executor.QueuedIffResponsible | crates/tpt-async-executor/src/lib.rs:341-369 | in every reachable state an unfinished task is flagged queued iff it is in the queue, or a waker is about to push it, or the executor has popped and not yet cleared it, or is about to enqueue it |
| Executor.ResponsibleOnce | crates/tpt-async-executor/src/lib.rs:156-166 | and it is exactly one of these, once |
| Executor.WakeEndsInPoll | crates/tpt-async-executor/src/lib.rs:156-166 | a wake that passed the done check stays on record until the executor begins a poll of that task |
| Executor.OnlyDoneWakesDrop | crates/tpt-async-executor/src/lib.rs:157-159 | no wake of an unfinished task is dropped |
| Executor.FirstInFirstOut | crates/tpt-async-executor/src/lib.rs:329-338 | ids are popped in exactly the order they were pushed; none is lost or repeated |
| Executor.QueuedTaskIsTaken | crates/tpt-async-executor/src/lib.rs:329-338 | so the (i+1)-th pop from now takes the i-th id of the queue |
| Executor.QueuedIsServed | crates/tpt-async-executor/src/lib.rs:329-369 | an id at position i of the queue is polled before i + 2 more ids are popped, in every interleaving, unless a poll of it that is going on answers that the task is ready |
| Executor.CarriedIsPushed | crates/tpt-async-executor/src/lib.rs:156-166 | a waker that flagged a task puts it in the queue with its own next two steps, unless it was polled before |
| Executor.WakeIsServed | crates/tpt-async-executor/src/lib.rs:156-166 | every wake of an unfinished task is followed by a poll: every run from a reachable state with the task flagged has begun a poll of it (or had the answer "ready" from the one going on), or still has it unfinished and flagged with somebody responsible for it, and from position i of the queue at most i + 1 pops come before that poll |
| Executor.UnfinishedUntilReady | crates/tpt-async-executor/src/lib.rs:341-369 | over every run a task is unfinished until a poll of it answers that it is ready, and never after; it is not marked done before |
| Executor.PollsAreCaused | crates/tpt-async-executor/src/lib.rs:147-168 | over every run each poll of a task takes back one setting of its flag by a spawn or a wake: none without a wake, and no accepted wake without a poll to come |
| Executor.MainWakeIsServed | crates/tpt-async-executor/src/lib.rs:193-201 | a wake of the main future keeps its flag set until a poll of it begins; meanwhile the executor sleeps only if a waker is on its way to notify it, and polls within three steps of its own of finding nothing to run |
| Executor.MainPollsAreCaused | crates/tpt-async-executor/src/lib.rs:266-281 | and the main future is polled at most once for the start of the call and once for each wake of it |
| Executor.ReturnsWhenReady | crates/tpt-async-executor/src/lib.rs:266-285 | block_on has returned only if a poll of its main future answered that it is ready |
| Executor.RunsUntilStalled | crates/tpt-async-executor/src/lib.rs:371-377 | run_until_stalled does nothing but run tasks until it finds the queue empty |
| Executor.NeverSleepsOnWork | crates/tpt-async-executor/src/lib.rs:296-316 | while block_on is parked, work exists only if a waker is on its way to notify |
| Executor.SleepsIffIdle | crates/tpt-async-executor/src/lib.rs:291-316 | with an empty queue and no other thread moving, block_on polls the main future again iff that was woken, and sleeps otherwise |
| Executor.LockHolderProceeds | crates/tpt-async-executor/src/lib.rs:147-168 | whoever holds the queue lock can take its next step |
| Executor.NotifyEndsSleep | crates/tpt-async-executor/src/lib.rs:150-166 | each step of that waker brings it closer, and the last ends the sleep |
| Executor.LeftOverIff | crates/tpt-async-executor/src/lib.rs:266-285 | from the moment the main future is ready to the next call, in every interleaving with spawns and wakes, a task is left over iff it had not finished, and what was queued stays queued; the documentation says it is dropped |
| Executor.LeftoverRun | crates/tpt-async-executor/src/lib.rs:266-285 | a concrete run: the main future spawns a task and is ready; the task is still queued |
| JoinHandle.NextKeeps | crates/tpt-async-core/src/task.rs:37-152 | every step of every thread keeps the invariant of the shared state |
| JoinHandle.FinishedMeansWoken | crates/tpt-async-core/src/task.rs:37-51 | once a complete, cancel or drop has been through the waker slot, the waker of the last pending poll has been called, and no later poll is left waiting |
| JoinHandle.CompleterResolves | crates/tpt-async-core/src/task.rs:37-51 | once the completer is used or dropped and all finishing calls are over, the flag is set, and nobody whose poll was pending is left uncalled |
| JoinHandle.CancelResolves | crates/tpt-async-core/src/task.rs:45-51 | so it is after a cancel or the drop of a task |
| JoinHandle.EndIsCaused | crates/tpt-async-core/src/task.rs:37-51 | over every run READY, the value handed out and the value answered come from a completing call, and CANCELLED only from a cancelling or dropping one |
| JoinHandle.CompletionWins | crates/tpt-async-core/src/task.rs:145-152 | so a completed task that nobody cancels ends READY: dropping the used completer does not undo it |
| JoinHandle.EndedPollAnswers | crates/tpt-async-core/src/task.rs:92-130 | every poll that begins after the end answers, and answers "cancelled" time after time if it is cancelled for good |
| JoinHandle.CancelTakesBack | crates/tpt-async-core/src/task.rs:45-51 | a cancel that stores its flag after completion takes the value back: every later poll answers "cancelled" |
| JoinHandle.WaitingIsCovered | crates/tpt-async-core/src/task.rs:102-130 | until then a thread that is finishing will take that very waker, or is about to call it |
| JoinHandle.SlotHolderProceeds | crates/tpt-async-core/src/task.rs:40-50 | a finishing thread waits for nothing but the waker slot, whose holder can go on |
| JoinHandle.FinishingEnds | crates/tpt-async-core/src/task.rs:37-51 | and finishing takes boundedly many steps |
| JoinHandle.ReadyHasValue | crates/tpt-async-core/src/task.rs:37-39 | READY is visible only once the value is stored, and until it is handed out |
| JoinHandle.HandedOutOnce | crates/tpt-async-core/src/task.rs:92-128 | the value is handed out at most once |
| JoinHandle.PanicsIffHandedOut | crates/tpt-async-core/src/task.rs:84-91 | a poll that reaches for the value panics iff it was handed out before |
| JoinHandle.FinishedForGood | crates/tpt-async-core/src/task.rs:66-68 | is_finished never goes back to false |
| JoinHandle.CancelHoldsIff | crates/tpt-async-core/src/task.rs:70-77 | the documented promise that a cancelled handle stays cancelled holds iff no completion can still come; otherwise there is a run that overwrites it |
| FrameCodec.MaskedTwice | crates/tpt-net-ws/src/frame.rs:212-217 | masking is its own inverse |
| FrameCodec.ApplyMask | crates/tpt-net-ws/src/frame.rs:213-217 | the in-place loop combines byte i with byte i mod 4 of the key |
| FrameCodec.EncodedBytes | crates/tpt-net-ws/src/frame.rs:76-101 | on the wire payload byte i is combined with the i mod 4-th of the four key bytes before the payload |
| FrameCodec.DecodedBytes | crates/tpt-net-ws/src/frame.rs:118-217 | and so it is in whatever is decoded, whose length is the number the length bytes write, most significant first |
| FrameCodec.FirstByteIff | crates/tpt-net-ws/src/frame.rs:118-128 | a first byte is a violation iff the third or fourth bit is set or its last four are 3 to 7 or 11 to 15 |
| FrameCodec.OpcodeNumbers | crates/tpt-net-ws/src/frame.rs:30-60 | the numbers of the six opcodes on the wire |
| FrameCodec.HelloFrames | crates/tpt-net-ws/src/frame.rs:118-217 | the masked and the unmasked "Hello" of section 5.7 of RFC 6455, both ways |
| FrameCodec.FlagsRoundTrip | crates/tpt-net-ws/src/frame.rs:78-81 | the first byte gives FIN, RSV1 and opcode back, with RSV2 and RSV3 clear |
| FrameCodec.LengthRoundTrip | crates/tpt-net-ws/src/frame.rs:82-90 | each of the three length forms is read back |
| FrameCodec.Encode | crates/tpt-net-ws/src/frame.rs:76-101 | the encoder appends the specified wire form |
| FrameCodec.DecodeEncoded | crates/tpt-net-ws/src/frame.rs:118-210 | decoding the wire form of a legal frame, whatever follows, gives the frame and its exact length |
| FrameCodec.DecodeStable | crates/tpt-net-ws/src/frame.rs:118-210 | a decoded frame and a violation are unchanged by appended bytes, on any input |
| FrameCodec.ProperPrefixNeedsMore | crates/tpt-net-ws/src/frame.rs:118-210 | every proper prefix of a legal frame asks for more bytes |
| FrameCodec.EncodingsPrefixFree | crates/tpt-net-ws/src/frame.rs:76-101 | a byte stream splits into frames in one way only |
| FrameCodec.DecodedIsLegal | crates/tpt-net-ws/src/frame.rs:167-190 | whatever is accepted is within the size bounds and masked iff it came from a client |
| WebSocket.ReceiveOne | crates/tpt-net-ws/src/stream.rs:333-350 | one frame off the front of the wire |
| WebSocket.FragmentationInvariance | crates/tpt-net-ws/src/stream.rs:325-443 | however a message is cut into frames, under any masking keys and with any Pings and Pongs before or between, repeated recv returns the Pongs ahead of it and then the message, answers each Ping once and leaves the rest untouched, iff no Pong comes after its first frame |
| WebSocket.PongLosesMessage | crates/tpt-net-ws/src/stream.rs:382-416 | with a Pong after the first frame no number of calls returns the message, or anything but Pongs |
| WebSocket.SplitByPongLost | crates/tpt-net-ws/src/stream.rs:382-416 | for instance a binary message in two fragments with a Pong between them, for any masks and any number of calls |
| WebSocket.OnlyPongsLeft | crates/tpt-net-ws/src/stream.rs:409-416 | continuation frames of a forgotten message yield their Pongs and nothing else |
| WebSocket.SentIsReceived | crates/tpt-net-ws/src/stream.rs:251-303 | a text, binary or Pong message sent by one side is what the other receives |
| WebSocket.MessagesInOrder | crates/tpt-net-ws/src/stream.rs:251-443 | so is any sequence of them, complete and in order |
| WebSocket.PingComesBack | crates/tpt-net-ws/src/stream.rs:378-381 | a Ping that one side sends is answered, and the answer is at the sender a Pong with the same payload |
| WebSocket.MessagesAreValid | crates/tpt-net-ws/src/stream.rs:407-441 | over any bytes a text that is returned is valid UTF-8, and every message is within its size limit |
| WebSocket.InvalidTextRefused | crates/tpt-net-ws/src/stream.rs:311-323 | a text that is not valid UTF-8, however it is cut, is refused and answered with one Close of code 1007, after the answers to the Pings |
| WebSocket.TooLongRefused | crates/tpt-net-ws/src/stream.rs:407-416 | a message over the limit is refused although each of its frames is within it |
| WebSocket.ViolationAnswered | crates/tpt-net-ws/src/stream.rs:311-323 | over any bytes a reported violation was answered with one Close, of code 1007 for invalid UTF-8 and 1002 for all else, unless ours was out |
| WebSocket.CloseAnswered | crates/tpt-net-ws/src/stream.rs:385-406 | a Close is echoed with code and reason and ends the stream, unless its code is below 1000, 1004 to 1006, 1012 to 2999 or above 4999, which is a violation |
| WebSocket.ViolatesAloneIff | crates/tpt-net-ws/src/stream.rs:333-441 | exactly which single frames are violations |
| WebSocket.ViolatesInsideIff | crates/tpt-net-ws/src/stream.rs:333-441 | and which are behind the first fragment of a message |
| WebSocket.DrainSkipsMessages | crates/tpt-net-ws/src/stream.rs:447-455 | closing skips whatever messages the peer had sent and ends with its Close |
| WebSocket.ReceiveClosesOnce | crates/tpt-net-ws/src/stream.rs:385-406 | over any bytes, replies hold a Close iff they are what sent ours |
| WebSocket.RecvClosesOnce | crates/tpt-net-ws/src/stream.rs:311-348 | the same for recv with its answer to violations; the end of the stream is "no more messages" after the Close of the peer and an error before it; after a violation our Close is out |
| WebSocket.DrainClosesOnce | crates/tpt-net-ws/src/stream.rs:447-455 | and for the draining loop of close |
| WebSocketStream.WebSocketStream.Send | crates/tpt-net-ws/src/stream.rs:251-303 | writes exactly the one frame of the message, or refuses a control payload over 125 bytes; a second Close frame is possible exactly by sending one by hand |
| WebSocketStream.WebSocketStream.NextFrame | crates/tpt-net-ws/src/stream.rs:334-350 | the frame depends on the bytes to come, not on how they are read, and is decoded without waiting for more once it is there; the rest is untouched |
| WebSocketStream.WebSocketStream.HandleClose | crates/tpt-net-ws/src/stream.rs:385-406 | validates, echoes unless we closed first, and ends the stream |
| WebSocketStream.WebSocketStream.HandleData | crates/tpt-net-ws/src/stream.rs:407-441 | assembles, checks size and UTF-8, and completes on FIN |
| WebSocketStream.WebSocketStream.Handle | crates/tpt-net-ws/src/stream.rs:352-441 | every branch of the receive loop does what is specified, replies included |
| WebSocketStream.WebSocketStream.RecvMessage | crates/tpt-net-ws/src/stream.rs:325-443 | result, bytes left, frames written and flags are those specified for the bytes to come, for every way of handing them out |
| WebSocketStream.WebSocketStream.Recv | crates/tpt-net-ws/src/stream.rs:311-323 | the same with the Close frame that answers a violation; at most one Close is ever written |
| WebSocketStream.WebSocketStream.CloseWith | crates/tpt-net-ws/src/stream.rs:447-460 | sends a Close unless one was sent, drains, and after success the stream is closed |
| ClosingHandshake.TakeKeeps | crates/tpt-net-ws/src/stream.rs:325-443 | taking a frame keeps the accounting of Close frames between two endpoints |
| ClosingHandshake.RunKeeps | crates/tpt-net-ws/src/stream.rs:251-460 | so does every run of sends, closes and receives |
| ClosingHandshake.HandshakeCompletes | crates/tpt-net-ws/src/stream.rs:447-460 | in any run in which a side closed with a valid status, one-sided or both at once, both are closed without error once both have drained |
| ClosingHandshake.OneCloseEach | crates/tpt-net-ws/src/stream.rs:263-272 | each side sends at most one Close and the other receives it at most once |
| ClosingHandshake.DrainingEnds | crates/tpt-net-ws/src/stream.rs:453 | draining ends after boundedly many frames, however the sides take turns |
| ClosingHandshake.CloseArrivesIff | crates/tpt-net-ws/src/stream.rs:36-38 | a Close with an empty reason is accepted on arrival iff its code is one a peer may send |
| Connection.HttpConnection.Fill | crates/tpt-net-http/src/connection.rs:53-71 | moves bytes from the transport to the buffer; nothing is lost; it waits iff there is nothing |
| Connection.HttpConnection.ReadRaw | crates/tpt-net-http/src/connection.rs:76-91 | the next bytes, buffered ones first; nothing only at the end |
| Connection.HttpConnection.ReadLine | crates/tpt-net-http/src/connection.rs:94-109 | the bytes up to the first CRLF, wherever the reads cut; what stays buffered is less than one read |
| Connection.HttpConnection.ExpectExact | crates/tpt-net-http/src/connection.rs:112-127 | consumes exactly the expected bytes, or says why it cannot |
| Connection.HttpConnection.ReadHead | crates/tpt-net-http/src/connection.rs:131-179 | the result is what the sizes of the reads and the bytes make it, and what the bytes alone make it where they are certain to; consumption is exact; the leftover is below one read; a head that is there is read without waiting for more |
| HeadReads.CertainResult | crates/tpt-net-http/src/connection.rs:131-179 | where the head shows within MAX_HEAD - READ_CHUNK + 1 bytes, or all bytes fit in MAX_HEAD, or nothing shows within it, every way of reading has the one result the bytes have |
| HeadReads.ReadsDecideIff | crates/tpt-net-http/src/connection.rs:150-156 | and only there: otherwise byte-by-byte reads yield the head, or the violation in it, and a full read at the wrong place refuses it as too long |
| HeadReads.LateHeadUndecided | crates/tpt-net-http/src/connection.rs:150-156 | every head that ends in the last READ_CHUNK - 1 bytes of the limit, with enough behind it, is such a case |
| Server.LongPathUndecided | crates/tpt-net-http/src/connection.rs:150-156 | for instance a printed request for a path of 60000 bytes, with both outcomes |
| HeadParser.Trim | crates/tpt-net-http/src/parse.rs:376-386 | cuts exactly the white space off both ends |
| HeadParser.TrimOws | crates/tpt-net-http/src/parse.rs:376-386 | the two loops compute that |
| Spelling.CaseIgnoredIff | crates/tpt-net-http/src/parse.rs:50-56 | two names are taken for the same iff they are equal byte by byte up to 32 between a capital and its small letter |
| Spelling.CapitalsIgnored | crates/tpt-net-http/src/parse.rs:50-56 | so a name is found in small, capital or mixed letters |
| HeadRules.RequestLineIff | crates/tpt-net-http/src/parse.rs:318-337 | a request line is accepted iff it is a token, a space, a target without spaces, a space and HTTP/1.1 or HTTP/1.0, and is read as these |
| HeadRules.StatusLineIff | crates/tpt-net-http/src/parse.rs:340-362 | a status line iff it is a version, a space and three digits from 100 to 599, and the status is that number |
| HeadRules.FoldRefusedIff | crates/tpt-net-http/src/parse.rs:233-256 | a head is refused for line folding iff a line of it begins with a space or a tab |
| HeadRules.HeadersRefusedIff | crates/tpt-net-http/src/parse.rs:270-315 | header lines are refused iff one that is not empty has no colon |
| HeadRules.FieldLineRead | crates/tpt-net-http/src/parse.rs:304-315 | a header line is the name before its first colon and the value without the white space around it |
| HeadParser.CollectHeaderRanges | crates/tpt-net-http/src/parse.rs:272-302 | the scanning loop computes the ranges of all header lines but the first lines skipped |
| HeadParser.HeadStable | crates/tpt-net-http/src/parse.rs:184-256 | within the size limit a parsed head and a violation are unchanged by appended bytes |
| HeadParser.ProperPrefixNeedsMore | crates/tpt-net-http/src/parse.rs:184-205 | every proper prefix of a head asks for more bytes |
| HeadParser.ConsumedEnd | crates/tpt-net-http/src/parse.rs:195-204 | a head is consumed up to and including its first blank line |
| HeadParser.HeadAlone | crates/tpt-net-http/src/parse.rs:184-205 | the parsed head does not depend on what follows it |
| HeadParser.RangesInOrder | crates/tpt-net-http/src/parse.rs:270-315 | all ranges lie inside the head, in order, first line before headers, names before values |
| HeadParser.ResponseVersionIff | crates/tpt-net-http/src/parse.rs:345-349 | the reported version of a response is the written one iff that is HTTP/1.1 |
| HeadPrinters.RenderRequest | crates/tpt-net-http/src/client.rs:103-124 | the pushes of the client compose the specified head |
| HeadPrinters.RenderHead | crates/tpt-net-http/src/connection.rs:215-242 | so do those of the server |
| HeadPrinters.EndOfJoined | crates/tpt-net-http/src/parse.rs:233-256 | the end of a printed head is found at its end and no folding is seen in it |
| HeadPrinters.FieldsReadBack | crates/tpt-net-http/src/parse.rs:304-315 | printed header lines are read back as the fields printed |
| HeadPrinters.PrintedIsParsed | crates/tpt-net-http/src/parse.rs:184-228 | parsing a printed head, whatever follows, gives its first line and its fields and takes all of it |
| HeadPrinters.RequestRoundTrip | crates/tpt-net-http/src/client.rs:103-124 | what the client writes is parsed as the same method, target and fields |
| Framing.PrintedRequestRead | crates/tpt-net-http/src/parse.rs:184-228 | a printed request of either version is read as its method, target, version and fields |
| HeadPrinters.EitherVersionRead | crates/tpt-net-http/src/parse.rs:332-372 | a printed response of either version parses, to the same status, reason and fields, and is reported as HTTP/1.1 |
| HeadPrinters.ResponseRoundTrip | crates/tpt-net-http/src/connection.rs:215-242 | what the server writes is parsed as the same status, reason and fields |
| HeadPrinters.SentFieldsAreClean | crates/tpt-net-http/src/client.rs:103-124 | the headers the client adds are as clean as those it was given |
| Body.LengthsRejectedIff | crates/tpt-net-http/src/body.rs:75-93 | without Transfer-Encoding a request is rejected iff its first Content-Length is not a length below 2^64; lengths behind it, conflicting or not, are not looked at |
| Server.TwoLengthsServed | crates/tpt-net-http/src/body.rs:75-93 | a printed request with two different lengths is dispatched with a body of the first |
| Server.ConflictServed | crates/tpt-net-http/src/body.rs:75-93 | for instance with lengths 0 and 5 |
| Body.DecimalLength | crates/tpt-net-http/src/body.rs:77-93 | a length in decimal digits below 2^64 is read as that length |
| Body.BodyReader.constructor | crates/tpt-net-http/src/body.rs:109-124 | a new reader has the whole body before it; empty bodies are finished at once |
| Body.BodyReader.ReadContentLength | crates/tpt-net-http/src/body.rs:166-177 | delivers the next part of exactly so many bytes |
| Body.BodyReader.ReadChunkData | crates/tpt-net-http/src/body.rs:181-192 | delivers the next part of the chunk, and consumes its line break with its last byte |
| Body.BodyReader.SkipTrailers | crates/tpt-net-http/src/body.rs:203-209 | consumes the trailer section exactly |
| Body.BodyReader.ReadChunked | crates/tpt-net-http/src/body.rs:179-215 | delivers the next part of the chunked body; every turn of the loop consumes input |
| Body.BodyReader.Read | crates/tpt-net-http/src/body.rs:128-142 | for every kind of body: the parts delivered are the body in order, nothing means complete, and an error comes whatever the reads; only a body framed by the end of the connection waits for that |
| Body.BodyReader.ReadToVec | crates/tpt-net-http/src/body.rs:146-159 | the whole body exactly, with the bytes behind it left; an error iff it is too long or ends early; a framed body that is there is read without waiting for more |
| Body.BodyStable | crates/tpt-net-http/src/body.rs:99-142 | a complete body is the same body whatever follows it, and a broken one stays broken |
| Body.HexSizeLine | crates/tpt-net-http/src/body.rs:194-202 | a size in hexadecimal, in digits of either case, with or without an extension, is read as that size |
| Body.SizeSays | crates/tpt-net-http/src/body.rs:194-202 | whatever is accepted as a size is a hexadecimal number below 2^64 up to an extension |
| Numerals.CapitalsRead | crates/tpt-net-http/src/body.rs:200-201 | capital digits are worth what small ones are |
| Body.LengthIff | crates/tpt-net-http/src/body.rs:77-90 | a length may have white space around it, and is otherwise decimal digits below 2^64 |
| Body.ChunkedRoundTrip | crates/tpt-net-http/src/body.rs:179-215 | for any chunks, size texts, extensions and trailers the body is the data of the chunks and the following bytes are left |
| BodyRules.BodyReadIff | crates/tpt-net-http/src/body.rs:99-215 | a body is read with those bytes left iff they are what follows it on the wire: for chunked bodies, some sequence of size lines, data, last chunk and trailers |
| BodyRules.CutBodyFails | crates/tpt-net-http/src/body.rs:161-215 | a body that is cut short anywhere is an error |
| Framing.EncodingDecides | crates/tpt-net-http/src/body.rs:28-44 | Transfer-Encoding is "chunked" in any case, or is refused, and is refused with a Content-Length |
| Framing.ChunkedRequestServed | crates/tpt-net-http/src/body.rs:28-44 | a printed request with "chunked" in any case is dispatched with the data of its chunks, and the bytes behind them are left |
| Framing.OtherEncodingRefused | crates/tpt-net-http/src/body.rs:28-44 | with a Content-Length, or any other encoding, it is refused and nothing is dispatched |
| Framing.ChunkedReplyFetched | crates/tpt-net-http/src/body.rs:47-73 | a chunked response is fetched as the data of its chunks, or as nothing where the status or the method allows no body; other encodings are refused |
| Server.TakeBody | crates/tpt-net-http/src/server.rs:150-153 | what a handler gets of a body, and whether the reader is finished with it, by the bytes and the limit it asks with, if it asks |
| Server.ServeOne | crates/tpt-net-http/src/server.rs:136-173 | one turn of the keep-alive loop, for any handler; a request that is there in full is answered without waiting for more |
| Server.ServeConnection | crates/tpt-net-http/src/server.rs:130-174 | for handlers that keep state and read the body or not: which requests they see, with which bodies, and how serving ends depend on the bytes alone; what is written is the responses in order and nothing else |
| Server.AnsweredIff | crates/tpt-net-http/src/server.rs:128-138 | bytes that do not begin with a head that parses and frames its body clearly get no answer; a 400 is documented |
| Server.RefuseEmptyLine | crates/tpt-net-http/src/server.rs:128-138 | for instance an empty line in place of a request |
| Server.Pipelining | crates/tpt-net-http/src/server.rs:136-173 | concatenated well-formed requests are dispatched with exactly their bodies, as far as the handler asks for them, in order, up to the first behind which the connection ends: by its own wish, by a body left unread, or by one above the limit; then serving goes on with the bytes behind them |
| Framing.ConnectionDecides | crates/tpt-net-http/src/server.rs:176-193 | serving goes on behind a request without a body iff it is one of HTTP/1.1 whose first Connection field is not "close", or one of HTTP/1.0 whose first is "keep-alive", in any case |
| Framing.AskedToClose | crates/tpt-net-http/src/server.rs:176-193 | for instance "GET /" with "connection: close", of either version |
| Framing.AskedToStay | crates/tpt-net-http/src/server.rs:176-193 | and with "connection: keep-alive" |
| CutShort.CutRequestRefused | crates/tpt-net-http/src/server.rs:136-141 | a request whose head is cut short is not dispatched; nothing at all is a clean end |
| CutShort.CutBodyIsPartial | crates/tpt-net-http/src/server.rs:136-173 | one whose body is cut short is dispatched, but never with a whole body, and is the last |
| Framing.ReasonPhrases | crates/tpt-net-http/src/server.rs:93-106 | eight codes have a reason phrase, each its own, and no other has one |
| Client.ReplyFieldsAre | crates/tpt-net-http/src/server.rs:155-162 | the fields of the response come first and as they are; a length is added iff there is a body |
| Client.Send | crates/tpt-net-http/src/client.rs:98-138 | writes the request; the response head and body, or the error, depend only on the bytes the server sends |
| Client.Fetch | crates/tpt-net-http/src/client.rs:297-321 | and with the whole body read: head, body and what is left are those of the bytes; it waits for the server to end the connection iff that frames the body |
| Client.SentFieldsAre | crates/tpt-net-http/src/client.rs:109-132 | the fields of the caller are sent first and as they are; the host is added iff it is not among them, and the length always |
| CutShort.CutReplyFails | crates/tpt-net-http/src/client.rs:297-321 | a reply that is cut short anywhere is an error, never a shorter body |
| Client.ClientRequestIsGood | crates/tpt-net-http/src/client.rs:103-128 | every request the client writes is one the server dispatches with exactly its body |
| Client.ResponseDelivered | crates/tpt-net-http/src/server.rs:155-168 | whatever its length and whatever follows until the connection ends, what the server writes is read promptly as the same status and fields; the body is cut exactly iff, where a body is allowed, it is not empty or nothing follows, and where none is allowed, it is empty |
| Client.SelfDelimitedIff | crates/tpt-net-http/src/server.rs:155-168 | a reply is read the same, taking nothing of what follows, whatever that is, iff it has a body where one is allowed and none where it is not |
| Client.RepliesRead | crates/tpt-net-http/src/server.rs:155-168 | once the server has ended the connection its responses are read one by one iff each is framed so, or is the last |
| Client.KeepAliveRoundTrip | crates/tpt-net-http/src/server.rs:136-173 | end to end, each call written once the reply to the one before is read: the client reads exactly the answers of the handler iff each is self-delimited, or is the last because the server then ends the connection itself; and then the conversation ends with the last call or with the connection |
| Client.SameInOnePiece | crates/tpt-net-http/src/server.rs:136-173 | all calls in one piece are the same exchanges and answers to the server |
| Client.EmptyReplyHangs | crates/tpt-net-http/src/server.rs:136-168 | status 200 without a body on a connection that the server keeps open: client and server wait for each other |

## Left out

- Executor.NextKeeps: assumes sequentially consistent atomics, and that a polled future does not call `block_on` or `run_until_stalled` of its own executor; the WASM stall panic is not modelled.
- JoinHandle.NextKeeps: assumes sequentially consistent atomics; wakers that wake the same task are one value.
- TimerWheel.Inner.AdvanceOne: ticks are unbounded numbers, so the overflow of the tick counter after 2^64 ticks is not modelled; the spin mutex makes each operation one step, and a waker does not call back into the wheel.
- Interval.BurstDeadline: this and the other schedules are stated on unbounded ticks; 64-bit arithmetic is only in SourceNextIff.
- TimerFutures.Sleep.Poll: the entry is a heap object of its own instead of a pinned field, and the driver's `on_registration` call is left out.
- WebSocket.FragmentationInvariance: UTF-8 validity is any predicate; without `permessage-deflate`, so RSV1 is a violation.
- WebSocketStream.WebSocketStream.NextFrame: keepalive is off, so there is no timeout and no keepalive Ping.
- WebSocketStream.WebSocketStream.Send: masking keys are arbitrary; transport errors on reading and writing are not modelled.
- Connection.HttpConnection.ReadRaw: the caller's output slice is a returned byte sequence of at most its length; transport errors are not modelled.
- Connection.HttpConnection.ReadHead: the `Arc` that keeps a parsed head alive is a value.
- Body.BodyReader.ReadToVec: for a body that is both too long and broken, which of the two errors is reported may depend on the reads.
- Server.ServeConnection: a handler answers as a function of what it was given so far, and asks for the body at most once per request; which error a failed body read gave is not passed to it.
- Client.KeepAliveRoundTrip: each side gets all bytes of a message before it goes on; that how they are cut makes no difference is what the contracts of the two sides say.
- Client.Send: redirects, retries, pooling and TLS are left out.
- The WebSocket opening handshake (SHA-1, base64, header checks), TLS, HTTP/2 and DEFLATE: easy, or done by other libraries.
- The driver thread, clocks, I/O adapters, macros, routers and examples: no protocol of their own.
