/** The hand-off of log tasks from producers to one consumer thread, under one start/stop
    controller: every interleaving of the atomic steps of log_wrapper.cpp. */
module LogQueue {
  import opened Wrappers

  type Task = int
  type ProducerId = int

  // ----- states -----

  datatype Owner = Consumer | Controller | Producer(p: ProducerId)

  /** Where the consumer thread stands in its loop; Dead when there is none. */
  datatype ConsumerPc =
    | Dead
    | AtLoop       // reads the running flag
    | WantLock
    | AtTest       // holds the mutex, evaluates the wait condition
    | FallAsleep   // holds the mutex, has found the wait condition false
    | Asleep
    | Woken        // wants the mutex back
    | AtPop        // holds the mutex, the wait is over
    | AtUnlock     // holds the mutex
    | AtRun        // runs the task in hand
    | Finished     // has left the loop

  /** Where the controller stands in a start or stop; Idle between calls. */
  datatype ControllerPc =
    | Idle
    | StartSet | StartSpawn | StartUndo
    | StopStore | StopNotify | StopJoin | StopLock | StopDrop | StopUnlock

  /** A producer that holds the mutex. */
  datatype ProducerPc = Emplacing(task: Task) | Notifying | Unlocking

  datatype State = State(
    running: bool, joinable: bool, mutex: Option<Owner>,
    consumer: ConsumerPc, controller: ControllerPc, producers: map<ProducerId, ProducerPc>,
    queue: seq<Task>, hand: seq<Task>,
    // history: what was enqueued, run and discarded, in order
    enqueued: seq<Task>, executed: seq<Task>, dropped: seq<Task>)

  const INITIAL :=
    State(false, false, None, Dead, Idle, map[], [], [], [], [], [])

  // ----- steps -----

  datatype Event =
    | CLoop | CLock | CTest | CSleep | CSpurious | CRelock | CPop | CUnlock | CRun
    | CallStart | DoStartSet | DoStartSpawn(ok: bool) | DoStartUndo
    | CallStop | DoStopStore | DoStopNotify | DoStopJoin | DoStopLock | DoStopDrop | DoStopUnlock
    | PLock(p: ProducerId, task: Task) | PEmplace(p: ProducerId) | PNotify(p: ProducerId) | PUnlock(p: ProducerId)

  predicate Enabled(s: State, e: Event) {
    match e
    case CLoop => s.consumer.AtLoop?
    case CLock => s.consumer.WantLock? && s.mutex.None?
    case CTest => s.consumer.AtTest?
    case CSleep => s.consumer.FallAsleep?
    case CSpurious => s.consumer.Asleep?
    case CRelock => s.consumer.Woken? && s.mutex.None?
    case CPop => s.consumer.AtPop?
    case CUnlock => s.consumer.AtUnlock?
    case CRun => s.consumer.AtRun?
    case CallStart => s.controller.Idle?
    case DoStartSet => s.controller.StartSet?
    case DoStartSpawn(_) => s.controller.StartSpawn?
    case DoStartUndo => s.controller.StartUndo?
    case CallStop => s.controller.Idle?
    case DoStopStore => s.controller.StopStore?
    case DoStopNotify => s.controller.StopNotify?
    case DoStopJoin => s.controller.StopJoin? && (s.joinable ==> s.consumer.Finished?)
    case DoStopLock => s.controller.StopLock? && s.mutex.None?
    case DoStopDrop => s.controller.StopDrop?
    case DoStopUnlock => s.controller.StopUnlock?
    case PLock(p, _) => p !in s.producers && s.mutex.None?
    case PEmplace(p) => p in s.producers && s.producers[p].Emplacing?
    case PNotify(p) => p in s.producers && s.producers[p].Notifying?
    case PUnlock(p) => p in s.producers && s.producers[p].Unlocking?
  }

  /** notify_one: it reaches the consumer only if it is asleep. */
  function Notified(c: ConsumerPc): ConsumerPc {
    if c.Asleep? then Woken else c
  }

  function Next(s: State, e: Event): State
    requires Enabled(s, e)
  {
    match e
    case CLoop => s.(consumer := if s.running then WantLock else Finished)
    case CLock => s.(consumer := AtTest, mutex := Some(Consumer))
    case CTest => s.(consumer := if s.queue != [] || !s.running then AtPop else FallAsleep)
    case CSleep => s.(consumer := Asleep, mutex := None)
    case CSpurious => s.(consumer := Woken)
    case CRelock => s.(consumer := AtTest, mutex := Some(Consumer))
    case CPop =>
      if s.queue == [] then s.(consumer := AtUnlock, hand := [])
      else s.(consumer := AtUnlock, hand := [s.queue[0]], queue := s.queue[1..])
    case CUnlock => s.(consumer := AtRun, mutex := None)
    case CRun => s.(consumer := AtLoop, executed := s.executed + s.hand, hand := [])
    case CallStart => if s.running then s else s.(controller := StartSet)
    case DoStartSet => s.(controller := StartSpawn, running := true)
    case DoStartSpawn(ok) =>
      if ok then s.(controller := Idle, consumer := AtLoop, joinable := true)
      else s.(controller := StartUndo)
    case DoStartUndo => s.(controller := Idle, running := false)
    case CallStop => if s.running then s.(controller := StopStore) else s
    case DoStopStore => s.(controller := StopNotify, running := false)
    case DoStopNotify => s.(controller := StopJoin, consumer := Notified(s.consumer))
    case DoStopJoin =>
      if s.joinable then s.(controller := StopLock, consumer := Dead, joinable := false)
      else s.(controller := StopLock)
    case DoStopLock => s.(controller := StopDrop, mutex := Some(Controller))
    case DoStopDrop => s.(controller := StopUnlock, dropped := s.dropped + s.queue, queue := [])
    case DoStopUnlock => s.(controller := Idle, mutex := None)
    case PLock(p, task) => s.(producers := s.producers[p := Emplacing(task)], mutex := Some(Producer(p)))
    case PEmplace(p) =>
      var task := s.producers[p].task;
      s.(producers := s.producers[p := Notifying], queue := s.queue + [task], enqueued := s.enqueued + [task])
    case PNotify(p) => s.(producers := s.producers[p := Unlocking], consumer := Notified(s.consumer))
    case PUnlock(p) => s.(producers := s.producers - {p}, mutex := None)
  }

  // ----- runs -----

  predicate IsRun(s: State, es: seq<Event>)
    decreases |es|
  {
    es == [] || (Enabled(s, es[0]) && IsRun(Next(s, es[0]), es[1..]))
  }

  function End(s: State, es: seq<Event>): State
    requires IsRun(s, es)
    decreases |es|
  {
    if es == [] then s else End(Next(s, es[0]), es[1..])
  }

  ghost predicate Reachable(s: State) {
    exists es :: IsRun(INITIAL, es) && End(INITIAL, es) == s
  }

  // ----- who holds the mutex -----

  predicate ConsumerHolds(c: ConsumerPc) {
    c.AtTest? || c.FallAsleep? || c.AtPop? || c.AtUnlock?
  }

  predicate ControllerHolds(c: ControllerPc) {
    c.StopDrop? || c.StopUnlock?
  }

  /** Exactly the thread that stands in a critical section owns the mutex. */
  ghost predicate Exclusive(s: State) {
    && (s.mutex == Some(Consumer) <==> ConsumerHolds(s.consumer))
    && (s.mutex == Some(Controller) <==> ControllerHolds(s.controller))
    && (forall p :: s.mutex == Some(Producer(p)) <==> p in s.producers)
  }

  // ----- the life of the consumer thread -----

  /** There is a consumer thread exactly while the thread handle is joinable, and the flag, the
      handle and the place of the controller fit together. */
  predicate Alive(s: State) {
    && (s.consumer.Dead? <==> !s.joinable)
    && (s.consumer.Finished? ==> !s.running)
    && (s.hand != [] ==> s.consumer.AtUnlock? || s.consumer.AtRun?)
    && match s.controller
       case Idle => s.running == s.joinable
       case StartSet => !s.running && !s.joinable
       case StartSpawn => s.running && !s.joinable
       case StartUndo => s.running && !s.joinable
       case StopStore => s.running && s.joinable
       case StopNotify => !s.running && s.joinable
       case StopJoin => !s.running && s.joinable
       case StopLock => !s.running && !s.joinable
       case StopDrop => !s.running && !s.joinable
       case StopUnlock => !s.running && !s.joinable
  }

  // ----- where every task is -----

  /** What happened to the tasks up to one discard: some ran, the later ones were discarded. */
  datatype Epoch = Epoch(ran: seq<Task>, lost: seq<Task>)

  function AllRan(epochs: seq<Epoch>): seq<Task> {
    if epochs == [] then [] else AllRan(epochs[..|epochs| - 1]) + epochs[|epochs| - 1].ran
  }

  function AllLost(epochs: seq<Epoch>): seq<Task> {
    if epochs == [] then [] else AllLost(epochs[..|epochs| - 1]) + epochs[|epochs| - 1].lost
  }

  function AllOf(epochs: seq<Epoch>): seq<Task> {
    if epochs == [] then []
    else AllOf(epochs[..|epochs| - 1]) + (epochs[|epochs| - 1].ran + epochs[|epochs| - 1].lost)
  }

  /** The enqueued tasks, in order: epoch by epoch those that ran and those that were discarded,
      then, since the last discard, those that ran, the one in hand, and those still queued. */
  ghost predicate Ledger(s: State, epochs: seq<Epoch>, ran: seq<Task>) {
    && s.enqueued == AllOf(epochs) + (ran + (s.hand + s.queue))
    && s.executed == AllRan(epochs) + ran
    && s.dropped == AllLost(epochs)
  }

  // The four steps that move tasks.

  predicate Moves(e: Event) {
    e.CPop? || e.CRun? || e.PEmplace? || e.DoStopDrop?
  }

  lemma OthersMoveNothing(s: State, e: Event)
    requires Enabled(s, e) && !Moves(e)
    ensures var t := Next(s, e);
      t.queue == s.queue && t.hand == s.hand && t.enqueued == s.enqueued
      && t.executed == s.executed && t.dropped == s.dropped
  {
  }

  lemma PopMoves(s: State)
    requires Alive(s) && Enabled(s, CPop)
    ensures Next(s, CPop).hand + Next(s, CPop).queue == s.hand + s.queue
  {
    assert s.hand == [];
    if s.queue != [] {
      assert [s.queue[0]] + s.queue[1..] == s.queue;
    }
  }

  lemma PopLedger(s: State, epochs: seq<Epoch>, ran: seq<Task>)
    requires Alive(s) && Enabled(s, CPop) && Ledger(s, epochs, ran)
    ensures Ledger(Next(s, CPop), epochs, ran)
  {
    PopMoves(s);
  }

  lemma RunLedger(s: State, epochs: seq<Epoch>, ran: seq<Task>)
    requires Enabled(s, CRun) && Ledger(s, epochs, ran)
    ensures Ledger(Next(s, CRun), epochs, ran + s.hand)
  {
    assert ran + s.hand + ([] + s.queue) == ran + (s.hand + s.queue);
    assert AllRan(epochs) + ran + s.hand == AllRan(epochs) + (ran + s.hand);
  }

  lemma EmplaceLedger(s: State, p: ProducerId, epochs: seq<Epoch>, ran: seq<Task>)
    requires Enabled(s, PEmplace(p)) && Ledger(s, epochs, ran)
    ensures Ledger(Next(s, PEmplace(p)), epochs, ran)
  {
    var task := [s.producers[p].task];
    assert AllOf(epochs) + (ran + (s.hand + s.queue)) + task == AllOf(epochs) + (ran + (s.hand + (s.queue + task)));
  }

  lemma DropLedger(s: State, epochs: seq<Epoch>, ran: seq<Task>)
    requires Alive(s) && Enabled(s, DoStopDrop) && Ledger(s, epochs, ran)
    ensures Ledger(Next(s, DoStopDrop), epochs + [Epoch(ran, s.queue)], [])
  {
    assert s.hand == [];
    var epochs' := epochs + [Epoch(ran, s.queue)];
    assert epochs'[..|epochs|] == epochs;
    assert s.hand + s.queue == s.queue;
    var none: seq<Task> := [];
    assert none + (none + none) == none;
    assert AllOf(epochs') + none == AllOf(epochs') && AllRan(epochs') + none == AllRan(epochs');
  }

  lemma StepLedger(s: State, e: Event, epochs: seq<Epoch>, ran: seq<Task>)
    returns (epochs': seq<Epoch>, ran': seq<Task>)
    requires Enabled(s, e) && Alive(s) && Ledger(s, epochs, ran)
    ensures Ledger(Next(s, e), epochs', ran')
    ensures if e.DoStopDrop? then epochs' == epochs + [Epoch(ran, s.queue)] && ran' == []
            else epochs' == epochs && ran' == if e.CRun? then ran + s.hand else ran
  {
    epochs', ran' := epochs, ran;
    if !Moves(e) {
      OthersMoveNothing(s, e);
    } else if e.CPop? {
      PopLedger(s, epochs, ran);
    } else if e.CRun? {
      RunLedger(s, epochs, ran);
      ran' := ran + s.hand;
    } else if e.PEmplace? {
      EmplaceLedger(s, e.p, epochs, ran);
    } else {
      DropLedger(s, epochs, ran);
      epochs', ran' := epochs + [Epoch(ran, s.queue)], [];
    }
  }

  lemma StepExclusive(s: State, e: Event)
    requires Enabled(s, e) && Exclusive(s) && Alive(s)
    ensures Exclusive(Next(s, e))
  {
  }

  lemma StepAlive(s: State, e: Event)
    requires Enabled(s, e) && Alive(s)
    ensures Alive(Next(s, e))
  {
  }

  ghost predicate Inv(s: State) {
    Exclusive(s) && Alive(s) && exists epochs, ran :: Ledger(s, epochs, ran)
  }

  lemma StepInv(s: State, e: Event)
    requires Enabled(s, e) && Inv(s)
    ensures Inv(Next(s, e))
  {
    StepExclusive(s, e);
    StepAlive(s, e);
    var epochs, ran :| Ledger(s, epochs, ran);
    var epochs', ran' := StepLedger(s, e, epochs, ran);
  }

  lemma {:induction false} RunInv(s: State, es: seq<Event>)
    requires IsRun(s, es) && Inv(s)
    ensures Inv(End(s, es))
    decreases |es|
  {
    if es != [] {
      StepInv(s, es[0]);
      RunInv(Next(s, es[0]), es[1..]);
    }
  }

  // ----- main results -----

  /** In every reachable state: one owner of the mutex; a live consumer only where the controller
      allows one; and every enqueued task in exactly one place, in the order of enqueueing. */
  lemma Safety(s: State)
    requires Reachable(s)
    ensures Inv(s)
  {
    var es :| IsRun(INITIAL, es) && End(INITIAL, es) == s;
    assert Ledger(INITIAL, [], []);
    RunInv(INITIAL, es);
  }

  lemma {:induction false} EpochsConserve(epochs: seq<Epoch>)
    ensures multiset(AllOf(epochs)) == multiset(AllRan(epochs)) + multiset(AllLost(epochs))
  {
    if epochs != [] {
      EpochsConserve(epochs[..|epochs| - 1]);
    }
  }

  /** Conservation: each enqueued task was run, is in hand, is queued, or was discarded, as often
      as it was enqueued. */
  lemma EveryTaskInOnePlace(s: State)
    requires Reachable(s)
    ensures multiset(s.enqueued)
         == multiset(s.executed) + multiset(s.hand) + multiset(s.queue) + multiset(s.dropped)
  {
    Safety(s);
    var epochs, ran :| Ledger(s, epochs, ran);
    EpochsConserve(epochs);
  }

  /** Only the owner of the mutex changes the queue. */
  lemma QueueIsGuarded(s: State, e: Event)
    requires Reachable(s) && Enabled(s, e) && Next(s, e).queue != s.queue
    ensures match e
      case CPop => s.mutex == Some(Consumer)
      case DoStopDrop => s.mutex == Some(Controller)
      case PEmplace(p) => s.mutex == Some(Producer(p))
      case _ => false
  {
    Safety(s);
  }

  /** What has run, then the task in hand, then the queue. */
  function Line(s: State): seq<Task> {
    s.executed + (s.hand + s.queue)
  }

  /** From `s` to `t` exactly the tasks `more` were enqueued; they stand behind all the others. */
  predicate GrowsBy(s: State, t: State, more: seq<Task>) {
    t.dropped == s.dropped && t.enqueued == s.enqueued + more && Line(t) == Line(s) + more
  }

  lemma GrowsByNothing(s: State, t: State)
    requires t.dropped == s.dropped && t.enqueued == s.enqueued && Line(t) == Line(s)
    ensures GrowsBy(s, t, [])
  {
  }

  lemma GrowsTwice(s: State, t: State, u: State, a: seq<Task>, b: seq<Task>)
    requires GrowsBy(s, t, a) && GrowsBy(t, u, b)
    ensures GrowsBy(s, u, a + b)
  {
  }

  lemma RunKeepsLine(s: State)
    requires Enabled(s, CRun)
    ensures Line(Next(s, CRun)) == Line(s)
  {
    assert s.executed + s.hand + ([] + s.queue) == s.executed + (s.hand + s.queue);
  }

  lemma EmplaceGrowsLine(s: State, p: ProducerId)
    requires Enabled(s, PEmplace(p))
    ensures GrowsBy(s, Next(s, PEmplace(p)), [s.producers[p].task])
  {
    var task := [s.producers[p].task];
    assert s.executed + (s.hand + (s.queue + task)) == Line(s) + task;
  }

  lemma GrowsStep(s: State, e: Event) returns (more: seq<Task>)
    requires Alive(s) && Enabled(s, e) && !e.DoStopDrop?
    ensures GrowsBy(s, Next(s, e), more)
  {
    if e.PEmplace? {
      more := [s.producers[e.p].task];
      EmplaceGrowsLine(s, e.p);
    } else {
      more := [];
      if !Moves(e) {
        OthersMoveNothing(s, e);
      } else if e.CPop? {
        PopMoves(s);
      } else {
        RunKeepsLine(s);
      }
      GrowsByNothing(s, Next(s, e));
    }
  }

  /** Between discards nothing is lost or overtaken: the line grows only at its end, by exactly
      what is enqueued. */
  lemma {:induction false} FifoBetweenDiscards(s: State, es: seq<Event>)
    requires Alive(s) && IsRun(s, es) && forall i :: 0 <= i < |es| ==> !es[i].DoStopDrop?
    ensures exists more :: GrowsBy(s, End(s, es), more)
    decreases |es|
  {
    if es == [] {
      GrowsByNothing(s, s);
      assert GrowsBy(s, End(s, es), []);
    } else {
      var u := Next(s, es[0]);
      StepAlive(s, es[0]);
      FifoBetweenDiscards(u, es[1..]);
      var more :| GrowsBy(u, End(u, es[1..]), more);
      var first := GrowsStep(s, es[0]);
      GrowsTwice(s, u, End(u, es[1..]), first, more);
      assert GrowsBy(s, End(s, es), first + more);
    }
  }

  /** Where the producer that holds the mutex stands. */
  function HolderPc(s: State): Option<ProducerPc> {
    match s.mutex
    case Some(Producer(p)) => if p in s.producers then Some(s.producers[p]) else None
    case _ => None
  }

  // ----- what is passed in is what is enqueued -----

  /** The tasks handed in by the calls of a run, in the order in which the calls got the mutex. */
  function Passed(es: seq<Event>): seq<Task> {
    if es == [] then [] else (if es[0].PLock? then [es[0].task] else []) + Passed(es[1..])
  }

  /** The task of a call that has the mutex but has not enqueued it yet. */
  function Pending(s: State): seq<Task> {
    match HolderPc(s)
    case Some(Emplacing(task)) => [task]
    case _ => []
  }

  lemma PassedStep(s: State, e: Event)
    requires Exclusive(s) && Alive(s) && Enabled(s, e)
    ensures Next(s, e).enqueued + Pending(Next(s, e))
         == s.enqueued + Pending(s) + if e.PLock? then [e.task] else []
  {
    var t := Next(s, e);
    if e.PEmplace? {
      assert Pending(s) == [s.producers[e.p].task] && Pending(t) == [];
    } else if e.PLock? {
      assert Pending(s) == [] && Pending(t) == [e.task];
    } else {
      assert t.enqueued == s.enqueued && Pending(t) == Pending(s);
    }
  }

  lemma {:induction false} PassedRun(s: State, es: seq<Event>)
    requires Inv(s) && IsRun(s, es)
    ensures End(s, es).enqueued + Pending(End(s, es)) == s.enqueued + Pending(s) + Passed(es)
    decreases |es|
  {
    if es != [] {
      PassedStep(s, es[0]);
      StepInv(s, es[0]);
      PassedRun(Next(s, es[0]), es[1..]);
      Associative(s.enqueued + Pending(s), if es[0].PLock? then [es[0].task] else [], Passed(es[1..]));
    }
  }

  lemma InitialInv()
    ensures Inv(INITIAL)
  {
    assert Ledger(INITIAL, [], []);
  }

  /** In every run the tasks handed in are, in order, those enqueued and then the one of a call that
      is just about to enqueue it. */
  lemma PassedIsEnqueued(es: seq<Event>)
    requires IsRun(INITIAL, es)
    ensures Passed(es) == End(INITIAL, es).enqueued + Pending(End(INITIAL, es))
  {
    InitialInv();
    PassedRun(INITIAL, es);
    assert INITIAL.enqueued + Pending(INITIAL) + Passed(es) == Passed(es);
  }

  /** So in a run without a discard the tasks handed in are, in order, those that have run, the one
      in hand, those in the queue and the one just about to be enqueued. */
  lemma PassedIsRunOrWaits(es: seq<Event>)
    requires IsRun(INITIAL, es) && forall i :: 0 <= i < |es| ==> !es[i].DoStopDrop?
    ensures var t := End(INITIAL, es);
      Passed(es) == t.executed + (t.hand + t.queue) + Pending(t)
  {
    PassedIsEnqueued(es);
    FifoBetweenDiscards(INITIAL, es);
    var more :| GrowsBy(INITIAL, End(INITIAL, es), more);
    assert Line(INITIAL) == [] && [] + more == more;
  }

  // ----- no task is left waiting -----

  /** The consumer is about to sleep only over an empty queue; while it sleeps over tasks, a producer
      is just about to notify it; and it goes on with an empty queue only when stopped. */
  predicate WaitsRightly(s: State) {
    && (s.consumer.FallAsleep? ==> s.queue == [])
    && (s.consumer.Asleep? && s.queue != [] ==> HolderPc(s) == Some(Notifying))
    && (s.consumer.AtPop? ==> s.queue != [] || !s.running)
  }

  lemma StepWaits(s: State, e: Event)
    requires Exclusive(s) && Alive(s) && WaitsRightly(s) && Enabled(s, e)
    ensures WaitsRightly(Next(s, e))
  {
  }

  lemma {:induction false} RunWaits(s: State, es: seq<Event>)
    requires Inv(s) && WaitsRightly(s) && IsRun(s, es)
    ensures WaitsRightly(End(s, es))
    decreases |es|
  {
    if es != [] {
      StepWaits(s, es[0]);
      StepInv(s, es[0]);
      RunWaits(Next(s, es[0]), es[1..]);
    }
  }

  /** The wakeup for a task is never lost, in any reachable state. */
  lemma NoTaskWakeupLost(s: State)
    requires Reachable(s)
    ensures WaitsRightly(s)
  {
    var es :| IsRun(INITIAL, es) && End(INITIAL, es) == s;
    InitialInv();
    RunWaits(INITIAL, es);
  }

  /** A stop discards only after the consumer is gone, and no call but a stop discards. */
  lemma DiscardsOnlyWhenStopped(s: State, e: Event)
    requires Reachable(s) && Enabled(s, e) && Next(s, e).dropped != s.dropped
    ensures e.DoStopDrop? && s.consumer.Dead? && !s.running && s.hand == []
  {
    Safety(s);
  }

  /** While the controller is between calls with the flag down, in particular from the return of a
      stop to the next start, nothing runs and nothing is discarded. */
  lemma {:induction false} NothingRunsWhileStopped(s: State, es: seq<Event>)
    requires Alive(s) && s.controller.Idle? && !s.running
    requires IsRun(s, es) && forall i :: 0 <= i < |es| ==> !es[i].CallStart?
    ensures End(s, es).executed == s.executed && End(s, es).dropped == s.dropped
    ensures End(s, es).consumer.Dead? && End(s, es).hand == []
    decreases |es|
  {
    if es != [] {
      StepAlive(s, es[0]);
      NothingRunsWhileStopped(Next(s, es[0]), es[1..]);
    }
  }

  // ----- a stop that never returns -----

  /** The controller waits for a consumer that is asleep. */
  predicate Stuck(s: State) {
    s.controller.StopJoin? && s.consumer.Asleep?
  }

  /** No thread of the program itself can move a stuck state on: only a producer's step or a
      spurious wakeup is enabled. */
  lemma StuckStaysStuck(s: State, e: Event)
    requires Alive(s) && Stuck(s) && Enabled(s, e)
    ensures Stuck(Next(s, e)) || e.CSpurious? || e.PNotify?
    ensures e.CSpurious? || e.PLock? || e.PEmplace? || e.PNotify? || e.PUnlock?
  {
  }

  predicate GetsStuckBy(s: State, es: seq<Event>) {
    IsRun(s, es) && Stuck(End(s, es))
  }

  predicate IsCall(e: Event) {
    e.CallStart? || e.CallStop?
  }

  /** Some run of the threads, in which nobody calls start or stop again, ends in a stuck state. */
  ghost predicate CanGetStuck(s: State) {
    exists es :: GetsStuckBy(s, es) && forall e :: e in es ==> !IsCall(e)
  }

  /** Whether the stop under way can still miss its wakeup: always before the flag is stored; after
      that only if the consumer has already found the wait condition false and was not woken since. */
  predicate AtRisk(s: State) {
    match s.controller
    case StopStore => true
    case StopNotify => s.consumer.FallAsleep?
    case StopJoin => s.consumer.FallAsleep? || s.consumer.Asleep?
    case _ => false
  }

  lemma {:induction false} SafeStaysSafe(s: State, es: seq<Event>)
    requires Alive(s) && !AtRisk(s) && IsRun(s, es) && forall e :: e in es ==> !IsCall(e)
    ensures !Stuck(End(s, es))
    decreases |es|
  {
    if es != [] {
      StepAlive(s, es[0]);
      assert !IsCall(es[0]);
      SafeStaysSafe(Next(s, es[0]), es[1..]);
    }
  }

  /** A step that is neither a call nor a spurious wakeup. */
  predicate Regular(e: Event) {
    !IsCall(e) && !e.CSpurious?
  }

  lemma StuckAfter(s: State, e: Event, rest: seq<Event>) returns (es: seq<Event>)
    requires Enabled(s, e) && Regular(e)
    requires GetsStuckBy(Next(s, e), rest) && forall x :: x in rest ==> Regular(x)
    ensures GetsStuckBy(s, es) && forall x :: x in es ==> Regular(x)
  {
    es := [e] + rest;
    assert es[1..] == rest;
  }

  /** From the place where the consumer is about to fall asleep, the rest of the stop up to its
      wait goes by, then the consumer falls asleep. */
  lemma {:induction false} MissWakeup(s: State) returns (es: seq<Event>)
    requires AtRisk(s) && s.consumer.FallAsleep?
    ensures GetsStuckBy(s, es) && forall e :: e in es ==> Regular(e)
    decreases if s.controller.StopStore? then 2 else if s.controller.StopNotify? then 1 else 0
  {
    if s.controller.StopStore? {
      es := MissWakeup(Next(s, DoStopStore));
      es := StuckAfter(s, DoStopStore, es);
    } else if s.controller.StopNotify? {
      es := MissWakeup(Next(s, DoStopNotify));
      es := StuckAfter(s, DoStopNotify, es);
    } else {
      es := StuckAfter(s, CSleep, []);
    }
  }

  // How far the consumer is from falling asleep: first it must be awake, then the mutex free of
  // producers, then the queue empty.

  function WakeRank(s: State): nat {
    if !s.consumer.Asleep? then 0
    else match HolderPc(s)
      case Some(Unlocking) => 3
      case None => 2
      case _ => 1
  }

  function ProducerRank(s: State): nat {
    match HolderPc(s)
    case None => 0
    case Some(Unlocking) => 1
    case Some(Notifying) => 2
    case Some(Emplacing(_)) => 3
  }

  function ConsumerRank(s: State): nat {
    match s.consumer
    case AtPop => if s.queue == [] then 8 else 1
    case AtUnlock => 7
    case AtRun => 6
    case AtLoop => 5
    case WantLock => 4
    case Woken => 3
    case AtTest => 2
    case _ => 0
  }

  /** `t` is nearer to the consumer falling asleep than `s`. */
  predicate Nearer(t: State, s: State) {
    if WakeRank(t) != WakeRank(s) then WakeRank(t) < WakeRank(s)
    else if ProducerRank(t) != ProducerRank(s) then ProducerRank(t) < ProducerRank(s)
    else if |t.queue| != |s.queue| then |t.queue| < |s.queue|
    else ConsumerRank(t) < ConsumerRank(s)
  }

  function DozeStep(s: State): Event {
    match s.mutex
    case Some(Producer(p)) =>
      if p !in s.producers || s.producers[p].Unlocking? then PUnlock(p)
      else if s.producers[p].Notifying? then PNotify(p)
      else PEmplace(p)
    case _ =>
      match s.consumer
      case AtLoop => CLoop
      case WantLock => CLock
      case AtTest => CTest
      case Asleep => PLock(0, 0)
      case Woken => CRelock
      case AtPop => CPop
      case AtUnlock => CUnlock
      case _ => CRun
  }

  lemma DozeStepNearer(s: State)
    requires Exclusive(s) && Alive(s) && s.running && s.joinable && !s.consumer.FallAsleep?
    ensures var e := DozeStep(s);
      && Enabled(s, e) && Regular(e) && Nearer(Next(s, e), s)
      && Next(s, e).controller == s.controller && Next(s, e).running && Next(s, e).joinable
  {
  }

  /** As long as the flag is up, the consumer can come to the place where it is about to sleep. */
  lemma {:induction false} Doze(s: State) returns (es: seq<Event>)
    requires Exclusive(s) && Alive(s) && s.controller.StopStore?
    ensures GetsStuckBy(s, es) && forall e :: e in es ==> Regular(e)
    decreases WakeRank(s), ProducerRank(s), |s.queue|, ConsumerRank(s)
  {
    if s.consumer.FallAsleep? {
      es := MissWakeup(s);
    } else {
      var e := DozeStep(s);
      DozeStepNearer(s);
      StepAlive(s, e);
      StepExclusive(s, e);
      es := Doze(Next(s, e));
      es := StuckAfter(s, e, es);
    }
  }

  /** A stop at risk can get stuck without any spurious wakeup. */
  lemma WakeupCanBeMissed(s: State) returns (es: seq<Event>)
    requires Exclusive(s) && Alive(s) && AtRisk(s)
    ensures GetsStuckBy(s, es) && forall e :: e in es ==> Regular(e)
  {
    if s.controller.StopStore? {
      es := Doze(s);
    } else if s.consumer.FallAsleep? {
      es := MissWakeup(s);
    } else {
      es := [];
    }
  }

  /** How far the danger lasts: in every reachable state a stop under way can get stuck exactly if
      it is at risk. */
  lemma StuckExactlyAtRisk(s: State)
    requires Reachable(s)
    ensures CanGetStuck(s) <==> AtRisk(s)
  {
    Safety(s);
    if CanGetStuck(s) && !AtRisk(s) {
      var es :| GetsStuckBy(s, es) && forall e :: e in es ==> !IsCall(e);
      SafeStaysSafe(s, es);
    }
    if AtRisk(s) {
      var es := WakeupCanBeMissed(s);
      assert forall e :: e in es ==> Regular(e);
      assert forall e :: e in es ==> !IsCall(e);
    }
  }

  lemma {:induction false} Concat(s: State, a: seq<Event>, b: seq<Event>)
    requires IsRun(s, a) && IsRun(End(s, a), b)
    ensures IsRun(s, a + b) && End(s, a + b) == End(End(s, a), b)
    decreases |a|
  {
    if a == [] {
      assert a + b == b;
    } else {
      assert (a + b)[1..] == a[1..] + b;
      Concat(Next(s, a[0]), a[1..], b);
    }
  }

  lemma OneStep(s: State, e: Event)
    requires Enabled(s, e)
    ensures IsRun(s, [e]) && End(s, [e]) == Next(s, e)
  {
    var es, t := [e], Next(s, e);
    assert es[1..] == [] && es[0] == e;
    assert IsRun(t, es[1..]) && End(t, es[1..]) == t;
    assert IsRun(s, es);
  }

  lemma ReachNext(s: State, e: Event)
    requires Reachable(s) && Enabled(s, e)
    ensures Reachable(Next(s, e))
  {
    var es :| IsRun(INITIAL, es) && End(INITIAL, es) == s;
    OneStep(s, e);
    Concat(INITIAL, es, [e]);
  }

  /** Stop stores the flag and notifies without the mutex, so its wakeup can be lost: a call of stop
      can get stuck exactly if it finds the flag up. */
  lemma StopGetsStuckExactly(s: State)
    requires Reachable(s) && s.controller.Idle?
    ensures CanGetStuck(Next(s, CallStop)) <==> s.running
  {
    ReachNext(s, CallStop);
    StuckExactlyAtRisk(Next(s, CallStop));
  }

  // ----- what the threads can do without another call -----

  /** A step that needs no call of any kind and no spurious wakeup. */
  predicate Unprompted(e: Event) {
    Regular(e) && !e.PLock?
  }

  predicate DrainsBy(s: State, es: seq<Event>) {
    IsRun(s, es) && (forall e :: e in es ==> Unprompted(e)) && End(s, es).executed == Line(s) + Pending(s)
  }

  lemma DrainStep(s: State, e: Event)
    requires Exclusive(s) && Alive(s) && Enabled(s, e) && Unprompted(e) && !e.DoStopDrop?
    ensures Line(Next(s, e)) + Pending(Next(s, e)) == Line(s) + Pending(s)
  {
    PassedStep(s, e);
    if e.PEmplace? {
      EmplaceGrowsLine(s, e.p);
      assert Pending(s) == [s.producers[e.p].task] && Pending(Next(s, e)) == [];
    } else {
      assert Pending(Next(s, e)) == Pending(s);
      if !Moves(e) {
        OthersMoveNothing(s, e);
      } else if e.CPop? {
        PopMoves(s);
      } else {
        RunKeepsLine(s);
      }
    }
  }

  lemma {:induction false} Drain(s: State) returns (es: seq<Event>)
    requires Exclusive(s) && Alive(s) && WaitsRightly(s) && s.running && s.joinable
    ensures DrainsBy(s, es)
    decreases WakeRank(s), ProducerRank(s), |s.queue|, ConsumerRank(s)
  {
    if s.hand == [] && s.queue == [] && Pending(s) == [] {
      es := [];
      assert Line(s) + Pending(s) == s.executed;
    } else {
      var e := DozeStep(s);
      DozeStepNearer(s);
      DrainUnprompted(s);
      StepAlive(s, e);
      StepExclusive(s, e);
      StepWaits(s, e);
      DrainStep(s, e);
      var rest := Drain(Next(s, e));
      es := [e] + rest;
      assert es[1..] == rest;
    }
  }

  lemma DrainUnprompted(s: State)
    requires Exclusive(s) && Alive(s) && WaitsRightly(s) && s.running && s.joinable
    requires !(s.hand == [] && s.queue == [] && Pending(s) == [])
    ensures Unprompted(DozeStep(s)) && !DozeStep(s).DoStopDrop?
  {
  }

  /** As long as the flag is up and there is a consumer, everything handed in can be run, with no
      call, message or spurious wakeup to help. */
  lemma EveryTaskCanRun(s: State)
    requires Reachable(s) && s.running && s.joinable
    ensures exists es :: DrainsBy(s, es)
  {
    Safety(s);
    NoTaskWakeupLost(s);
    var es := Drain(s);
  }

  predicate InStop(c: ControllerPc) {
    c.StopStore? || c.StopNotify? || c.StopJoin? || c.StopLock? || c.StopDrop? || c.StopUnlock?
  }

  predicate ReturnsBy(s: State, es: seq<Event>) {
    IsRun(s, es) && (forall e :: e in es ==> Unprompted(e)) && End(s, es).controller.Idle?
  }

  /** The stop waits for a consumer that sleeps or is about to, and nobody is about to notify it. */
  predicate Forsaken(s: State) {
    && s.controller.StopJoin?
    && (s.consumer.FallAsleep? || s.consumer.Asleep?)
    && (HolderPc(s).None? || HolderPc(s).value.Unlocking?)
  }

  lemma {:induction false} ForsakenStays(s: State, es: seq<Event>)
    requires Exclusive(s) && Alive(s) && Forsaken(s) && IsRun(s, es) && forall e :: e in es ==> Unprompted(e)
    ensures Forsaken(End(s, es))
    decreases |es|
  {
    if es != [] {
      assert Unprompted(es[0]);
      StepAlive(s, es[0]);
      StepExclusive(s, es[0]);
      ForsakenStays(Next(s, es[0]), es[1..]);
    }
  }

  function StopRank(c: ControllerPc): nat {
    match c
    case StopStore => 6
    case StopNotify => 5
    case StopJoin => 4
    case StopLock => 3
    case StopDrop => 2
    case StopUnlock => 1
    case _ => 0
  }

  /** How far a consumer with the flag down is from its end. */
  function EndRank(c: ConsumerPc): nat {
    match c
    case FallAsleep => 8
    case Asleep => 7
    case Woken => 6
    case WantLock => 6
    case AtTest => 5
    case AtPop => 4
    case AtUnlock => 3
    case AtRun => 2
    case AtLoop => 1
    case _ => 0
  }

  function ReturnStep(s: State): Event {
    match s.controller
    case StopStore => if s.consumer.FallAsleep? then CSleep else DoStopStore
    case StopNotify => if s.consumer.FallAsleep? then CSleep else DoStopNotify
    case StopJoin =>
      if s.consumer.Finished? then DoStopJoin else DozeStep(s)
    case StopLock =>
      if HolderPc(s).Some? then DozeStep(s) else DoStopLock
    case StopDrop => DoStopDrop
    case _ => DoStopUnlock
  }

  lemma FreeUnlessHeld(s: State)
    requires Exclusive(s)
    ensures s.mutex.None? || ConsumerHolds(s.consumer) || ControllerHolds(s.controller) || HolderPc(s).Some?
  {
    if s.mutex.Some? && s.mutex.value.Producer? {
      assert s.mutex == Some(Producer(s.mutex.value.p));
    }
  }

  lemma ReturnStepNearer(s: State)
    requires Exclusive(s) && Alive(s) && InStop(s.controller) && !Forsaken(s)
    ensures var e := ReturnStep(s);
      && Enabled(s, e) && Unprompted(e) && !Forsaken(Next(s, e))
      && (InStop(Next(s, e).controller) || Next(s, e).controller.Idle?)
      && (StopRank(Next(s, e).controller) < StopRank(s.controller) ||
          (Next(s, e).controller == s.controller &&
           (ProducerRank(Next(s, e)) < ProducerRank(s) ||
            (ProducerRank(Next(s, e)) == ProducerRank(s) &&
             EndRank(Next(s, e).consumer) < EndRank(s.consumer)))))
  {
    FreeUnlessHeld(s);
  }

  lemma {:induction false} Return(s: State) returns (es: seq<Event>)
    requires Exclusive(s) && Alive(s) && !Forsaken(s) && (InStop(s.controller) || s.controller.Idle?)
    ensures ReturnsBy(s, es)
    decreases StopRank(s.controller), ProducerRank(s), EndRank(s.consumer)
  {
    if s.controller.Idle? {
      es := [];
    } else {
      var e := ReturnStep(s);
      ReturnStepNearer(s);
      StepAlive(s, e);
      StepExclusive(s, e);
      var rest := Return(Next(s, e));
      es := [e] + rest;
      assert es[1..] == rest;
    }
  }

  /** A stop under way can return by itself, with no call, message or spurious wakeup to help,
      exactly if it does not wait for a sleeper nobody is about to notify. */
  lemma StopCanReturnExactly(s: State)
    requires Reachable(s) && InStop(s.controller)
    ensures (exists es :: ReturnsBy(s, es)) <==> !Forsaken(s)
  {
    Safety(s);
    if Forsaken(s) {
      forall es ensures !ReturnsBy(s, es) {
        if ReturnsBy(s, es) {
          ForsakenStays(s, es);
        }
      }
    } else {
      var es := Return(s);
    }
  }

  /** Started, with the consumer about to fall asleep. */
  const DOZING :=
    State(true, true, Some(Consumer), FallAsleep, Idle, map[], [], [], [], [], [])

  lemma DozingIsReachable()
    ensures Reachable(DOZING)
  {
    assert IsRun(INITIAL, []) && End(INITIAL, []) == INITIAL;
    var s := INITIAL;
    ReachNext(s, CallStart);          s := Next(s, CallStart);
    ReachNext(s, DoStartSet);         s := Next(s, DoStartSet);
    ReachNext(s, DoStartSpawn(true)); s := Next(s, DoStartSpawn(true));
    ReachNext(s, CLoop);              s := Next(s, CLoop);
    ReachNext(s, CLock);              s := Next(s, CLock);
    ReachNext(s, CTest);              s := Next(s, CTest);
    assert s == DOZING;
  }

  /** Such a state is reached: the consumer tests the condition, then the whole of the stop up to
      its notification goes by, then the consumer falls asleep. */
  lemma StuckIsReachable()
    ensures exists s :: Reachable(s) && Stuck(s)
  {
    DozingIsReachable();
    var s := DOZING;
    ReachNext(s, CallStop);           s := Next(s, CallStop);
    ReachNext(s, DoStopStore);        s := Next(s, DoStopStore);
    ReachNext(s, DoStopNotify);       s := Next(s, DoStopNotify);
    ReachNext(s, CSleep);             s := Next(s, CSleep);
    assert Stuck(s);
  }
}
