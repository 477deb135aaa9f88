/** The scheduler and its semaphores as one state with atomic steps (interrupts are off
    inside each operation): MeOS/thread_sched.cpp, MeOS/semaphore.cpp. */
module SchedulerSpec {
  import opened Options
  import opened ListSpec

  type Tid = nat
  type SemId = nat

  const NUMBER_PRIORITIES := 8
  const INT32_MIN := -0x8000_0000
  const INT32_MAX := 0x7FFF_FFFF

  datatype ThreadState = SLEEP | READY | RUNNING | BLOCK

  datatype Tcb = Tcb(state: ThreadState, priority: nat)

  datatype Semaphore = Semaphore(lock: int, waiting: seq<Tid>)

  /** `ready` holds one queue per priority, 0 the highest. */
  datatype Sched = Sched(
    threads: map<Tid, Tcb>,
    ready: seq<seq<Tid>>,
    block: seq<Tid>,
    sleep: seq<Tid>,
    sems: map<SemId, Semaphore>,
    current: Option<Tid>,
    critical: bool)

  /** Where a thread's node can be. */
  datatype Place = ReadyQ(p: nat) | BlockQ | SleepQ | SemQ(i: SemId)

  ghost function Queue(s: Sched, q: Place): seq<Tid> {
    match q
    case ReadyQ(p) => if p < |s.ready| then s.ready[p] else []
    case BlockQ => s.block
    case SleepQ => s.sleep
    case SemQ(i) => if i in s.sems then s.sems[i].waiting else []
  }

  ghost predicate Belongs(tcb: Tcb, q: Place) {
    match q
    case ReadyQ(p) => tcb.priority == p && (tcb.state == READY || tcb.state == RUNNING)
    case BlockQ => tcb.state == BLOCK
    case SleepQ => tcb.state == SLEEP
    case SemQ(_) => tcb.state == BLOCK
  }

  /** Each thread's node is in exactly one queue, once, and that queue matches its state and priority. */
  ghost predicate QueuesOk(s: Sched) {
    && |s.ready| == NUMBER_PRIORITIES
    && (forall t :: t in s.threads ==> s.threads[t].priority < NUMBER_PRIORITIES)
    && AllDistinct(s)
    && AllBelong(s)
    && (forall q, r, t :: t in Queue(s, q) && t in Queue(s, r) ==> q == r)
    && (forall t :: t in s.threads ==> exists q :: t in Queue(s, q))
  }

  ghost predicate AllDistinct(s: Sched) {
    forall q :: Distinct(Queue(s, q))
  }

  ghost predicate AllBelong(s: Sched) {
    forall q, t :: t in Queue(s, q) ==> t in s.threads && Belongs(s.threads[t], q)
  }

  /** Counts are int32 values, and nobody waits while there are units. */
  ghost predicate SemsOk(s: Sched) {
    forall i :: i in s.sems ==>
      INT32_MIN <= s.sems[i].lock <= INT32_MAX && (s.sems[i].waiting != [] ==> s.sems[i].lock <= 0)
  }

  ghost predicate NoneRunning(s: Sched) {
    forall t :: t in s.threads ==> s.threads[t].state != RUNNING
  }

  /** Exactly one thread is RUNNING: the current one, at the head of its ready queue. */
  ghost predicate CurrentOk(s: Sched) {
    match s.current
    case None => NoneRunning(s)
    case Some(c) =>
      && c in s.threads
      && s.threads[c].priority < |s.ready|
      && s.ready[s.threads[c].priority] != []
      && s.ready[s.threads[c].priority][0] == c
      && (forall t :: t in s.threads ==> (s.threads[t].state == RUNNING <==> t == c))
  }

  ghost predicate Inv(s: Sched) {
    QueuesOk(s) && SemsOk(s) && CurrentOk(s)
  }

  // ----- the operations

  datatype Reason = EmptyReady | NotReady | BadCaller

  datatype Outcome = Done(s: Sched) | Panic(why: Reason)

  function SetState(s: Sched, t: Tid, state: ThreadState): Sched
    requires t in s.threads
  {
    s.(threads := s.threads[t := s.threads[t].(state := state)])
  }

  function SetReady(s: Sched, p: nat, q: seq<Tid>): Sched
    requires p < |s.ready|
  {
    s.(ready := s.ready[p := q])
  }

  /** sched_get_first_non_empty, from level `p` on. */
  function FirstNonEmpty(ready: seq<seq<Tid>>, p: nat): (r: Option<nat>)
    requires p <= |ready|
    ensures r.None? ==> forall q :: p <= q < |ready| ==> ready[q] == []
    ensures r.Some? ==>
              p <= r.value < |ready| && ready[r.value] != [] && forall q :: p <= q < r.value ==> ready[q] == []
    decreases |ready| - p
  {
    if p == |ready| then None
    else if |ready[p]| > 0 then Some(p)
    else FirstNonEmpty(ready, p + 1)
  }

  /** What the switch reads is there: the current thread, and a TCB behind every ready node. */
  ghost predicate Switchable(s: Sched) {
    && s.current.Some? && s.current.value in s.threads
    && s.threads[s.current.value].priority < |s.ready|
    && (forall p, t :: 0 <= p < |s.ready| && t in s.ready[p] ==> t in s.threads)
  }

  /** A running thread that is preempted goes to the back of its queue. */
  function Preempt(s: Sched): (s': Sched)
    requires Switchable(s)
    ensures Switchable(s') && s'.threads.Keys == s.threads.Keys
  {
    var c := s.current.value;
    var p := s.threads[c].priority;
    if s.threads[c].state != RUNNING then s
    else
      assert forall t :: t in Rotated(s.ready[p]) ==> t in s.ready[p];
      SetReady(SetState(s, c, READY), p, Rotated(s.ready[p]))
  }

  /** scheduler_thread_switch. */
  function Switch(s: Sched): Outcome
    requires Switchable(s)
  {
    if s.critical then Done(s)
    else
      var s1 := Preempt(s);
      match FirstNonEmpty(s1.ready, 0)
      case None => Panic(EmptyReady)
      case Some(q) =>
        var t := s1.ready[q][0];
        if s1.threads[t].state != READY then Panic(NotReady)
        else Done(SetState(s1, t, RUNNING).(current := Some(t)))
  }

  datatype Op =
    | Start
    | Insert(t: Tid, priority: nat)
    | Tick
    | Yield
    | Block(t: Tid)
    | Notify(t: Tid)
    | Sleep(t: Tid)
    | Wait(i: SemId)
    | Signal(i: SemId)
    | InitSem(i: SemId, value: int)
    | EnterCritical
    | LeaveCritical

  /** What callers promise.  `idle` is the thread that never blocks; no thread gives up the
      processor inside a critical section; `Notify` names a thread of the block queue. */
  ghost predicate Legal(s: Sched, idle: Tid, op: Op) {
    match op
    case Start => s.current.None? && !s.critical
    case Insert(t, p) => t !in s.threads && p < NUMBER_PRIORITIES
    case Tick => true
    case Yield => s.current.Some?
    case Block(t) => t in s.threads && t != idle && (s.current == Some(t) ==> !s.critical)
    case Notify(t) => t in s.threads && (s.threads[t].state == BLOCK ==> t in s.block)
    case Sleep(t) => t in s.threads && t != idle && (s.current == Some(t) ==> !s.critical)
    case Wait(i) => i in s.sems && s.current.Some? && (s.sems[i].lock <= 0 ==> s.current != Some(idle) && !s.critical)
    case Signal(i) => i in s.sems && s.sems[i].lock < INT32_MAX
    case InitSem(i, v) => i !in s.sems && INT32_MIN <= v <= INT32_MAX
    case EnterCritical => true
    case LeaveCritical => true
  }

  /** Queue `t`, just unlinked from its ready queue, in the sleep or the block queue. */
  function Enqueue(s: Sched, t: Tid, asleep: bool): Sched
    requires t in s.threads
  {
    if asleep then SetState(s, t, SLEEP).(sleep := s.sleep + [t])
    else SetState(s, t, BLOCK).(block := s.block + [t])
  }

  /** thread_block and the enqueueing half of thread_sleep.  A ready thread's own node is
      unlinked; for the running one the FRONT of its queue is unlinked and its node queued. */
  function Suspend(s: Sched, t: Tid, asleep: bool): Outcome
    requires Inv(s) && t in s.threads
  {
    var p := s.threads[t].priority;
    InReadyQueue(s, t);
    match s.threads[t].state
    case BLOCK => Panic(BadCaller)
    case SLEEP => Panic(BadCaller)
    case READY => Done(Enqueue(SetReady(s, p, Without(s.ready[p], t)), t, asleep))
    case RUNNING =>
      SuspendSwitchable(s, t, asleep);
      Switch(Enqueue(SetReady(s, p, s.ready[p][1..]), t, asleep))
  }

  /** Back to the ready queue of its priority. */
  function MakeReady(s: Sched, t: Tid): Sched
    requires t in s.threads && s.threads[t].priority < |s.ready|
  {
    var p := s.threads[t].priority;
    SetReady(SetState(s, t, READY), p, s.ready[p] + [t])
  }

  /** The blocking half of semaphore_wait: the current node moves to the waiting list. */
  function Park(s: Sched, i: SemId): Sched
    requires Inv(s) && s.current.Some? && i in s.sems
  {
    var c := s.current.value;
    var p := s.threads[c].priority;
    var sem := s.sems[i];
    SetState(SetReady(s, p, Without(s.ready[p], c)), c, BLOCK).(sems := s.sems[i := sem.(waiting := sem.waiting + [c])])
  }

  function SetSem(s: Sched, i: SemId, sem: Semaphore): Sched {
    s.(sems := s.sems[i := sem])
  }

  function Apply(s: Sched, idle: Tid, op: Op): Outcome
    requires Inv(s) && Legal(s, idle, op)
  {
    InvSwitchable(s);
    match op
    case Start =>
      (match FirstNonEmpty(s.ready, 0)
       case None => Panic(EmptyReady)
       case Some(p) =>
         var t := s.ready[p][0];
         assert t in Queue(s, ReadyQ(p));
         Done(SetState(s, t, RUNNING).(current := Some(t))))
    case Insert(t, p) => Done(s.(threads := s.threads[t := Tcb(READY, p)], ready := s.ready[p := s.ready[p] + [t]]))
    case Tick => if s.current.None? then Done(s) else Switch(s)
    case Yield => Switch(s)
    case Block(t) => Suspend(s, t, false)
    case Sleep(t) => Suspend(s, t, true)
    case Notify(t) =>
      if s.threads[t].state != BLOCK then Done(s)
      else Done(MakeReady(s.(block := Without(s.block, t)), t))
    case Wait(i) =>
      var sem := s.sems[i];
      if sem.lock <= 0 then
        ParkSwitchable(s, i);
        Switch(Park(s, i))
      else Done(SetSem(s, i, sem.(lock := sem.lock - 1)))
    case Signal(i) =>
      var sem := s.sems[i];
      if |sem.waiting| > 0 then
        // the unit is handed straight to the first waiter
        assert sem.waiting[0] in Queue(s, SemQ(i));
        Done(MakeReady(SetSem(s, i, sem.(waiting := sem.waiting[1..])), sem.waiting[0]))
      else Done(SetSem(s, i, sem.(lock := sem.lock + 1)))
    case InitSem(i, v) => Done(SetSem(s, i, Semaphore(v, [])))
    case EnterCritical => Done(s.(critical := true))
    case LeaveCritical => Done(s.(critical := false))
  }

  // ----- what the invariant gives each operation

  lemma InReadyQueue(s: Sched, t: Tid)
    requires QueuesOk(s) && t in s.threads
    ensures s.threads[t].priority < |s.ready|
    ensures s.threads[t].state == READY || s.threads[t].state == RUNNING ==> t in s.ready[s.threads[t].priority]
    ensures CurrentOk(s) && s.threads[t].state == RUNNING ==>
              s.current == Some(t) && s.ready[s.threads[t].priority] != [] && s.ready[s.threads[t].priority][0] == t
  {
    var q :| t in Queue(s, q);
  }

  lemma InvSwitchable(s: Sched)
    requires Inv(s)
    ensures s.current.Some? ==> Switchable(s)
  {
    forall p, t | 0 <= p < |s.ready| && t in s.ready[p] ensures t in s.threads {
      assert t in Queue(s, ReadyQ(p));
    }
  }

  lemma SuspendSwitchable(s: Sched, t: Tid, asleep: bool)
    requires Inv(s) && s.current == Some(t)
    ensures var p := s.threads[t].priority;
            Switchable(Enqueue(SetReady(s, p, s.ready[p][1..]), t, asleep))
  {
    InvSwitchable(s);
  }

  lemma ParkSwitchable(s: Sched, i: SemId)
    requires Inv(s) && s.current.Some? && i in s.sems
    ensures Switchable(Park(s, i))
  {
    InvSwitchable(s);
    var c := s.current.value;
    var p := s.threads[c].priority;
    WithoutMembers(Queue(s, ReadyQ(p)), c);
  }
}
