/** What each scheduler and semaphore operation does to every thread and every queue. */
module SchedulerEffects {
  import opened Options
  import opened ListSpec
  import opened SchedulerSpec
  import opened SchedulerSafety

  /** Thread `n` has the processor: it is current, the only one marked so by the step, and heads
      the best level that has a thread. */
  ghost predicate Runs(r: Sched, n: Tid) {
    && r.current == Some(n) && n in r.threads && r.threads[n].state == RUNNING
    && n !in r.block && n !in r.sleep
    && r.threads[n].priority < |r.ready| && r.ready[r.threads[n].priority] != []
    && r.ready[r.threads[n].priority][0] == n
    && forall p :: 0 <= p < r.threads[n].priority ==> r.ready[p] == []
  }

  /** Thread `t` has the new state, and `n`, if any, is running; nothing else about any thread
      has changed. */
  ghost predicate States(s: Sched, r: Sched, t: Tid, state: ThreadState, n: Option<Tid>) {
    && r.threads.Keys == s.threads.Keys
    && forall u :: u in s.threads ==>
        r.threads[u].priority == s.threads[u].priority &&
        r.threads[u].state == if n == Some(u) then RUNNING else if u == t then state else s.threads[u].state
  }

  /** Every count is as it was. */
  ghost predicate SameLocks(s: Sched, r: Sched) {
    r.sems.Keys == s.sems.Keys && forall i :: i in s.sems ==> r.sems[i].lock == s.sems[i].lock
  }

  ghost predicate SameQueues(s: Sched, r: Sched) {
    |r.ready| == |s.ready| && forall q :: Queue(r, q) == Queue(s, q)
  }

  // ----- the switch

  /** A running thread that is preempted goes to the back of its level, one that has left its
      level is left alone, and the first thread of the best level runs. */
  lemma SwitchEffect(s: Sched, c: Tid)
    requires QueuesOk(s) && Switchable(s) && (CurrentOk(s) || NoneRunning(s)) && !s.critical
    requires s.current == Some(c) && Switch(s).Done?
    ensures var r, p := Switch(s).s, s.threads[c].priority;
            && r.current.Some? && Runs(r, r.current.value)
            && r.ready == (if s.threads[c].state == RUNNING then s.ready[p := Rotated(s.ready[p])] else s.ready)
            && r.block == s.block && r.sleep == s.sleep && r.sems == s.sems && r.critical == s.critical
            && States(s, r, c, if s.threads[c].state == RUNNING then READY else s.threads[c].state, r.current)
  {
    hide QueuesOk, CurrentOk, Rotated;
    PreemptKeeps(s);
    var s1 := Preempt(s);
    match FirstNonEmpty(s1.ready, 0)
    case None =>
    case Some(q) =>
      var n := s1.ready[q][0];
      ReadyThread(s1, q, n);
      Elsewhere(s1, q, n);
  }

  lemma Elsewhere(s: Sched, q: nat, n: Tid)
    requires QueuesOk(s) && q < |s.ready| && n in s.ready[q]
    ensures n !in s.block && n !in s.sleep
  {
    assert n in Queue(s, ReadyQ(q));
    assert forall r :: n in Queue(s, r) ==> r == ReadyQ(q);
    assert s.block == Queue(s, BlockQ) && s.sleep == Queue(s, SleepQ);
  }

  /** A tick or a yield: outside a critical section the current thread goes to the back of its
      level and the first of the best level runs; inside one nothing happens. */
  lemma TickEffect(s: Sched, idle: Tid, op: Op)
    requires Inv(s) && IdleOk(s, idle) && (op == Tick || op == Op.Yield) && s.current.Some?
    ensures Apply(s, idle, op).Done?
    ensures var r, c := Apply(s, idle, op).s, s.current.value;
            && c in s.threads
            && (s.critical ==> r == s)
            && (!s.critical ==>
                 && r.current.Some? && Runs(r, r.current.value) && States(s, r, c, READY, r.current)
                 && SameLocks(s, r) && |r.ready| == |s.ready| && !r.critical
                 && forall q :: Queue(r, q) == if q == ReadyQ(s.threads[c].priority) then Rotated(Queue(s, q))
                     else Queue(s, q))
  {
    hide QueuesOk, SemsOk, Rotated, Runs, States;
    StepKeeps(s, idle, op);
    InvSwitchable(s);
    CurrentMarked(s);
    if !s.critical { SwitchEffect(s, s.current.value); }
  }

  lemma CurrentMarked(s: Sched)
    requires CurrentOk(s) && s.current.Some?
    ensures s.current.value in s.threads && s.threads[s.current.value].state == RUNNING
    ensures s.threads[s.current.value].priority < |s.ready| && s.ready[s.threads[s.current.value].priority] != []
    ensures s.ready[s.threads[s.current.value].priority][0] == s.current.value
  {
  }

  lemma NoTick(s: Sched, idle: Tid)
    requires Inv(s) && s.current == None
    ensures Apply(s, idle, Tick) == Done(s)
  {
  }

  // ----- starting and inserting

  /** The thread that starts is the first of the best level; no queue changes. */
  lemma StartEffect(s: Sched, idle: Tid)
    requires Inv(s) && IdleOk(s, idle) && Legal(s, idle, Start)
    ensures Apply(s, idle, Start).Done?
    ensures var r := Apply(s, idle, Start).s;
            && r.current.Some? && Runs(r, r.current.value)
            && States(s, r, r.current.value, RUNNING, r.current)
            && SameQueues(s, r) && SameLocks(s, r) && r.critical == s.critical
  {
    hide QueuesOk, CurrentOk, SemsOk, Runs, States, SameQueues;
    StepKeeps(s, idle, Start);
    match FirstNonEmpty(s.ready, 0)
    case None =>
    case Some(q) => FirstRuns(s, q);
  }

  lemma FirstRuns(s: Sched, q: nat)
    requires QueuesOk(s) && q < |s.ready| && s.ready[q] != [] && forall p :: 0 <= p < q ==> s.ready[p] == []
    ensures var n := s.ready[q][0];
            && n in s.threads
            && var r := SetState(s, n, RUNNING).(current := Some(n));
            Runs(r, n) && States(s, r, n, RUNNING, Some(n)) && SameQueues(s, r)
  {
    hide QueuesOk;
    ReadyThread(s, q, s.ready[q][0]);
    Elsewhere(s, q, s.ready[q][0]);
  }

  /** A new thread is ready, at the back of its level and nowhere else. */
  lemma InsertEffect(s: Sched, idle: Tid, t: Tid, p: nat)
    requires Inv(s) && Legal(s, idle, Insert(t, p))
    ensures Apply(s, idle, Insert(t, p)).Done?
    ensures var r := Apply(s, idle, Insert(t, p)).s;
            && r.threads.Keys == s.threads.Keys + {t} && r.threads[t] == Tcb(READY, p)
            && (forall u :: u in s.threads ==> r.threads[u] == s.threads[u])
            && (forall q :: Queue(r, q) == if q == ReadyQ(p) then Queue(s, q) + [t] else Queue(s, q))
            && r.current == s.current && SameLocks(s, r) && r.critical == s.critical
  {
    hide AllDistinct, AllBelong, SemsOk, CurrentOk;
    InvLevels(s);
  }

  lemma InvLevels(s: Sched)
    requires Inv(s)
    ensures |s.ready| == NUMBER_PRIORITIES
  {
  }

  // ----- blocking, sleeping and waiting

  /** The running thread gives up the processor: it leaves the front of its level for the back of
      `to` in the new state, and another thread, the first of the best level, runs. */
  ghost predicate GivesUp(s: Sched, r: Sched, t: Tid, state: ThreadState, to: Place) {
    && t in s.threads && !to.ReadyQ?
    && r.current.Some? && r.current != Some(t) && Runs(r, r.current.value) && States(s, r, t, state, r.current)
    && SameLocks(s, r) && |r.ready| == |s.ready| && r.critical == s.critical
    && Moves(s, r, t, ReadyQ(s.threads[t].priority), to)
  }

  /** A thread that is not running leaves its level likewise, and the processor stays where it is. */
  ghost predicate PutAway(s: Sched, r: Sched, t: Tid, state: ThreadState, to: Place) {
    && t in s.threads && !to.ReadyQ?
    && r.current == s.current && States(s, r, t, state, None)
    && SameLocks(s, r) && |r.ready| == |s.ready| && r.critical == s.critical
    && Moves(s, r, t, ReadyQ(s.threads[t].priority), to)
  }

  /** thread_block and thread_sleep: refused exactly for a thread that is blocked or asleep. */
  lemma SuspendEffect(s: Sched, idle: Tid, t: Tid, asleep: bool)
    requires Inv(s) && IdleOk(s, idle) && t in s.threads && t != idle && (s.current == Some(t) ==> !s.critical)
    ensures var o := Suspend(s, t, asleep);
            var state, to := if asleep then SLEEP else BLOCK, if asleep then SleepQ else BlockQ;
            if s.threads[t].state == BLOCK || s.threads[t].state == SLEEP then o == Panic(BadCaller)
            else if s.current == Some(t) then o.Done? && GivesUp(s, o.s, t, state, to)
            else o.Done? && PutAway(s, o.s, t, state, to)
  {
    hide QueuesOk, SemsOk, Moves, Switch;
    SuspendKeeps(s, idle, t, asleep);
    InReadyQueue(s, t);
    match s.threads[t].state
    case READY => ReadySuspends(s, t, asleep);
    case RUNNING => RunningSuspends(s, t, asleep);
    case _ =>
  }

  lemma ReadySuspends(s: Sched, t: Tid, asleep: bool)
    requires Inv(s) && t in s.threads && s.threads[t].state == READY
    ensures Suspend(s, t, asleep).Done? && s.current != Some(t)
    ensures PutAway(s, Suspend(s, t, asleep).s, t, if asleep then SLEEP else BLOCK, if asleep then SleepQ else BlockQ)
  {
    hide QueuesOk, Without;
    InReadyQueue(s, t);
  }

  lemma RunningSuspends(s: Sched, t: Tid, asleep: bool)
    requires Inv(s) && s.current == Some(t) && !s.critical && Suspend(s, t, asleep).Done?
    ensures GivesUp(s, Suspend(s, t, asleep).s, t, if asleep then SLEEP else BLOCK, if asleep then SleepQ else BlockQ)
  {
    hide QueuesOk, Switch, Runs, SemsOk;
    InReadyQueue(s, t);
    var p := s.threads[t].priority;
    var s1 := Enqueue(SetReady(s, p, s.ready[p][1..]), t, asleep);
    SuspendRunning(s, t, asleep);
    SuspendSwitchable(s, t, asleep);
    SwitchEffect(s1, t);
    assert IndexIn(s.ready[p], t) == 0 && s.ready[p][1..] == Without(s.ready[p], t);
    NotChosen(Switch(s1).s, t);
  }

  /** A thread in the block or the sleep queue is not the one that runs. */
  lemma NotChosen(r: Sched, t: Tid)
    requires t in r.block || t in r.sleep
    ensures r.current.Some? && Runs(r, r.current.value) ==> r.current != Some(t)
  {
  }

  lemma BlockEffect(s: Sched, idle: Tid, t: Tid)
    requires Inv(s) && IdleOk(s, idle) && Legal(s, idle, Block(t)) && Apply(s, idle, Block(t)).Done?
    ensures var r := Apply(s, idle, Block(t)).s;
            && r.threads.Keys == s.threads.Keys && r.threads[t].state == BLOCK && r.block == s.block + [t]
            && (forall p :: 0 <= p < |r.ready| ==> t !in r.ready[p])
            && if s.current == Some(t) then GivesUp(s, r, t, BLOCK, BlockQ) else PutAway(s, r, t, BLOCK, BlockQ)
  {
    hide Inv, IdleOk, Suspend, GivesUp, PutAway;
    StepKeeps(s, idle, Block(t));
    SuspendEffect(s, idle, t, false);
    Away(s, Apply(s, idle, Block(t)).s, t, BLOCK, BlockQ);
  }

  lemma SleepEffect(s: Sched, idle: Tid, t: Tid)
    requires Inv(s) && IdleOk(s, idle) && Legal(s, idle, Sleep(t)) && Apply(s, idle, Sleep(t)).Done?
    ensures var r := Apply(s, idle, Sleep(t)).s;
            && r.threads.Keys == s.threads.Keys && r.threads[t].state == SLEEP && r.sleep == s.sleep + [t]
            && (forall p :: 0 <= p < |r.ready| ==> t !in r.ready[p])
            && if s.current == Some(t) then GivesUp(s, r, t, SLEEP, SleepQ) else PutAway(s, r, t, SLEEP, SleepQ)
  {
    hide Inv, IdleOk, Suspend, GivesUp, PutAway;
    StepKeeps(s, idle, Sleep(t));
    SuspendEffect(s, idle, t, true);
    Away(s, Apply(s, idle, Sleep(t)).s, t, SLEEP, SleepQ);
  }

  lemma Away(s: Sched, r: Sched, t: Tid, state: ThreadState, to: Place)
    requires GivesUp(s, r, t, state, to) || PutAway(s, r, t, state, to)
    requires Inv(r) && state != READY && state != RUNNING
    ensures r.threads.Keys == s.threads.Keys && t in r.threads && r.threads[t].state == state
    ensures Queue(r, to) == Queue(s, to) + [t]
    ensures forall p :: 0 <= p < |r.ready| ==> t !in r.ready[p]
  {
    hide QueuesOk, SemsOk, CurrentOk, Runs;
    NotReady(r, t);
  }

  lemma NotReady(r: Sched, t: Tid)
    requires QueuesOk(r) && t in r.threads && !Runnable(r.threads[t])
    ensures forall p :: 0 <= p < |r.ready| ==> t !in r.ready[p]
  {
    forall p | 0 <= p < |r.ready| ensures t !in r.ready[p] {
      if t in r.ready[p] { ReadyThread(r, p, t); }
    }
  }

  /** semaphore_wait: a unit is taken, or the thread waits at the back and gives up the processor. */
  lemma WaitEffect(s: Sched, idle: Tid, i: SemId)
    requires Inv(s) && IdleOk(s, idle) && Legal(s, idle, Wait(i))
    ensures Apply(s, idle, Wait(i)).Done?
    ensures var r := Apply(s, idle, Wait(i)).s;
            if s.sems[i].lock <= 0 then GivesUp(s, r, s.current.value, BLOCK, SemQ(i))
            else
              && r.threads == s.threads && SameQueues(s, r) && r.current == s.current && r.critical == s.critical
              && r.sems.Keys == s.sems.Keys && r.sems[i].lock == s.sems[i].lock - 1
              && forall j :: j in s.sems && j != i ==> r.sems[j].lock == s.sems[j].lock
  {
    hide QueuesOk, Switch, Runs, IdleOk;
    WaitKeeps(s, idle, i);
    if s.sems[i].lock <= 0 {
      ParkSwitchable(s, i);
      ParkEffect(s, i);
    }
  }

  lemma ParkEffect(s: Sched, i: SemId)
    requires Inv(s) && s.current.Some? && i in s.sems && s.sems[i].lock <= 0 && !s.critical
    requires Switchable(Park(s, i)) && Switch(Park(s, i)).Done?
    ensures GivesUp(s, Switch(Park(s, i)).s, s.current.value, BLOCK, SemQ(i))
  {
    hide QueuesOk, Switch, Runs;
    var t := s.current.value;
    var s1 := Park(s, i);
    ParkRunning(s, i);
    ParkMoves(s, i);
    CurrentMarked(s);
    SwitchEffect(s1, t);
    var r := Switch(s1).s;
    assert SameQueues(s1, r) by { hide Moves; }
    MovesSame(s, s1, r, t, ReadyQ(s.threads[t].priority), SemQ(i));
    StillBlocked(s1, r, t);
  }

  lemma MovesSame(s: Sched, s1: Sched, r: Sched, t: Tid, from: Place, to: Place)
    requires Moves(s, s1, t, from, to) && SameQueues(s1, r)
    ensures Moves(s, r, t, from, to)
  {
    hide Queue;
  }

  /** The thread that runs was ready, so it is not the one that just waited. */
  lemma StillBlocked(s: Sched, r: Sched, t: Tid)
    requires QueuesOk(s) && t in s.threads && s.threads[t].state == BLOCK && r.ready == s.ready
    requires States(s, r, t, BLOCK, r.current) && r.current.Some? && Runs(r, r.current.value)
    ensures r.current != Some(t)
  {
    if r.current == Some(t) { ReadyThread(s, r.threads[t].priority, t); }
  }

  // ----- waking

  /** A thread that is made ready leaves `from` for the back of its level, and nothing else changes. */
  ghost predicate Wakes(s: Sched, r: Sched, t: Tid, from: Place) {
    && t in s.threads && !from.ReadyQ?
    && r.current == s.current && States(s, r, t, READY, None)
    && SameLocks(s, r) && |r.ready| == |s.ready| && r.critical == s.critical
    && Moves(s, r, t, from, ReadyQ(s.threads[t].priority))
  }

  /** thread_notify makes a blocked thread ready, at the back of its level; others it leaves alone. */
  lemma NotifyEffect(s: Sched, idle: Tid, t: Tid)
    requires Inv(s) && Legal(s, idle, Notify(t))
    ensures Apply(s, idle, Notify(t)).Done?
    ensures var r, p := Apply(s, idle, Notify(t)).s, s.threads[t].priority;
            if s.threads[t].state != BLOCK then r == s
            else
              && Wakes(s, r, t, BlockQ) && r.threads.Keys == s.threads.Keys && r.threads[t] == Tcb(READY, p)
              && t in s.block && r.block == Without(s.block, t)
              && p < |s.ready| == |r.ready| && r.ready[p] == s.ready[p] + [t]
  {
    hide QueuesOk, Without;
    if s.threads[t].state == BLOCK { BlockedThread(s, t, BlockQ); }
  }

  /** semaphore_signal makes the first waiter ready and keeps the count, or adds a unit. */
  lemma SignalEffect(s: Sched, idle: Tid, i: SemId)
    requires Inv(s) && Legal(s, idle, Signal(i))
    ensures Apply(s, idle, Signal(i)).Done?
    ensures var r, w := Apply(s, idle, Signal(i)).s, s.sems[i].waiting;
            if w != [] then Wakes(s, r, w[0], SemQ(i))
            else
              && r.threads == s.threads && SameQueues(s, r) && r.current == s.current && r.critical == s.critical
              && r.sems.Keys == s.sems.Keys && r.sems[i].lock == s.sems[i].lock + 1
              && forall j :: j in s.sems && j != i ==> r.sems[j].lock == s.sems[j].lock
  {
    hide QueuesOk, Without;
    if s.sems[i].waiting != [] {
      BlockedThread(s, s.sems[i].waiting[0], SemQ(i));
      HandOffMoves(s, i);
    }
  }

  // ----- the rest

  lemma InitEffect(s: Sched, idle: Tid, i: SemId, v: int)
    requires Inv(s) && Legal(s, idle, InitSem(i, v))
    ensures Apply(s, idle, InitSem(i, v)).Done?
    ensures var r := Apply(s, idle, InitSem(i, v)).s;
            && r.sems.Keys == s.sems.Keys + {i} && r.sems[i].lock == v && r.sems[i].waiting == []
            && (forall j :: j in s.sems ==> r.sems[j] == s.sems[j])
            && r.threads == s.threads && SameQueues(s, r) && r.current == s.current && r.critical == s.critical
  {
    hide QueuesOk;
  }

  /** Between critlock_acquire and critlock_release no tick and no yield changes anything. */
  lemma CriticalEffect(s: Sched, idle: Tid)
    requires Inv(s) && IdleOk(s, idle)
    ensures Apply(s, idle, EnterCritical).Done? && Apply(s, idle, LeaveCritical).Done?
    ensures var r := Apply(s, idle, EnterCritical).s;
            r.critical && Inv(r) && Apply(r, idle, Tick) == Done(r)
            && Apply(r, idle, LeaveCritical) == Done(s.(critical := false))
    ensures var r := Apply(s, idle, LeaveCritical).s;
            !r.critical && r.threads == s.threads && SameQueues(s, r) && r.current == s.current && SameLocks(s, r)
  {
    hide QueuesOk;
    CriticalKeeps(s, true);
    InvSwitchable(s.(critical := true));
  }
}
