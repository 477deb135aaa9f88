/** Safety of the scheduler over every run. */
module SchedulerSafety {
  import opened Options
  import opened ListSpec
  import opened SchedulerSpec

  // ----- moves between queues

  /** In `s'` thread `t` is in queue `to` only; every other thread is where it was. */
  ghost predicate Placed(s: Sched, s': Sched, t: Tid, to: Place) {
    forall q, u :: u in Queue(s', q) <==> if u == t then q == to else u in Queue(s, q)
  }

  lemma PlacedKeepsQueues(s: Sched, s': Sched, t: Tid, tcb: Tcb, to: Place)
    requires QueuesOk(s) && Placed(s, s', t, to) && AllDistinct(s')
    requires s'.threads == s.threads[t := tcb] && Belongs(tcb, to) && tcb.priority < NUMBER_PRIORITIES
    requires |s'.ready| == NUMBER_PRIORITIES
    ensures QueuesOk(s')
  {
    hide Queue, Belongs, Distinct;
    forall u | u in s'.threads ensures exists q :: u in Queue(s', q) {
      if u == t {
        assert t in Queue(s', to);
      } else {
        var q :| u in Queue(s, q);
        assert u in Queue(s', q);
      }
    }
  }

  /** Thread `t` leaves queue `from` for the back of queue `to`, and nothing else moves. */
  ghost predicate Moves(s: Sched, s': Sched, t: Tid, from: Place, to: Place) {
    && from != to && t in Queue(s, from)
    && Queue(s', from) == Without(Queue(s, from), t)
    && Queue(s', to) == Queue(s, to) + [t]
    && (forall q :: q != from && q != to ==> Queue(s', q) == Queue(s, q))
  }

  lemma MovesKeepsQueues(s: Sched, s': Sched, t: Tid, tcb: Tcb, from: Place, to: Place)
    requires QueuesOk(s) && Moves(s, s', t, from, to)
    requires s'.threads == s.threads[t := tcb] && Belongs(tcb, to) && tcb.priority < NUMBER_PRIORITIES
    requires |s'.ready| == NUMBER_PRIORITIES
    ensures QueuesOk(s')
  {
    hide Queue, Belongs, Without;
    assert Distinct(Queue(s, from)) && Distinct(Queue(s, to));
    WithoutMembers(Queue(s, from), t);
    MovesDistinct(s, s', t, from, to);
    assert Placed(s, s', t, to) by {
      forall q, u ensures u in Queue(s', q) <==> if u == t then q == to else u in Queue(s, q) {
        assert q != from && q != to ==> Queue(s', q) == Queue(s, q);
      }
    }
    PlacedKeepsQueues(s, s', t, tcb, to);
  }

  lemma MovesDistinct(s: Sched, s': Sched, t: Tid, from: Place, to: Place)
    requires AllDistinct(s) && Moves(s, s', t, from, to) && t !in Queue(s, to)
    ensures AllDistinct(s')
  {
    hide Queue, Without;
    WithoutMembers(Queue(s, from), t);
    forall q ensures Distinct(Queue(s', q)) { assert Distinct(Queue(s, q)); }
  }

  /** The queues hold the same threads, perhaps in another order, and only the READY/RUNNING
      mark of one of them changes. */
  ghost predicate SameMembers(s: Sched, s': Sched) {
    && |s'.ready| == |s.ready|
    && AllDistinct(s')
    && forall q, u :: u in Queue(s', q) <==> u in Queue(s, q)
  }

  ghost predicate Runnable(tcb: Tcb) {
    tcb.state == READY || tcb.state == RUNNING
  }

  lemma RemarkKeepsQueues(s: Sched, s': Sched, t: Tid, tcb: Tcb)
    requires QueuesOk(s) && SameMembers(s, s') && t in s.threads && s'.threads == s.threads[t := tcb]
    requires Runnable(s.threads[t]) && Runnable(tcb) && tcb.priority == s.threads[t].priority
    ensures QueuesOk(s')
  {
    hide Queue, Distinct, AllDistinct;
    StillFound(s, s', t, tcb);
    RemarkBelongs(s, s', t, tcb);
    hide AllBelong, Belongs;
  }

  lemma StillFound(s: Sched, s': Sched, t: Tid, tcb: Tcb)
    requires QueuesOk(s) && SameMembers(s, s') && t in s.threads && s'.threads == s.threads[t := tcb]
    ensures forall u :: u in s'.threads ==> exists q :: u in Queue(s', q)
  {
    hide Queue, AllDistinct, AllBelong;
    forall u | u in s'.threads ensures exists q :: u in Queue(s', q) {
      var q :| u in Queue(s, q);
      assert u in Queue(s', q);
    }
  }

  lemma RemarkBelongs(s: Sched, s': Sched, t: Tid, tcb: Tcb)
    requires AllBelong(s) && SameMembers(s, s') && t in s.threads && s'.threads == s.threads[t := tcb]
    requires Runnable(s.threads[t]) && Runnable(tcb) && tcb.priority == s.threads[t].priority
    ensures AllBelong(s')
  {
    hide Queue, AllDistinct;
  }

  lemma SameQueuesKeep(s: Sched, s': Sched)
    requires QueuesOk(s) && s'.threads == s.threads && |s'.ready| == |s.ready|
    requires forall q :: Queue(s', q) == Queue(s, q)
    ensures QueuesOk(s')
  {
    hide Queue, Belongs, Distinct;
    forall q ensures Distinct(Queue(s', q)) { assert Distinct(Queue(s, q)); }
    forall u | u in s'.threads ensures exists q :: u in Queue(s', q) {
      var q :| u in Queue(s, q);
      assert u in Queue(s', q);
    }
  }

  lemma RotationMembers(s: Sched, p: nat)
    requires AllDistinct(s) && p < |s.ready|
    ensures SameMembers(s, SetReady(s, p, Rotated(s.ready[p])))
  {
    hide Distinct;
    var s' := SetReady(s, p, Rotated(s.ready[p]));
    assert Distinct(Queue(s, ReadyQ(p)));
    RotatedMembers(s.ready[p]);
    forall q ensures Distinct(Queue(s', q)) && forall u :: u in Queue(s', q) <==> u in Queue(s, q) {
      assert Distinct(Queue(s, q));
      if q != ReadyQ(p) { assert Queue(s', q) == Queue(s, q); }
    }
  }

  // ----- the switch

  /** No ready thread has a better (lower) priority than the current one. */
  ghost predicate BestReady(s: Sched) {
    s.current.Some? && s.current.value in s.threads &&
    forall t :: t in s.threads && s.threads[t].state == READY ==>
        s.threads[s.current.value].priority <= s.threads[t].priority
  }

  ghost predicate SomeReady(s: Sched) {
    exists p :: 0 <= p < |s.ready| && s.ready[p] != []
  }

  lemma PreemptKeeps(s: Sched)
    requires QueuesOk(s) && Switchable(s) && (CurrentOk(s) || NoneRunning(s))
    ensures QueuesOk(Preempt(s)) && NoneRunning(Preempt(s))
    ensures SomeReady(s) <==> SomeReady(Preempt(s))
  {
    hide QueuesOk;
    var c, s' := s.current.value, Preempt(s);
    var p := s.threads[c].priority;
    if s.threads[c].state == RUNNING {
      var r := SetReady(s, p, Rotated(s.ready[p]));
      QueuesDistinct(s);
      RotationMembers(s, p);
      PreemptQueues(s, r, s', c);
      SameLevels(s, s', p);
    }
  }

  lemma QueuesDistinct(s: Sched)
    requires QueuesOk(s)
    ensures AllDistinct(s)
  {
  }

  lemma SameLevels(s: Sched, s': Sched, p: nat)
    requires p < |s.ready| && s'.ready == s.ready[p := Rotated(s.ready[p])]
    ensures SomeReady(s) <==> SomeReady(s')
  {
    if SomeReady(s) {
      var q :| 0 <= q < |s.ready| && s.ready[q] != [];
      assert s'.ready[q] != [];
    }
    if SomeReady(s') {
      var q :| 0 <= q < |s'.ready| && s'.ready[q] != [];
      assert s.ready[q] != [];
    }
  }

  lemma PreemptQueues(s: Sched, r: Sched, s': Sched, c: Tid)
    requires QueuesOk(s) && SameMembers(s, r) && c in s.threads && s.threads[c].state == RUNNING
    requires s'.ready == r.ready && s'.block == r.block && s'.sleep == r.sleep && s'.sems == r.sems
    requires s'.threads == s.threads[c := s.threads[c].(state := READY)]
    ensures QueuesOk(s')
  {
    hide QueuesOk;
    SameQueues(r, s');
    SameQueuesSame(s, r, s');
    hide SameMembers;
    RemarkKeepsQueues(s, s', c, s.threads[c].(state := READY));
  }

  lemma SameQueues(r: Sched, s': Sched)
    requires s'.ready == r.ready && s'.block == r.block && s'.sleep == r.sleep && s'.sems == r.sems
    ensures forall q :: Queue(s', q) == Queue(r, q)
  {
  }

  lemma SameQueuesSame(s: Sched, r: Sched, s': Sched)
    requires SameMembers(s, r) && |s'.ready| == |r.ready| && forall q :: Queue(s', q) == Queue(r, q)
    ensures SameMembers(s, s')
  {
    hide Queue, Distinct;
    forall q ensures Distinct(Queue(s', q)) { assert Distinct(Queue(r, q)); }
  }

  /** Choosing the head of level `q` to run. */
  lemma ChooseKeeps(s: Sched, q: nat)
    requires QueuesOk(s) && NoneRunning(s) && q < |s.ready| && s.ready[q] != []
    requires forall p :: 0 <= p < q ==> s.ready[p] == []
    ensures var t := s.ready[q][0];
            t in s.threads && s.threads[t].state == READY &&
            var s' := SetState(s, t, RUNNING).(current := Some(t));
            QueuesOk(s') && CurrentOk(s') && BestReady(s')
  {
    hide QueuesOk;
    var t := s.ready[q][0];
    ReadyThread(s, q, t);
    var s' := SetState(s, t, RUNNING).(current := Some(t));
    ChooseQueues(s, s', t);
    forall u | u in s'.threads && s'.threads[u].state == READY
      ensures s'.threads[t].priority <= s'.threads[u].priority {
      InReadyQueue(s, u);
    }
  }

  lemma ReadyThread(s: Sched, q: nat, t: Tid)
    requires QueuesOk(s) && q < |s.ready| && t in s.ready[q]
    ensures t in s.threads && Runnable(s.threads[t]) && s.threads[t].priority == q
  {
    assert t in Queue(s, ReadyQ(q));
  }

  lemma ChooseQueues(s: Sched, s': Sched, t: Tid)
    requires QueuesOk(s) && t in s.threads && s.threads[t].state == READY
    requires s'.ready == s.ready && s'.block == s.block && s'.sleep == s.sleep && s'.sems == s.sems
    requires s'.threads == s.threads[t := s.threads[t].(state := RUNNING)]
    ensures QueuesOk(s')
  {
    assert forall q :: Queue(s', q) == Queue(s, q) by { hide QueuesOk; }
    hide Queue, Belongs, Distinct;
    forall q ensures Distinct(Queue(s', q)) { assert Distinct(Queue(s, q)); }
    RemarkKeepsQueues(s, s', t, s.threads[t].(state := RUNNING));
  }

  /** A switch outside a critical section panics exactly when every ready queue is empty;
      otherwise it leaves a thread of the best ready priority running at the head of its queue. */
  lemma SwitchKeeps(s: Sched)
    requires QueuesOk(s) && SemsOk(s) && Switchable(s) && (CurrentOk(s) || NoneRunning(s)) && !s.critical
    ensures SomeReady(s) <==> Switch(s).Done?
    ensures Switch(s).Panic? ==> Switch(s).why == EmptyReady
    ensures Switch(s).Done? ==> Inv(Switch(s).s) && BestReady(Switch(s).s)
  {
    hide QueuesOk, CurrentOk, BestReady;
    PreemptKeeps(s);
    var s1 := Preempt(s);
    match FirstNonEmpty(s1.ready, 0)
    case None =>
    case Some(q) => ChooseKeeps(s1, q);
  }

  // ----- one step

  /** The thread that never blocks is always ready to run. */
  ghost predicate IdleOk(s: Sched, idle: Tid) {
    idle in s.threads && (s.threads[idle].state == READY || s.threads[idle].state == RUNNING)
  }

  lemma IdleIsReady(s: Sched, idle: Tid)
    requires QueuesOk(s) && IdleOk(s, idle)
    ensures SomeReady(s)
  {
    InReadyQueue(s, idle);
    assert s.ready[s.threads[idle].priority] != [];
  }

  lemma SwitchKeepsIdle(s: Sched, idle: Tid)
    requires QueuesOk(s) && SemsOk(s) && Switchable(s) && (CurrentOk(s) || NoneRunning(s)) && !s.critical
    requires IdleOk(s, idle)
    ensures Switch(s).Done? && Inv(Switch(s).s) && BestReady(Switch(s).s) && IdleOk(Switch(s).s, idle)
  {
    hide QueuesOk;
    IdleIsReady(s, idle);
    SwitchKeeps(s);
  }

  /** The queue equations of a suspension. */
  lemma SuspendMoves(s: Sched, t: Tid, q: seq<Tid>, asleep: bool)
    requires QueuesOk(s) && t in s.threads && Runnable(s.threads[t])
    requires t in s.ready[s.threads[t].priority] && q == Without(s.ready[s.threads[t].priority], t)
    ensures var s' := Enqueue(SetReady(s, s.threads[t].priority, q), t, asleep);
            QueuesOk(s') && s'.sems == s.sems
  {
    hide QueuesOk;
    var p := s.threads[t].priority;
    InReadyQueue(s, t);
    LevelCount(s);
    var s' := Enqueue(SetReady(s, p, q), t, asleep);
    var to := if asleep then SleepQ else BlockQ;
    assert Moves(s, s', t, ReadyQ(p), to);
    MovesKeepsQueues(s, s', t, s'.threads[t], ReadyQ(p), to);
  }

  lemma LevelCount(s: Sched)
    requires QueuesOk(s)
    ensures |s.ready| == NUMBER_PRIORITIES
  {
  }

  lemma SuspendReady(s: Sched, t: Tid, asleep: bool)
    requires Inv(s) && t in s.threads && s.threads[t].state == READY
    ensures Suspend(s, t, asleep).Done? && Inv(Suspend(s, t, asleep).s)
  {
    hide QueuesOk;
    var p := s.threads[t].priority;
    InReadyQueue(s, t);
    SuspendMoves(s, t, Without(s.ready[p], t), asleep);
    if s.current.Some? && s.threads[s.current.value].priority == p {
      assert IndexIn(s.ready[p], t) > 0;
    }
  }

  /** After the running thread has been queued elsewhere no thread runs. */
  lemma SuspendRunning(s: Sched, t: Tid, asleep: bool)
    requires Inv(s) && s.current == Some(t)
    ensures var s1 := Enqueue(SetReady(s, s.threads[t].priority, s.ready[s.threads[t].priority][1..]), t, asleep);
            QueuesOk(s1) && SemsOk(s1) && NoneRunning(s1)
  {
    hide QueuesOk;
    var p := s.threads[t].priority;
    assert IndexIn(s.ready[p], t) == 0;
    assert s.ready[p][1..] == Without(s.ready[p], t);
    SuspendMoves(s, t, s.ready[p][1..], asleep);
  }

  lemma ParkMoves(s: Sched, i: SemId)
    requires Inv(s) && s.current.Some? && i in s.sems
    ensures var c := s.current.value; Moves(s, Park(s, i), c, ReadyQ(s.threads[c].priority), SemQ(i))
  {
    hide QueuesOk, SemsOk;
  }

  lemma ParkRunning(s: Sched, i: SemId)
    requires Inv(s) && s.current.Some? && i in s.sems && s.sems[i].lock <= 0
    ensures QueuesOk(Park(s, i)) && SemsOk(Park(s, i)) && NoneRunning(Park(s, i))
  {
    hide QueuesOk;
    LevelCount(s);
    var c := s.current.value;
    ParkMoves(s, i);
    MovesKeepsQueues(s, Park(s, i), c, s.threads[c].(state := BLOCK), ReadyQ(s.threads[c].priority), SemQ(i));
  }

  lemma HeadAfterAppend(s: Sched, s': Sched, t: Tid)
    requires CurrentOk(s) && t in s.threads && s.threads[t].state != RUNNING && s.threads[t].priority < |s.ready|
    requires s'.ready == s.ready[s.threads[t].priority := s.ready[s.threads[t].priority] + [t]]
    requires s'.threads == s.threads[t := s.threads[t].(state := READY)] && s'.current == s.current
    ensures CurrentOk(s')
  {
  }

  lemma BlockedThread(s: Sched, t: Tid, q: Place)
    requires QueuesOk(s) && t in Queue(s, q) && !q.ReadyQ?
    ensures t in s.threads && s.threads[t].priority < NUMBER_PRIORITIES == |s.ready| && !Runnable(s.threads[t])
  {
  }

  lemma NotifyKeeps(s: Sched, t: Tid)
    requires Inv(s) && t in s.block && t in s.threads && s.threads[t].priority < |s.ready|
    ensures Inv(MakeReady(s.(block := Without(s.block, t)), t))
  {
    hide QueuesOk;
    BlockedThread(s, t, BlockQ);
    var s' := MakeReady(s.(block := Without(s.block, t)), t);
    assert Moves(s, s', t, BlockQ, ReadyQ(s.threads[t].priority));
    MovesKeepsQueues(s, s', t, s'.threads[t], BlockQ, ReadyQ(s.threads[t].priority));
    HeadAfterAppend(s, s', t);
  }

  lemma HandOffMoves(s: Sched, i: SemId)
    requires i in s.sems && s.sems[i].waiting != []
    requires var t := s.sems[i].waiting[0]; t in s.threads && s.threads[t].priority < |s.ready|
    ensures var w, t := s.sems[i].waiting, s.sems[i].waiting[0];
            Moves(s, MakeReady(SetSem(s, i, s.sems[i].(waiting := w[1..])), t), t,
                  SemQ(i), ReadyQ(s.threads[t].priority))
  {
    var w := s.sems[i].waiting;
    assert IndexIn(w, w[0]) == 0 && w[1..] == Without(w, w[0]);
  }

  lemma HandOffKeeps(s: Sched, i: SemId)
    requires Inv(s) && i in s.sems && s.sems[i].waiting != []
    ensures var w := s.sems[i].waiting;
            w[0] in s.threads && s.threads[w[0]].priority < |s.ready| &&
            Inv(MakeReady(SetSem(s, i, s.sems[i].(waiting := w[1..])), w[0]))
  {
    hide QueuesOk;
    var w := s.sems[i].waiting;
    var t := w[0];
    BlockedThread(s, t, SemQ(i));
    var s' := MakeReady(SetSem(s, i, s.sems[i].(waiting := w[1..])), t);
    HandOffMoves(s, i);
    MovesKeepsQueues(s, s', t, s'.threads[t], SemQ(i), ReadyQ(s.threads[t].priority));
    HeadAfterAppend(s, s', t);
  }

  lemma InsertKeeps(s: Sched, t: Tid, p: nat)
    requires Inv(s) && t !in s.threads && p < NUMBER_PRIORITIES
    ensures |s.ready| == NUMBER_PRIORITIES
    ensures Inv(s.(threads := s.threads[t := Tcb(READY, p)], ready := s.ready[p := s.ready[p] + [t]]))
  {
    hide QueuesOk;
    LevelCount(s);
    var s' := s.(threads := s.threads[t := Tcb(READY, p)], ready := s.ready[p := s.ready[p] + [t]]);
    InsertQueues(s, s', t, p);
  }

  lemma InsertQueues(s: Sched, s': Sched, t: Tid, p: nat)
    requires QueuesOk(s) && t !in s.threads && p < NUMBER_PRIORITIES
    requires s' == s.(threads := s.threads[t := Tcb(READY, p)], ready := s.ready[p := s.ready[p] + [t]])
    ensures QueuesOk(s')
  {
    assert forall q :: Queue(s', q) == (if q == ReadyQ(p) then Queue(s, q) + [t] else Queue(s, q)) by {
      hide AllDistinct, AllBelong;
    }
    assert |s'.ready| == NUMBER_PRIORITIES;
    hide Queue;
    assert forall q :: t !in Queue(s, q);
    forall q ensures Distinct(Queue(s', q)) { assert Distinct(Queue(s, q)); }
    assert Placed(s, s', t, ReadyQ(p)) by { hide QueuesOk, AllDistinct, AllBelong; }
    PlacedKeepsQueues(s, s', t, Tcb(READY, p), ReadyQ(p));
  }

  lemma StartKeeps(s: Sched, idle: Tid)
    requires Inv(s) && IdleOk(s, idle) && Legal(s, idle, Start)
    ensures Apply(s, idle, Start).Done? && Inv(Apply(s, idle, Start).s)
  {
    IdleIsReady(s, idle);
    hide QueuesOk;
    ChooseKeeps(s, FirstNonEmpty(s.ready, 0).value);
  }

  /** Only the semaphore's count changes. */
  lemma CountKeeps(s: Sched, i: SemId, sem: Semaphore)
    requires Inv(s) && INT32_MIN <= sem.lock <= INT32_MAX && (sem.waiting != [] ==> sem.lock <= 0)
    requires if i in s.sems then sem.waiting == s.sems[i].waiting else sem.waiting == []
    ensures Inv(SetSem(s, i, sem))
  {
    hide QueuesOk;
    assert forall q :: Queue(SetSem(s, i, sem), q) == Queue(s, q);
    SameQueuesKeep(s, SetSem(s, i, sem));
  }

  /** A step asked of a thread that is already suspended. */
  ghost predicate AlreadySuspended(s: Sched, op: Op) {
    (op.Block? || op.Sleep?) && op.t in s.threads && (s.threads[op.t].state == BLOCK || s.threads[op.t].state == SLEEP)
  }

  /** Every legal step keeps the invariant.  The only panic is the one that refuses to
      suspend a suspended thread: neither panic of the switch can be reached. */
  lemma StepKeeps(s: Sched, idle: Tid, op: Op)
    requires Inv(s) && IdleOk(s, idle) && Legal(s, idle, op)
    ensures Apply(s, idle, op).Panic? <==> AlreadySuspended(s, op)
    ensures Apply(s, idle, op).Panic? ==> Apply(s, idle, op).why == BadCaller
    ensures Apply(s, idle, op).Done? ==> Inv(Apply(s, idle, op).s) && IdleOk(Apply(s, idle, op).s, idle)
  {
    hide QueuesOk, SemsOk, CurrentOk, Switch;
    InvParts(s);
    match op
    case Start => StartKeeps(s, idle);
    case Insert(t, p) => InsertKeeps(s, t, p);
    case Tick => if s.current.Some? { TickKeeps(s, idle); }
    case Yield => TickKeeps(s, idle);
    case Block(t) => SuspendKeeps(s, idle, t, false);
    case Sleep(t) => SuspendKeeps(s, idle, t, true);
    case Notify(t) => if s.threads[t].state == BLOCK { NotifyKeeps(s, t); }
    case Wait(i) => WaitKeeps(s, idle, i);
    case Signal(i) => SignalKeeps(s, idle, i);
    case InitSem(i, v) => CountKeeps(s, i, Semaphore(v, []));
    case EnterCritical => CriticalKeeps(s, true);
    case LeaveCritical => CriticalKeeps(s, false);
  }

  lemma InvParts(s: Sched)
    requires Inv(s)
    ensures QueuesOk(s) && SemsOk(s) && CurrentOk(s)
    ensures s.current.Some? ==> Switchable(s)
  {
    InvSwitchable(s);
  }

  lemma CriticalKeeps(s: Sched, critical: bool)
    requires Inv(s)
    ensures Inv(s.(critical := critical))
  {
    hide QueuesOk;
    assert forall q :: Queue(s.(critical := critical), q) == Queue(s, q);
    SameQueuesKeep(s, s.(critical := critical));
  }

  lemma TickKeeps(s: Sched, idle: Tid)
    requires Inv(s) && IdleOk(s, idle) && s.current.Some? && Switchable(s)
    ensures Switch(s).Done? && Inv(Switch(s).s) && IdleOk(Switch(s).s, idle)
  {
    hide QueuesOk;
    if !s.critical { SwitchKeepsIdle(s, idle); }
  }

  lemma SuspendKeeps(s: Sched, idle: Tid, t: Tid, asleep: bool)
    requires Inv(s) && IdleOk(s, idle) && t in s.threads && t != idle && (s.current == Some(t) ==> !s.critical)
    ensures var r := Suspend(s, t, asleep);
            if s.threads[t].state == BLOCK || s.threads[t].state == SLEEP then r == Panic(BadCaller)
            else r.Done? && Inv(r.s) && IdleOk(r.s, idle)
  {
    hide QueuesOk;
    InReadyQueue(s, t);
    match s.threads[t].state
    case READY => SuspendReady(s, t, asleep);
    case RUNNING =>
      SuspendRunning(s, t, asleep);
      SuspendSwitchable(s, t, asleep);
      SwitchKeepsIdle(Enqueue(SetReady(s, s.threads[t].priority, s.ready[s.threads[t].priority][1..]), t, asleep),
          idle);
    case _ =>
  }

  lemma WaitKeeps(s: Sched, idle: Tid, i: SemId)
    requires Inv(s) && IdleOk(s, idle) && Legal(s, idle, Wait(i))
    ensures Apply(s, idle, Wait(i)).Done? && Inv(Apply(s, idle, Wait(i)).s) && IdleOk(Apply(s, idle, Wait(i)).s, idle)
  {
    hide QueuesOk;
    var sem := s.sems[i];
    if sem.lock <= 0 {
      ParkRunning(s, i);
      ParkSwitchable(s, i);
      SwitchKeepsIdle(Park(s, i), idle);
    } else {
      CountKeeps(s, i, sem.(lock := sem.lock - 1));
    }
  }

  lemma SignalKeeps(s: Sched, idle: Tid, i: SemId)
    requires Inv(s) && IdleOk(s, idle) && Legal(s, idle, Signal(i))
    ensures Apply(s, idle, Signal(i)).Done? && Inv(Apply(s, idle, Signal(i)).s)
              && IdleOk(Apply(s, idle, Signal(i)).s, idle)
  {
    hide QueuesOk;
    var sem := s.sems[i];
    if sem.waiting != [] {
      HandOffKeeps(s, i);
    } else {
      CountKeeps(s, i, sem.(lock := sem.lock + 1));
    }
  }

  // ----- the first state

  /** The scheduler as init_thread_scheduler and one thread_insert of the idle thread leave it. */
  ghost function Booted(idle: Tid, p: nat): Sched
    requires p < NUMBER_PRIORITIES
  {
    Sched(map[idle := Tcb(READY, p)], seq(NUMBER_PRIORITIES, q => if q == p then [idle] else []), [], [], map[], None,
        false)
  }

  lemma BootedOk(idle: Tid, p: nat)
    requires p < NUMBER_PRIORITIES
    ensures Inv(Booted(idle, p)) && IdleOk(Booted(idle, p), idle)
  {
    var s := Booted(idle, p);
    assert idle in Queue(s, ReadyQ(p));
  }
}
