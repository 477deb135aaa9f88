/** Whole runs of the scheduler: safety, bounded waiting, semaphore accounting. */
module SchedulerRuns {
  import opened Options
  import opened ListSpec
  import opened SchedulerSpec
  import opened SchedulerSafety

  /** Step `op` is legal in `s` and leads to `s'`.  (Should the invariant ever be lost the
      step says nothing about `s'`, so a run may then continue anywhere.) */
  ghost predicate StepTo(s: Sched, idle: Tid, op: Op, s': Sched) {
    Legal(s, idle, op) && (Inv(s) ==> Apply(s, idle, op) == Done(s'))
  }

  ghost predicate IsRun(ss: seq<Sched>, ops: seq<Op>, idle: Tid) {
    |ss| == |ops| + 1 && forall k :: 0 <= k < |ops| ==> StepTo(ss[k], idle, ops[k], ss[k + 1])
  }

  /** Every run keeps the invariant: each thread in exactly the one queue that matches its
      state and priority, exactly one thread running, at the head of its ready queue. */
  lemma {:induction false} RunKeepsInvariant(ss: seq<Sched>, ops: seq<Op>, idle: Tid)
    requires IsRun(ss, ops, idle) && Inv(ss[0]) && IdleOk(ss[0], idle)
    ensures forall k :: 0 <= k <= |ops| ==> Inv(ss[k]) && IdleOk(ss[k], idle)
    decreases |ops|
  {
    hide Inv, IdleOk, Legal, Apply;
    if ops != [] {
      var n := |ops| - 1;
      RunKeepsInvariant(ss[..n + 1], ops[..n], idle);
      assert ss[..n + 1][n] == ss[n];
      assert StepTo(ss[n], idle, ops[n], ss[n + 1]);
      StepKeeps(ss[n], idle, ops[n]);
      forall k | 0 <= k <= |ops| ensures Inv(ss[k]) && IdleOk(ss[k], idle) {
        if k <= n { assert ss[..n + 1][k] == ss[k]; }
      }
    }
  }

  /** So from boot on no step of any run reaches a panic of the switch, and each step either
      is done or refuses to suspend a suspended thread. */
  lemma NoSwitchPanic(ss: seq<Sched>, ops: seq<Op>, idle: Tid, p: nat, op: Op)
    requires p < NUMBER_PRIORITIES && IsRun(ss, ops, idle) && ss[0] == Booted(idle, p)
    requires Legal(ss[|ops|], idle, op)
    ensures Inv(ss[|ops|])
    ensures Apply(ss[|ops|], idle, op).Panic? <==> AlreadySuspended(ss[|ops|], op)
    ensures Apply(ss[|ops|], idle, op).Panic? ==> Apply(ss[|ops|], idle, op).why == BadCaller
  {
    hide Inv, IdleOk, Legal, Apply, Booted;
    BootedOk(idle, p);
    RunKeepsInvariant(ss, ops, idle);
    StepKeeps(ss[|ops|], idle, op);
  }

  /** Giving up the processor is sound exactly outside critical sections: inside one the
      switch returns early and the current thread stays current although it is queued as
      blocked or asleep. */
  lemma SuspendNeedsSwitch(s: Sched, idle: Tid, t: Tid, asleep: bool)
    requires Inv(s) && IdleOk(s, idle) && s.current == Some(t) && t != idle
    ensures Suspend(s, t, asleep).Done?
    ensures Inv(Suspend(s, t, asleep).s) <==> !s.critical
  {
    if s.critical {
      SuspendSwitchable(s, t, asleep);
      InReadyQueue(s, t);
    } else {
      SuspendKeeps(s, idle, t, asleep);
    }
  }

  /** The same of semaphore_wait when it has to park. */
  lemma WaitNeedsSwitch(s: Sched, idle: Tid, i: SemId)
    requires Inv(s) && IdleOk(s, idle) && s.current.Some? && s.current != Some(idle)
    requires i in s.sems && s.sems[i].lock <= 0
    ensures Switchable(Park(s, i)) && Switch(Park(s, i)).Done?
    ensures Inv(Switch(Park(s, i)).s) <==> !s.critical
  {
    hide QueuesOk, SemsOk;
    ParkSwitchable(s, i);
    ParkRunning(s, i);
    if !s.critical { SwitchKeepsIdle(Park(s, i), idle); }
  }

  // ----- bounded waiting

  /** The operation makes the scheduler choose again. */
  ghost predicate IsSwitch(s: Sched, op: Op) {
    !s.critical && s.current.Some? &&
    match op
    case Tick => true
    case Yield => true
    case Block(t) => s.current == Some(t)
    case Sleep(t) => s.current == Some(t)
    case Wait(i) => i in s.sems && s.sems[i].lock <= 0
    case _ => false
  }

  /** `t` is ready at level `p` and no higher level has a ready thread. */
  ghost predicate Waiting(s: Sched, t: Tid, p: nat) {
    && p < |s.ready| && t in s.ready[p]
    && t in s.threads && s.threads[t] == Tcb(READY, p)
    && forall q :: 0 <= q < p ==> s.ready[q] == []
  }

  ghost predicate RunsAt(s: Sched, p: nat) {
    s.current.Some? && s.current.value in s.threads && s.threads[s.current.value].priority == p
  }

  /** How many switches `t` may still have to wait for. */
  ghost function Distance(s: Sched, t: Tid, p: nat): nat
    requires Waiting(s, t, p)
  {
    IndexIn(s.ready[p], t) + if RunsAt(s, p) then 0 else 1
  }

  lemma IndexOfDistinct(s: seq<Tid>, k: nat)
    requires Distinct(s) && k < |s|
    ensures IndexIn(s, s[k]) == k
  {
    var j := IndexIn(s, s[k]);
    assert j == k;
  }

  lemma AppendIndex(s: seq<Tid>, x: Tid, t: Tid)
    requires t in s
    ensures IndexIn(s + [x], t) == IndexIn(s, t)
  {
    var k, w := IndexIn(s, t), s + [x];
    assert w[k] == t;
    var j := IndexIn(w, t);
    assert w[..k] == s[..k];
    assert j == k;
  }

  lemma RotatedIndex(s: seq<Tid>, t: Tid)
    requires Distinct(s) && t in s && IndexIn(s, t) > 0
    ensures t in Rotated(s) && IndexIn(Rotated(s), t) == IndexIn(s, t) - 1
  {
    RotatedMembers(s);
    IndexOfDistinct(Rotated(s), IndexIn(s, t) - 1);
  }

  lemma LevelDistinct(s: Sched, p: nat)
    requires QueuesOk(s) && p < |s.ready|
    ensures Distinct(s.ready[p])
  {
    assert Distinct(Queue(s, ReadyQ(p)));
  }

  /** A switch chooses at level `p`; unless it chooses `t`, `t` is `k` places from the head. */
  lemma SwitchDistance(s: Sched, t: Tid, p: nat)
    requires QueuesOk(s) && Switchable(s) && !s.critical && (CurrentOk(s) || NoneRunning(s))
    requires Waiting(s, t, p) && Switch(s).Done? && Waiting(Switch(s).s, t, p)
    ensures Distance(Switch(s).s, t, p) ==
              if CurrentOk(s) && s.threads[s.current.value].priority == p then IndexIn(s.ready[p], t) - 1
              else IndexIn(s.ready[p], t)
  {
    hide QueuesOk;
    LevelDistinct(s, p);
    if CurrentOk(s) && s.threads[s.current.value].priority == p {
      HeadIndex(s.ready[p], t);
      RotatedIndex(s.ready[p], t);
    }
    PreemptKeeps(s);
    hide CurrentOk;
    var s1 := Preempt(s);
    ReadyThread(s1, p, s1.ready[p][0]);
    assert FirstNonEmpty(s1.ready, 0) == Some(p);
  }

  lemma HeadIndex(s: seq<Tid>, t: Tid)
    requires t in s && s[0] != t
    ensures IndexIn(s, t) > 0
  {
  }

  /** The operation never makes the scheduler choose again. */
  ghost predicate IsQuiet(op: Op) {
    op.Insert? || op.Notify? || op.Signal? || op.InitSem? || op.EnterCritical? || op.LeaveCritical?
  }

  lemma QuietDistance(s: Sched, idle: Tid, op: Op, t: Tid, p: nat)
    requires Inv(s) && Legal(s, idle, op) && IsQuiet(op) && Apply(s, idle, op).Done?
    requires Waiting(s, t, p) && Waiting(Apply(s, idle, op).s, t, p)
    ensures !IsSwitch(s, op) && Distance(Apply(s, idle, op).s, t, p) == Distance(s, t, p)
  {
    hide QueuesOk, SemsOk, Waiting, Distance, Switch;
    InvParts(s);
    var r := Apply(s, idle, op).s;
    match op
    case Insert(u, q) => AppendDistance(s, r, u, q, t, p);
    case Notify(u) =>
      if s.threads[u].state == BLOCK { AppendDistance(s, r, u, s.threads[u].priority, t, p); }
    case Signal(i) =>
      if s.sems[i].waiting != [] {
        var u := s.sems[i].waiting[0];
        BlockedThread(s, u, SemQ(i));
        AppendDistance(s, r, u, s.threads[u].priority, t, p);
      } else {
        StillDistance(s, r, t, p);
      }
    case InitSem(_, _) => StillDistance(s, r, t, p);
    case EnterCritical => StillDistance(s, r, t, p);
    case LeaveCritical => StillDistance(s, r, t, p);
    case _ =>
  }

  /** Each switch brings a waiting thread one place nearer; nothing moves it back. */
  lemma StepDistance(s: Sched, idle: Tid, op: Op, t: Tid, p: nat)
    requires Inv(s) && IdleOk(s, idle) && Legal(s, idle, op) && Apply(s, idle, op).Done?
    requires Waiting(s, t, p) && Waiting(Apply(s, idle, op).s, t, p)
    ensures Distance(Apply(s, idle, op).s, t, p) + (if IsSwitch(s, op) then 1 else 0) <= Distance(s, t, p)
  {
    if IsQuiet(op) {
      hide *;
      QuietDistance(s, idle, op, t, p);
    } else {
      LoudDistance(s, idle, op, t, p);
    }
  }

  lemma LoudDistance(s: Sched, idle: Tid, op: Op, t: Tid, p: nat)
    requires Inv(s) && Legal(s, idle, op) && !IsQuiet(op) && Apply(s, idle, op).Done?
    requires Waiting(s, t, p) && Waiting(Apply(s, idle, op).s, t, p)
    ensures Distance(Apply(s, idle, op).s, t, p) + (if IsSwitch(s, op) then 1 else 0) <= Distance(s, t, p)
  {
    hide QueuesOk, SemsOk, CurrentOk, Waiting, Distance, Switch;
    InvParts(s);
    CriticalSwitch(s);
    match op
    case Start => StartDistance(s, idle, t, p);
    case Block(u) => SuspendDistance(s, u, false, t, p);
    case Sleep(u) => SuspendDistance(s, u, true, t, p);
    case Wait(i) =>
      if s.sems[i].lock <= 0 { WaitDistance(s, i, t, p); } else { StillDistance(s, Apply(s, idle, op).s, t, p); }
    case Tick => if IsSwitch(s, op) { TickDistance(s, t, p); } else { StillDistance(s, Apply(s, idle, op).s, t, p); }
    case Yield => if IsSwitch(s, op) { TickDistance(s, t, p); } else { StillDistance(s, Apply(s, idle, op).s, t, p); }
    case _ =>
  }

  lemma CriticalSwitch(s: Sched)
    ensures Switchable(s) && s.critical ==> Switch(s) == Done(s)
  {
  }

  lemma StillDistance(s: Sched, s': Sched, t: Tid, p: nat)
    requires s'.ready == s.ready && s'.current == s.current && s'.threads == s.threads
    requires Waiting(s, t, p) && Waiting(s', t, p)
    ensures Distance(s', t, p) == Distance(s, t, p)
  {
  }

  /** A thread that joins the back of any ready queue does not delay `t`. */
  lemma AppendDistance(s: Sched, s': Sched, u: Tid, q: nat, t: Tid, p: nat)
    requires q < |s.ready| && s'.ready == s.ready[q := s.ready[q] + [u]] && s'.current == s.current
    requires s'.threads.Keys == s.threads.Keys + {u}
    requires forall v :: v in s.threads ==> s'.threads[v].priority == s.threads[v].priority
    requires CurrentOk(s)
    requires Waiting(s, t, p) && Waiting(s', t, p)
    ensures Distance(s', t, p) == Distance(s, t, p)
  {
    if q == p { AppendIndex(s.ready[p], u, t); }
  }

  lemma TickDistance(s: Sched, t: Tid, p: nat)
    requires Inv(s) && Switchable(s) && !s.critical
    requires Waiting(s, t, p) && Switch(s).Done? && Waiting(Switch(s).s, t, p)
    ensures Distance(Switch(s).s, t, p) + 1 <= Distance(s, t, p)
  {
    hide QueuesOk;
    SwitchDistance(s, t, p);
  }

  lemma StartDistance(s: Sched, idle: Tid, t: Tid, p: nat)
    requires Inv(s) && Legal(s, idle, Start) && Apply(s, idle, Start).Done?
    requires Waiting(s, t, p) && Waiting(Apply(s, idle, Start).s, t, p)
    ensures Distance(Apply(s, idle, Start).s, t, p) <= Distance(s, t, p)
  {
    hide QueuesOk;
  }

  lemma SuspendDistance(s: Sched, u: Tid, asleep: bool, t: Tid, p: nat)
    requires Inv(s) && u in s.threads && Waiting(s, t, p)
    requires Suspend(s, u, asleep).Done? && Waiting(Suspend(s, u, asleep).s, t, p)
    requires s.current == Some(u) ==> !s.critical
    ensures Distance(Suspend(s, u, asleep).s, t, p) + (if s.current == Some(u) then 1 else 0) <= Distance(s, t, p)
  {
    hide QueuesOk, SemsOk, Waiting, Distance, Switch;
    InReadyQueue(s, u);
    if s.threads[u].state == READY {
      ReadyLeaves(s, u, asleep, t, p);
    } else {
      RunningLeaves(s, u, asleep, t, p);
    }
  }

  lemma ReadyLeaves(s: Sched, u: Tid, asleep: bool, t: Tid, p: nat)
    requires Inv(s) && u in s.threads && s.threads[u].state == READY && Waiting(s, t, p)
    requires Suspend(s, u, asleep).Done? && Waiting(Suspend(s, u, asleep).s, t, p)
    ensures s.current != Some(u) && Distance(Suspend(s, u, asleep).s, t, p) <= Distance(s, t, p)
  {
    hide QueuesOk;
    InReadyQueue(s, u);
    LevelDistinct(s, p);
    if s.threads[u].priority == p { WithoutIndex(s.ready[p], u, t); }
  }

  lemma RunningLeaves(s: Sched, u: Tid, asleep: bool, t: Tid, p: nat)
    requires Inv(s) && s.current == Some(u) && !s.critical && Waiting(s, t, p)
    requires Suspend(s, u, asleep).Done? && Waiting(Suspend(s, u, asleep).s, t, p)
    ensures Distance(Suspend(s, u, asleep).s, t, p) + 1 <= Distance(s, t, p)
  {
    hide QueuesOk, Switch;
    InReadyQueue(s, u);
    LevelDistinct(s, p);
    var q := s.threads[u].priority;
    SuspendRunning(s, u, asleep);
    SuspendSwitchable(s, u, asleep);
    assert s.ready[q][1..] == Without(s.ready[q], u) by { assert IndexIn(s.ready[q], u) == 0; }
    if q == p { WithoutIndex(s.ready[p], u, t); HeadIndex(s.ready[p], t); }
    SwitchDistance(Enqueue(SetReady(s, q, s.ready[q][1..]), u, asleep), t, p);
  }

  lemma WaitDistance(s: Sched, i: SemId, t: Tid, p: nat)
    requires Inv(s) && i in s.sems && s.sems[i].lock <= 0 && s.current.Some? && !s.critical && Waiting(s, t, p)
    requires Switchable(Park(s, i)) && Switch(Park(s, i)).Done? && Waiting(Switch(Park(s, i)).s, t, p)
    ensures Distance(Switch(Park(s, i)).s, t, p) + 1 <= Distance(s, t, p)
  {
    hide QueuesOk;
    var c := s.current.value;
    LevelDistinct(s, p);
    ParkRunning(s, i);
    if s.threads[c].priority == p { WithoutIndex(s.ready[p], c, t); HeadIndex(s.ready[p], t); }
    SwitchDistance(Park(s, i), t, p);
  }

  ghost function Switches(ss: seq<Sched>, ops: seq<Op>): nat
    requires |ss| == |ops| + 1
  {
    if ops == [] then 0
    else Switches(ss[..|ops|], ops[..|ops| - 1]) + if IsSwitch(ss[|ops| - 1], ops[|ops| - 1]) then 1 else 0
  }

  lemma {:induction false} DistanceOverRun(ss: seq<Sched>, ops: seq<Op>, idle: Tid, t: Tid, p: nat)
    requires IsRun(ss, ops, idle) && Inv(ss[0]) && IdleOk(ss[0], idle)
    requires forall k :: 0 <= k <= |ops| ==> Waiting(ss[k], t, p)
    ensures Distance(ss[|ops|], t, p) + Switches(ss, ops) <= Distance(ss[0], t, p)
    decreases |ops|
  {
    hide Inv, IdleOk, Legal, Apply, Waiting, Distance, IsSwitch;
    if ops != [] {
      var n := |ops| - 1;
      RunKeepsInvariant(ss, ops, idle);
      assert forall k :: 0 <= k <= n ==> ss[..n + 1][k] == ss[k];
      DistanceOverRun(ss[..n + 1], ops[..n], idle, t, p);
      assert StepTo(ss[n], idle, ops[n], ss[n + 1]);
      StepDistance(ss[n], idle, ops[n], t, p);
    }
  }

  /** Bounded waiting.  A thread at position k of the best non-empty ready level sees at most
      k switches go by without running, whatever joins or leaves its queue meanwhile; so by
      the (k+1)-st it has run. */
  lemma RunsWithinPosition(ss: seq<Sched>, ops: seq<Op>, idle: Tid, t: Tid, p: nat)
    requires IsRun(ss, ops, idle) && Inv(ss[0]) && IdleOk(ss[0], idle)
    requires forall k :: 0 <= k <= |ops| ==> Waiting(ss[k], t, p)
    ensures Waiting(ss[0], t, p) && Switches(ss, ops) <= IndexIn(ss[0].ready[p], t)
  {
    DistanceOverRun(ss, ops, idle, t, p);
    RunKeepsInvariant(ss, ops, idle);
    StillWaiting(ss[|ops|], t, p);
  }

  lemma StillWaiting(s: Sched, t: Tid, p: nat)
    requires Inv(s) && Waiting(s, t, p)
    ensures Distance(s, t, p) >= 1
  {
    hide QueuesOk;
    if RunsAt(s, p) { HeadIndex(s.ready[p], t); }
  }

  // ----- semaphore accounting

  /** What happened at one semaphore: who called wait, who got past it, how many signals. */
  datatype Log = Log(arrived: seq<Tid>, passed: seq<Tid>, signals: nat)

  ghost function LogStep(s: Sched, op: Op, i: SemId, log: Log): Log {
    if op == Wait(i) && i in s.sems && s.current.Some? then
      var c := s.current.value;
      log.(arrived := log.arrived + [c], passed := if s.sems[i].lock > 0 then log.passed + [c] else log.passed)
    else if op == Signal(i) && i in s.sems then
      var w := s.sems[i].waiting;
      log.(signals := log.signals + 1, passed := if w != [] then log.passed + [w[0]] else log.passed)
    else log
  }

  ghost function RunLog(ss: seq<Sched>, ops: seq<Op>, i: SemId): Log
    requires |ss| == |ops| + 1
  {
    if ops == [] then Log([], [], 0)
    else LogStep(ss[|ops| - 1], ops[|ops| - 1], i, RunLog(ss[..|ops|], ops[..|ops| - 1], i))
  }

  /** Units are conserved, the count falls below neither 0 nor its initial value, and waiters pass
      in arrival order. */
  ghost predicate Accounts(sem: Semaphore, initial: int, log: Log) {
    && sem.lock == initial + log.signals - |log.passed|
    && sem.lock >= (if initial < 0 then initial else 0)
    && log.arrived == log.passed + sem.waiting
  }

  lemma StepAccounts(s: Sched, idle: Tid, op: Op, i: SemId, initial: int, log: Log)
    requires Inv(s) && Legal(s, idle, op) && Apply(s, idle, op).Done? && i in s.sems
               && Accounts(s.sems[i], initial, log)
    ensures var s' := Apply(s, idle, op).s;
            i in s'.sems && Accounts(s'.sems[i], initial, LogStep(s, op, i, log))
  {
    hide QueuesOk, CurrentOk;
    if op == Wait(i) {
      if s.sems[i].lock <= 0 {
        ParkSwitchable(s, i);
        SwitchKeepsSems(Park(s, i));
      }
    } else if op == Signal(i) {
      if s.sems[i].waiting != [] { assert s.sems[i].waiting == [s.sems[i].waiting[0]] + s.sems[i].waiting[1..]; }
    } else {
      OtherStepKeepsSem(s, idle, op, i);
    }
  }

  lemma SwitchKeepsSems(s: Sched)
    requires Switchable(s) && Switch(s).Done?
    ensures Switch(s).s.sems == s.sems
  {
  }

  lemma OtherStepKeepsSem(s: Sched, idle: Tid, op: Op, i: SemId)
    requires Inv(s) && Legal(s, idle, op) && Apply(s, idle, op).Done? && i in s.sems && op != Wait(i) && op != Signal(i)
    ensures i in Apply(s, idle, op).s.sems && Apply(s, idle, op).s.sems[i] == s.sems[i]
  {
    InvSwitchable(s);
    hide QueuesOk, CurrentOk;
    match op
    case Tick => if s.current.Some? { SwitchKeepsSems(s); }
    case Yield => SwitchKeepsSems(s);
    case Block(t) => SuspendKeepsSems(s, t, false);
    case Sleep(t) => SuspendKeepsSems(s, t, true);
    case Wait(j) =>
      if s.sems[j].lock <= 0 {
        ParkSwitchable(s, j);
        SwitchKeepsSems(Park(s, j));
      }
    case _ =>
  }

  lemma SuspendKeepsSems(s: Sched, t: Tid, asleep: bool)
    requires Inv(s) && t in s.threads && Suspend(s, t, asleep).Done?
    ensures Suspend(s, t, asleep).s.sems == s.sems
  {
    hide QueuesOk, CurrentOk;
    InReadyQueue(s, t);
    if s.threads[t].state == RUNNING {
      SuspendSwitchable(s, t, asleep);
      SwitchKeepsSems(Enqueue(SetReady(s, s.threads[t].priority, s.ready[s.threads[t].priority][1..]), t, asleep));
    }
  }

  /** Over every run, whatever int32 a semaphore starts with: its count is that value plus signals
      minus the waits that passed (hand-offs counted as passed), it never falls below both 0 and
      that value, nobody waits while there are units, and threads pass in the order in which they
      arrived. */
  lemma {:induction false} SemaphoreAccounting(ss: seq<Sched>, ops: seq<Op>, idle: Tid, i: SemId)
    requires IsRun(ss, ops, idle) && Inv(ss[0]) && IdleOk(ss[0], idle)
    requires i in ss[0].sems && ss[0].sems[i].waiting == []
    ensures var log, s, initial := RunLog(ss, ops, i), ss[|ops|], ss[0].sems[i].lock;
            && i in s.sems
            && s.sems[i].lock == initial + log.signals - |log.passed|
            && s.sems[i].lock >= (if initial < 0 then initial else 0)
            && (s.sems[i].waiting != [] ==> s.sems[i].lock <= 0)
            && log.arrived == log.passed + s.sems[i].waiting
    decreases |ops|
  {
    hide IdleOk, Legal, Apply, QueuesOk, CurrentOk, LogStep;
    RunKeepsInvariant(ss, ops, idle);
    if ops != [] {
      var n := |ops| - 1;
      assert forall k :: 0 <= k <= n ==> ss[..n + 1][k] == ss[k];
      SemaphoreAccounting(ss[..n + 1], ops[..n], idle, i);
      assert StepTo(ss[n], idle, ops[n], ss[n + 1]);
      StepAccounts(ss[n], idle, ops[n], i, ss[0].sems[i].lock, RunLog(ss[..n + 1], ops[..n], i));
    }
  }

  /** A count that is never negative, and zero while anyone waits. */
  ghost predicate Counting(sem: Semaphore) {
    sem.lock >= 0 && (sem.waiting != [] ==> sem.lock == 0)
  }

  /** So a semaphore counts units at every state of a run exactly when it starts with none owed. */
  lemma CountsIff(ss: seq<Sched>, ops: seq<Op>, idle: Tid, i: SemId)
    requires IsRun(ss, ops, idle) && Inv(ss[0]) && IdleOk(ss[0], idle)
    requires i in ss[0].sems && ss[0].sems[i].waiting == []
    ensures ss[0].sems[i].lock >= 0 <==> forall k :: 0 <= k <= |ops| ==> i in ss[k].sems && Counting(ss[k].sems[i])
  {
    hide IdleOk, StepTo, Inv, RunLog;
    if ss[0].sems[i].lock >= 0 {
      forall k | 0 <= k <= |ops| ensures i in ss[k].sems && Counting(ss[k].sems[i]) {
        assert forall n :: 0 <= n <= k ==> ss[..k + 1][n] == ss[n];
        SemaphoreAccounting(ss[..k + 1], ops[..k], idle, i);
      }
    } else {
      assert !Counting(ss[0].sems[i]);
    }
  }

  /** With units owed, a thread that waits leaves the count negative while it waits: the next signal
      lets it pass all the same. */
  lemma OwedWait(s: Sched, idle: Tid, i: SemId)
    requires Inv(s) && IdleOk(s, idle) && Legal(s, idle, Wait(i)) && s.sems[i].lock < 0
    ensures Apply(s, idle, Wait(i)).Done?
    ensures var r := Apply(s, idle, Wait(i)).s;
            i in r.sems && r.sems[i].waiting == s.sems[i].waiting + [s.current.value]
                && r.sems[i].lock == s.sems[i].lock < 0
  {
    hide QueuesOk, Switch;
    WaitKeeps(s, idle, i);
    ParkSwitchable(s, i);
    SwitchKeepsSems(Park(s, i));
  }
}
