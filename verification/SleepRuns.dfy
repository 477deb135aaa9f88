/** Runs of the scheduler with the wake-up pass of every tick. */
module SleepRuns {
  import opened ListSpec
  import opened SchedulerSpec
  import opened SchedulerSafety
  import opened SleepWake
  import R = SchedulerRuns

  datatype Clocked = Clocked(s: Sched, times: Times)

  /** A step of the scheduler, where thread_sleep also stores `time`; or a pass. */
  datatype Act = Call(op: Op, time: nat) | Pass(elapsed: nat)

  /** The invariant, with a time for every sleeper. */
  ghost predicate Sound(c: Clocked, idle: Tid) {
    Inv(c.s) && IdleOk(c.s, idle) && forall t :: t in c.s.sleep ==> t in c.times
  }

  lemma SoundTimed(c: Clocked, idle: Tid)
    requires Sound(c, idle)
    ensures Timed(c.s, c.times, c.s.sleep)
  {
    forall t | t in c.s.sleep ensures t in c.s.threads && c.s.threads[t].priority < |c.s.ready| { Sleeper(c.s, t); }
  }

  ghost function TimesAfter(times: Times, op: Op, time: nat): Times {
    if op.Sleep? then times[op.t := time] else times
  }

  /** The step is legal and leads from `c` to `d`. */
  ghost predicate StepTo(c: Clocked, idle: Tid, act: Act, d: Clocked) {
    match act
    case Call(op, time) =>
      && Legal(c.s, idle, op)
      && (Inv(c.s) ==> Apply(c.s, idle, op) == Done(d.s) && d.times == TimesAfter(c.times, op, time))
    case Pass(elapsed) =>
      && ExpiredFirst(c.s.sleep, c.times, elapsed)
      && (Timed(c.s, c.times, c.s.sleep) ==> DecreaseSleepTime(c.s, c.times, elapsed) == Woken(d.s, d.times))
  }

  ghost predicate IsRun(cs: seq<Clocked>, acts: seq<Act>, idle: Tid) {
    |cs| == |acts| + 1 && forall k :: 0 <= k < |acts| ==> StepTo(cs[k], idle, acts[k], cs[k + 1])
  }

  // ----- one step

  /** Only thread_sleep adds to the sleep queue, and no call takes a thread out of it. */
  lemma CallSleepers(s: Sched, idle: Tid, op: Op)
    requires Inv(s) && Legal(s, idle, op) && Apply(s, idle, op).Done?
    ensures op.Sleep? ==> op.t !in s.sleep
    ensures Apply(s, idle, op).s.sleep == if op.Sleep? then s.sleep + [op.t] else s.sleep
  {
    hide QueuesOk;
    if op.Sleep? && op.t in s.sleep { Sleeper(s, op.t); }
  }

  lemma StepSound(c: Clocked, idle: Tid, act: Act, d: Clocked)
    requires Sound(c, idle) && StepTo(c, idle, act, d)
    ensures Sound(d, idle)
  {
    hide Inv, IdleOk, Legal, Apply, Timed, ExpiredFirst, Due, WokenExactly;
    SoundTimed(c, idle);
    match act
    case Call(op, time) =>
      StepKeeps(c.s, idle, op);
      CallSleepers(c.s, idle, op);
    case Pass(elapsed) =>
      WakesExpired(c.s, c.times, elapsed);
      IdleStays(c.s, c.s.sleep[..Due(c.s.sleep, c.times, elapsed)], d.s, idle);
  }

  /** With a pass at any moment at which the expired sleepers stand first, every run keeps each
      thread in exactly the one queue that fits it. */
  lemma {:induction false} RunSound(cs: seq<Clocked>, acts: seq<Act>, idle: Tid, n: nat)
    requires IsRun(cs, acts, idle) && Sound(cs[0], idle) && n < |cs|
    ensures Sound(cs[n], idle)
  {
    hide Sound, StepTo;
    if n > 0 {
      RunSound(cs, acts, idle, n - 1);
      StepSound(cs[n - 1], idle, acts[n - 1], cs[n]);
    }
  }

  // ----- how long a thread sleeps

  /** The time that the passes of a run have counted. */
  ghost function Elapsed(acts: seq<Act>): nat {
    if acts == [] then 0
    else Elapsed(acts[..|acts| - 1]) + (if acts[|acts| - 1].Pass? then acts[|acts| - 1].elapsed else 0)
  }

  ghost predicate Sleeping(c: Clocked, t: Tid, left: nat) {
    t in c.s.sleep && t in c.times && c.times[t] == left
  }

  lemma StaysAsleep(c: Clocked, idle: Tid, act: Act, d: Clocked, t: Tid, left: nat)
    requires Sound(c, idle) && StepTo(c, idle, act, d) && Sleeping(c, t, left)
    requires act.Pass? ==> act.elapsed <= left
    ensures Sleeping(d, t, if act.Pass? then left - act.elapsed else left)
  {
    hide Inv, IdleOk, Legal, Apply, Timed, ExpiredFirst, Due, WokenExactly;
    SoundTimed(c, idle);
    match act
    case Call(op, time) => CallSleepers(c.s, idle, op);
    case Pass(elapsed) =>
      WakesExpired(c.s, c.times, elapsed);
      NotDue(c.s.sleep, c.times, elapsed, t);
  }

  lemma NotDue(q: seq<Tid>, times: Times, elapsed: nat, t: Tid)
    requires t in q && !Expired(times, elapsed, t)
    ensures t in q[Due(q, times, elapsed)..]
  {
    var j :| 0 <= j < |q| && q[j] == t;
    var k := Due(q, times, elapsed);
    assert j >= k && q[k..][j - k] == t;
  }

  lemma Wakes(c: Clocked, idle: Tid, elapsed: nat, d: Clocked, t: Tid, left: nat)
    requires Sound(c, idle) && StepTo(c, idle, Pass(elapsed), d) && Sleeping(c, t, left) && elapsed > left
    ensures t in d.s.threads && d.s.threads[t].state == READY && t !in d.s.sleep
    ensures t in Queue(d.s, ReadyQ(d.s.threads[t].priority))
  {
    hide QueuesOk, SemsOk, CurrentOk, Due, ExpiredFirst, Counted;
    SoundTimed(c, idle);
    WakesExpired(c.s, c.times, elapsed);
    DueOne(c.s.sleep, c.times, elapsed, t);
    InReadyQueue(d.s, t);
    if t in d.s.sleep { Sleeper(d.s, t); }
  }

  lemma DueOne(q: seq<Tid>, times: Times, elapsed: nat, t: Tid)
    requires t in q && Expired(times, elapsed, t) && ExpiredFirst(q, times, elapsed)
    ensures t in q[..Due(q, times, elapsed)]
  {
    var j :| 0 <= j < |q| && q[j] == t;
    var k := Due(q, times, elapsed);
    assert j < k && q[..k][j] == t;
  }

  /** A thread asleep with `left` to go is still asleep as long as the passes have counted no more
      than that, and the first pass that takes the count beyond it makes the thread ready. */
  lemma {:induction false} SleepsExactly(cs: seq<Clocked>, acts: seq<Act>, idle: Tid, t: Tid, left: nat, n: nat)
    requires IsRun(cs, acts, idle) && Sound(cs[0], idle) && Sleeping(cs[0], t, left) && n < |cs|
    ensures Elapsed(acts[..n]) <= left ==> Sleeping(cs[n], t, left - Elapsed(acts[..n]))
    ensures n > 0 && Elapsed(acts[..n - 1]) <= left < Elapsed(acts[..n]) ==>
              t in cs[n].s.threads && cs[n].s.threads[t].state == READY && t !in cs[n].s.sleep
              && t in Queue(cs[n].s, ReadyQ(cs[n].s.threads[t].priority))
  {
    hide Sound, StepTo, Sleeping, Queue;
    if n > 0 {
      assert acts[..n][..n - 1] == acts[..n - 1];
      SleepsExactly(cs, acts, idle, t, left, n - 1);
      RunSound(cs, acts, idle, n - 1);
      var before := Elapsed(acts[..n - 1]);
      if Elapsed(acts[..n]) <= left {
        StaysAsleep(cs[n - 1], idle, acts[n - 1], cs[n], t, left - before);
      } else if before <= left {
        Wakes(cs[n - 1], idle, acts[n - 1].elapsed, cs[n], t, left - before);
      }
    } else {
      assert acts[..0] == [];
    }
  }

  // ----- bounded waiting, with passes

  /** Woken threads join at the back, so a pass does not delay a waiting one. */
  lemma PassDistance(s: Sched, q: seq<Tid>, r: Sched, t: Tid, p: nat)
    requires WokenExactly(s, q, r) && R.Waiting(s, t, p) && R.Waiting(r, t, p)
    ensures R.Distance(r, t, p) == R.Distance(s, t, p)
  {
    PrefixIndex(s.ready[p], AtLevel(s, q, p), t);
  }

  lemma PrefixIndex(a: seq<Tid>, b: seq<Tid>, t: Tid)
    requires t in a
    ensures t in a + b && IndexIn(a + b, t) == IndexIn(a, t)
  {
    var k, w := IndexIn(a, t), a + b;
    assert w[k] == t;
    var j := IndexIn(w, t);
    assert w[..k] == a[..k];
    assert j == k;
  }

  ghost predicate Switching(c: Clocked, act: Act) {
    act.Call? && R.IsSwitch(c.s, act.op)
  }

  ghost function Switches(cs: seq<Clocked>, acts: seq<Act>): nat
    requires |cs| == |acts| + 1
  {
    if acts == [] then 0
    else Switches(cs[..|acts|], acts[..|acts| - 1]) + if Switching(cs[|acts| - 1], acts[|acts| - 1]) then 1 else 0
  }

  lemma StepDistance(c: Clocked, idle: Tid, act: Act, d: Clocked, t: Tid, p: nat)
    requires Sound(c, idle) && StepTo(c, idle, act, d) && R.Waiting(c.s, t, p) && R.Waiting(d.s, t, p)
    ensures R.Distance(d.s, t, p) + (if Switching(c, act) then 1 else 0) <= R.Distance(c.s, t, p)
  {
    hide Inv, IdleOk, Legal, Apply, Timed, ExpiredFirst, Due, WokenExactly, Counted, R.Waiting, R.Distance;
    SoundTimed(c, idle);
    match act
    case Call(op, time) => R.StepDistance(c.s, idle, op, t, p);
    case Pass(elapsed) =>
      WakesExpired(c.s, c.times, elapsed);
      PassDistance(c.s, c.s.sleep[..Due(c.s.sleep, c.times, elapsed)], d.s, t, p);
  }

  lemma {:induction false} DistanceOverRun(cs: seq<Clocked>, acts: seq<Act>, idle: Tid, t: Tid, p: nat)
    requires IsRun(cs, acts, idle) && Sound(cs[0], idle)
    requires forall k :: 0 <= k <= |acts| ==> R.Waiting(cs[k].s, t, p)
    ensures R.Distance(cs[|acts|].s, t, p) + Switches(cs, acts) <= R.Distance(cs[0].s, t, p)
    decreases |acts|
  {
    hide Sound, StepTo, R.Waiting, R.Distance, Switching;
    if acts != [] {
      var n := |acts| - 1;
      RunSound(cs, acts, idle, n);
      assert forall k :: 0 <= k <= n ==> cs[..n + 1][k] == cs[k];
      DistanceOverRun(cs[..n + 1], acts[..n], idle, t, p);
      StepDistance(cs[n], idle, acts[n], cs[n + 1], t, p);
    }
  }

  /** A thread at place k of the best ready level sees at most k switches before it runs, whoever
      joins, leaves, sleeps or is woken meanwhile. */
  lemma RunsWithinPosition(cs: seq<Clocked>, acts: seq<Act>, idle: Tid, t: Tid, p: nat)
    requires IsRun(cs, acts, idle) && Sound(cs[0], idle)
    requires forall k :: 0 <= k <= |acts| ==> R.Waiting(cs[k].s, t, p)
    ensures R.Waiting(cs[0].s, t, p) && Switches(cs, acts) <= IndexIn(cs[0].s.ready[p], t)
  {
    hide StepTo, Switches, Inv;
    DistanceOverRun(cs, acts, idle, t, p);
    RunSound(cs, acts, idle, |acts|);
    R.StillWaiting(cs[|acts|].s, t, p);
  }
}
