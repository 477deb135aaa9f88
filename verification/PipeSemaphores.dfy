/** The pipe's semaphores are the scheduler's, with one thread that ever waits on each
    (MeOS/pipe.cpp:66-86, MeOS/semaphore.cpp:11-62). */
module PipeSemaphores {
  import opened Options
  import opened PipeSpec
  import S = SchedulerSpec
  import SchedulerSafety
  import SchedulerRuns

  /** The scheduler's semaphore as the pipe sees it, when only `t` ever waits on it. */
  ghost predicate Stands(m: Sem, sem: S.Semaphore, t: S.Tid) {
    sem.lock == m.lock && sem.waiting == if m.waiting then [t] else []
  }

  /** A wait by the current thread `t`: the pipe's view of the semaphore follows, and the thread is
      off the ready queues exactly when the pipe has it waiting. */
  lemma WaitStands(s: S.Sched, idle: S.Tid, i: S.SemId, t: S.Tid, m: Sem)
    requires S.Inv(s) && SchedulerSafety.IdleOk(s, idle) && S.Legal(s, idle, S.Wait(i)) && s.current == Some(t)
    requires Stands(m, s.sems[i], t) && !m.waiting
    ensures S.Apply(s, idle, S.Wait(i)).Done?
    ensures var r := S.Apply(s, idle, S.Wait(i)).s;
            && i in r.sems && Stands(Waited(m), r.sems[i], t)
            && t in r.threads && (r.threads[t].state == S.BLOCK <==> Waited(m).waiting)
  {
    hide S.QueuesOk, S.Switch;
    SchedulerSafety.WaitKeeps(s, idle, i);
    if s.sems[i].lock <= 0 {
      S.ParkSwitchable(s, i);
      SchedulerRuns.SwitchKeepsSems(S.Park(s, i));
      SchedulerSafety.ParkRunning(s, i);
      ParkedStays(s, i, t);
    }
  }

  lemma ParkedStays(s: S.Sched, i: S.SemId, t: S.Tid)
    requires S.Inv(s) && s.current == Some(t) && i in s.sems && s.sems[i].lock <= 0
    requires S.Switchable(S.Park(s, i)) && S.Switch(S.Park(s, i)).Done?
    ensures var r := S.Switch(S.Park(s, i)).s; t in r.threads && r.threads[t].state == S.BLOCK
  {
    hide S.QueuesOk;
  }

  /** A signal: a unit handed to the waiting thread makes it ready, as the pipe has it go on. */
  lemma SignalStands(s: S.Sched, idle: S.Tid, i: S.SemId, t: S.Tid, m: Sem)
    requires S.Inv(s) && SchedulerSafety.IdleOk(s, idle) && S.Legal(s, idle, S.Signal(i)) && Stands(m, s.sems[i], t)
    ensures S.Apply(s, idle, S.Signal(i)).Done?
    ensures var r := S.Apply(s, idle, S.Signal(i)).s;
            && i in r.sems && Stands(Signalled(m), r.sems[i], t)
            && (m.waiting ==>
                t in r.threads && r.threads[t].state == S.READY && t in S.Queue(r, S.ReadyQ(r.threads[t].priority)))
  {
    hide S.QueuesOk;
    SchedulerSafety.SignalKeeps(s, idle, i);
    if m.waiting {
      assert s.sems[i].waiting[0] == t;
      SchedulerSafety.BlockedThread(s, t, S.SemQ(i));
    }
  }
}
