/** The wake-up loop over the sleep queue (MeOS/thread_sched.cpp:48-79).

    The loop keeps the last sleeper it passed, and once there is one, an expired thread behind it
    has THAT node unlinked and queued while its own stays.  So the loop is sound exactly when no
    expired sleeper stands behind one that is not. */
module SleepWake {
  import opened Options
  import opened ListSpec
  import opened SchedulerSpec
  import opened SchedulerSafety

  /** The sleep_time left to each thread. */
  type Times = map<Tid, nat>

  /** Stray: the node to unlink is not in the sleep queue. */
  datatype Woken = Woken(s: Sched, times: Times) | Stray

  /** What the loop needs of a queue: each thread has a TCB, a level and a time. */
  ghost predicate Timed(s: Sched, times: Times, q: seq<Tid>) {
    forall t :: t in q ==> t in s.threads && s.threads[t].priority < |s.ready| && t in times
  }

  /** Thread `t` becomes ready, and the node of `u` goes from the sleep queue, which keeps `left`,
      to the level of `t`. */
  function Hand(s: Sched, t: Tid, u: Tid, left: seq<Tid>): (r: Sched)
    requires t in s.threads && s.threads[t].priority < |s.ready|
    ensures r.threads.Keys == s.threads.Keys && |r.ready| == |s.ready|
    ensures forall x :: x in s.threads ==> r.threads[x].priority == s.threads[x].priority
  {
    var p := s.threads[t].priority;
    SetReady(SetState(s, t, READY), p, s.ready[p] + [u]).(sleep := left)
  }

  /** The loop from the sleepers `todo` on, with `prev` the last one passed. */
  function Wake(s: Sched, times: Times, elapsed: nat, todo: seq<Tid>, prev: Option<Tid>): Woken
    requires Timed(s, times, todo)
    decreases |todo|
  {
    if todo == [] then Woken(s, times)
    else
      var t := todo[0];
      assert forall x :: x in todo[1..] ==> x in todo;
      if elapsed > times[t] then
        match prev
        case None =>
          if s.sleep == [] then Stray
          else Wake(Hand(s, t, s.sleep[0], s.sleep[1..]), times[t := 0], elapsed, todo[1..], None)
        case Some(u) =>
          if u !in s.sleep then Stray
          else Wake(Hand(s, t, u, Without(s.sleep, u)), times[t := 0], elapsed, todo[1..], prev)
      else Wake(s, times[t := times[t] - elapsed], elapsed, todo[1..], Some(t))
  }

  /** scheduler_decrease_sleep_time */
  ghost function DecreaseSleepTime(s: Sched, times: Times, elapsed: nat): Woken
    requires Timed(s, times, s.sleep)
  {
    Wake(s, times, elapsed, s.sleep, None)
  }

  ghost predicate Expired(times: Times, elapsed: nat, t: Tid) {
    t in times && elapsed > times[t]
  }

  /** No expired sleeper stands behind one that is not. */
  ghost predicate ExpiredFirst(q: seq<Tid>, times: Times, elapsed: nat) {
    forall i, j :: 0 <= i < j < |q| && Expired(times, elapsed, q[j]) ==> Expired(times, elapsed, q[i])
  }

  /** How many sleepers at the front have expired. */
  ghost function Due(q: seq<Tid>, times: Times, elapsed: nat): (k: nat)
    ensures k <= |q| && (forall i :: 0 <= i < k ==> Expired(times, elapsed, q[i]))
    ensures k < |q| ==> !Expired(times, elapsed, q[k])
  {
    if q == [] || !Expired(times, elapsed, q[0]) then 0 else 1 + Due(q[1..], times, elapsed)
  }

  // ----- the sound case

  /** One right move: the front sleeper to its level. */
  lemma HandKeeps(s: Sched)
    requires Inv(s) && s.sleep != []
    ensures var t := s.sleep[0];
            t in s.threads && s.threads[t].priority < |s.ready| && s.threads[t].state == SLEEP
            && Inv(Hand(s, t, t, s.sleep[1..]))
  {
    hide QueuesOk;
    var t := s.sleep[0];
    assert t in Queue(s, SleepQ);
    Sleeper(s, t);
    var r := Hand(s, t, t, s.sleep[1..]);
    assert IndexIn(s.sleep, t) == 0 && s.sleep[1..] == Without(s.sleep, t);
    assert Moves(s, r, t, SleepQ, ReadyQ(s.threads[t].priority));
    MovesKeepsQueues(s, r, t, r.threads[t], SleepQ, ReadyQ(s.threads[t].priority));
    HeadAfterAppend(s, r, t);
  }

  lemma Sleeper(s: Sched, t: Tid)
    requires QueuesOk(s) && t in s.sleep
    ensures t in s.threads && s.threads[t].priority < |s.ready| == NUMBER_PRIORITIES && s.threads[t].state == SLEEP
  {
    assert t in Queue(s, SleepQ);
  }

  lemma SleepDistinct(s: Sched)
    requires QueuesOk(s)
    ensures Distinct(s.sleep)
  {
    assert Distinct(Queue(s, SleepQ));
  }

  /** The threads of `q` at level `p`, in order. */
  ghost function AtLevel(s: Sched, q: seq<Tid>, p: nat): seq<Tid> {
    if q == [] then []
    else (if q[0] in s.threads && s.threads[q[0]].priority == p then [q[0]] else []) + AtLevel(s, q[1..], p)
  }

  /** The states, levels and queues after exactly the sleepers `q` have been woken, in order. */
  ghost predicate WokenExactly(s: Sched, q: seq<Tid>, r: Sched) {
    && r.threads.Keys == s.threads.Keys && |r.ready| == |s.ready|
    && (forall t :: t in s.threads ==> r.threads[t] == if t in q then s.threads[t].(state := READY) else s.threads[t])
    && (forall p :: 0 <= p < |s.ready| ==> r.ready[p] == s.ready[p] + AtLevel(s, q, p))
    && r == s.(threads := r.threads, ready := r.ready, sleep := r.sleep)
  }

  /** Being woken does not hurt the idle thread. */
  lemma IdleStays(s: Sched, q: seq<Tid>, r: Sched, idle: Tid)
    requires IdleOk(s, idle) && WokenExactly(s, q, r)
    ensures IdleOk(r, idle)
  {
  }

  lemma HandThen(s: Sched, q: seq<Tid>, left: seq<Tid>, r: Sched)
    requires q != [] && q[0] in s.threads && s.threads[q[0]].priority < |s.ready|
    requires WokenExactly(Hand(s, q[0], q[0], left), q[1..], r)
    ensures WokenExactly(s, q, r)
  {
    var h := Hand(s, q[0], q[0], left);
    forall p | 0 <= p < |s.ready| ensures r.ready[p] == s.ready[p] + AtLevel(s, q, p) {
      SameLevel(s, h, q[1..], p);
    }
    assert forall t :: t in q <==> t == q[0] || t in q[1..];
  }

  lemma {:induction false} SameLevel(s: Sched, h: Sched, q: seq<Tid>, p: nat)
    requires h.threads.Keys == s.threads.Keys
               && forall t :: t in s.threads ==> h.threads[t].priority == s.threads[t].priority
    ensures AtLevel(h, q, p) == AtLevel(s, q, p)
  {
    if q != [] { SameLevel(s, h, q[1..], p); }
  }

  /** The time a sleeper has left after a pass. */
  ghost predicate Counted(q: seq<Tid>, times: Times, elapsed: nat, times': Times) {
    && times'.Keys == times.Keys
    && forall t :: t in times ==>
        times'[t] == if t !in q then times[t] else if elapsed > times[t] then 0 else times[t] - elapsed
  }

  /** Behind the first sleeper that has not expired nothing more is done but counting down. */
  lemma {:induction false} OnlyCounts(s: Sched, times: Times, elapsed: nat, todo: seq<Tid>, prev: Option<Tid>)
    requires Timed(s, times, todo) && Distinct(todo) && forall t :: t in todo ==> !Expired(times, elapsed, t)
    ensures var r := Wake(s, times, elapsed, todo, prev);
            r.Woken? && r.s == s && Counted(todo, times, elapsed, r.times)
    decreases |todo|
  {
    if todo != [] {
      var t, rest := todo[0], todo[1..];
      assert forall x :: x in todo <==> x == t || x in rest;
      assert t !in rest;
      OnlyCounts(s, times[t := times[t] - elapsed], elapsed, rest, Some(t));
    }
  }

  lemma {:induction false} SameTimes(q: seq<Tid>, times: Times, times': Times, elapsed: nat)
    requires forall t :: t in q ==> (Expired(times, elapsed, t) <==> Expired(times', elapsed, t))
    ensures Due(q, times, elapsed) == Due(q, times', elapsed)
  {
    if q != [] { SameTimes(q[1..], times, times', elapsed); }
  }

  /** What a sound pass does to `s`: the first `k` sleepers are woken, the rest counted down. */
  ghost predicate Passed(s: Sched, times: Times, elapsed: nat, k: nat, r: Woken) {
    && r.Woken? && k <= |s.sleep|
    && r.s.sleep == s.sleep[k..] && WokenExactly(s, s.sleep[..k], r.s)
    && Counted(s.sleep, times, elapsed, r.times)
  }

  lemma PassedNone(s: Sched, times: Times, elapsed: nat, r: Woken)
    requires r.Woken? && r.s == s && Counted(s.sleep, times, elapsed, r.times)
    ensures Passed(s, times, elapsed, 0, r)
  {
    assert s.sleep[..0] == [] && s.sleep[0..] == s.sleep;
  }

  lemma PassedOne(s: Sched, times: Times, elapsed: nat, k: nat, r: Woken)
    requires s.sleep != [] && s.sleep[0] !in s.sleep[1..] && Timed(s, times, s.sleep) && elapsed > times[s.sleep[0]]
    requires Passed(Hand(s, s.sleep[0], s.sleep[0], s.sleep[1..]), times[s.sleep[0] := 0], elapsed, k, r)
    ensures Passed(s, times, elapsed, k + 1, r)
  {
    var q := s.sleep;
    HandShape(s, q[0], q[0], q[1..]);
    hide Hand;
    assert q[..k + 1][1..] == q[1..][..k] && q[k + 1..] == q[1..][k..];
    HandThen(s, q[..k + 1], q[1..], r.s);
    hide WokenExactly;
    assert forall x :: x in q <==> x == q[0] || x in q[1..];
  }

  /** When the expired sleepers stand first the pass wakes exactly them, each at the back of its
      level and in the order they slept, counts the others down and keeps the invariant. */
  lemma {:induction false} WakesExpired(s: Sched, times: Times, elapsed: nat)
    requires Inv(s) && Timed(s, times, s.sleep) && ExpiredFirst(s.sleep, times, elapsed)
    ensures var r := DecreaseSleepTime(s, times, elapsed);
            Passed(s, times, elapsed, Due(s.sleep, times, elapsed), r) && Inv(r.s)
    decreases |s.sleep|
  {
    hide Inv, Hand, Passed, Counted, WokenExactly, ExpiredFirst;
    var q := s.sleep;
    InvDistinct(s);
    if q == [] {
      PassedCounted(s, times, elapsed);
      PassedNone(s, times, elapsed, Woken(s, times));
    } else if elapsed > times[q[0]] {
      HandKeeps(s);
      var h, times' := Hand(s, q[0], q[0], q[1..]), times[q[0] := 0];
      HandShape(s, q[0], q[0], q[1..]);
      assert forall x :: x in q <==> x == q[0] || x in q[1..];
      assert q[0] !in q[1..];
      RestFirst(q, times, times', elapsed);
      WakesExpired(h, times', elapsed);
      SameTimes(q[1..], times, times', elapsed);
      PassedOne(s, times, elapsed, Due(q[1..], times', elapsed), DecreaseSleepTime(h, times', elapsed));
    } else {
      NoneExpired(q, times, elapsed);
      OnlyCounts(s, times, elapsed, q, None);
      PassedNone(s, times, elapsed, DecreaseSleepTime(s, times, elapsed));
    }
  }

  lemma PassedCounted(s: Sched, times: Times, elapsed: nat)
    requires s.sleep == []
    ensures Counted(s.sleep, times, elapsed, times)
  {
  }

  lemma InvDistinct(s: Sched)
    requires Inv(s)
    ensures Distinct(s.sleep)
  {
    SleepDistinct(s);
  }

  lemma HandShape(s: Sched, t: Tid, u: Tid, left: seq<Tid>)
    requires t in s.threads && s.threads[t].priority < |s.ready|
    ensures Hand(s, t, u, left).sleep == left
  {
  }

  lemma RestFirst(q: seq<Tid>, times: Times, times': Times, elapsed: nat)
    requires q != [] && ExpiredFirst(q, times, elapsed) && q[0] !in q[1..]
    requires q[0] in times && times' == times[q[0] := 0]
    ensures ExpiredFirst(q[1..], times', elapsed)
    ensures forall t :: t in q[1..] ==> (Expired(times, elapsed, t) <==> Expired(times', elapsed, t))
  {
    forall i, j | 0 <= i < j < |q[1..]| && Expired(times', elapsed, q[1..][j])
      ensures Expired(times', elapsed, q[1..][i]) {
      assert q[1..][i] == q[i + 1] && q[1..][j] == q[j + 1];
    }
  }

  lemma NoneExpired(q: seq<Tid>, times: Times, elapsed: nat)
    requires q != [] && ExpiredFirst(q, times, elapsed) && !Expired(times, elapsed, q[0])
    ensures forall t :: t in q ==> !Expired(times, elapsed, t)
  {
    forall t | t in q ensures !Expired(times, elapsed, t) {
      var j :| 0 <= j < |q| && q[j] == t;
      assert j == 0 || !Expired(times, elapsed, q[j]);
    }
  }

  // ----- the other case

  /** A thread that is marked ready while its node still stands in the sleep queue. */
  ghost predicate LeftBehind(s: Sched, t: Tid) {
    t in s.sleep && t in s.threads && s.threads[t].state == READY
  }

  lemma LeftBehindBreaks(s: Sched, t: Tid)
    requires LeftBehind(s, t)
    ensures !Inv(s)
  {
    assert t in Queue(s, SleepQ);
  }

  /** Once the loop has left a thread behind it never comes back to it. */
  lemma {:induction false} StaysBehind(s: Sched, times: Times, elapsed: nat, todo: seq<Tid>, prev: Option<Tid>, t: Tid)
    requires Timed(s, times, todo) && Distinct(todo) && t !in todo && prev.Some? && prev.value != t && LeftBehind(s, t)
    ensures var r := Wake(s, times, elapsed, todo, prev); r.Woken? ==> LeftBehind(r.s, t)
    decreases |todo|
  {
    if todo != [] {
      var x, rest := todo[0], todo[1..];
      assert x in todo && forall y :: y in rest ==> y in todo;
      if elapsed > times[x] {
        var u := prev.value;
        if u in s.sleep {
          OtherKept(s.sleep, u, t);
          StaysBehind(Hand(s, x, u, Without(s.sleep, u)), times[x := 0], elapsed, rest, prev, t);
        }
      } else {
        StaysBehind(s, times[x := times[x] - elapsed], elapsed, rest, Some(x), t);
      }
    }
  }

  lemma OtherKept(q: seq<Tid>, u: Tid, t: Tid)
    requires u in q && t in q && t != u
    ensures t in Without(q, u)
  {
    var k := IndexIn(q, u);
    var j :| 0 <= j < |q| && q[j] == t;
    assert Without(q, u)[if j < k then j else j - 1] == t;
  }

  /** An expired sleeper behind one that was passed is left behind. */
  lemma {:induction false} LeavesBehind(s: Sched, times: Times, elapsed: nat, todo: seq<Tid>, prev: Option<Tid>, j: nat)
    requires Timed(s, times, todo) && Distinct(todo) && j < |todo| && Expired(times, elapsed, todo[j])
    requires forall t :: t in todo ==> t in s.sleep
    requires prev.Some? && prev.value !in todo
    ensures var r := Wake(s, times, elapsed, todo, prev); r.Woken? ==> !Inv(r.s)
    decreases |todo|
  {
    var x, rest := todo[0], todo[1..];
    assert x in todo && x !in rest && forall y :: y in rest ==> y in todo;
    if elapsed > times[x] {
      var u := prev.value;
      if u in s.sleep {
        OtherKept(s.sleep, u, x);
        StaysBehind(Hand(s, x, u, Without(s.sleep, u)), times[x := 0], elapsed, rest, prev, x);
        var r := Wake(s, times, elapsed, todo, prev);
        if r.Woken? { LeftBehindBreaks(r.s, x); }
      }
    } else {
      assert j > 0 && rest[j - 1] == todo[j];
      LeavesBehind(s, times[x := times[x] - elapsed], elapsed, rest, Some(x), j - 1);
    }
  }

  /** The pass is sound exactly when the expired sleepers stand first. */
  lemma {:induction false} WakeExact(s: Sched, times: Times, elapsed: nat)
    requires Inv(s) && Timed(s, times, s.sleep)
    ensures var r := DecreaseSleepTime(s, times, elapsed);
            (r.Woken? && Inv(r.s)) <==> ExpiredFirst(s.sleep, times, elapsed)
    decreases |s.sleep|
  {
    hide Inv, Hand, ExpiredFirst, Due, WokenExactly, Counted;
    var q := s.sleep;
    InvDistinct(s);
    if ExpiredFirst(q, times, elapsed) {
      WakesExpired(s, times, elapsed);
    } else {
      MixedNotEmpty(q, times, elapsed);
      assert q[0] in q;
      assert forall x :: x in q <==> x == q[0] || x in q[1..];
      assert q[0] !in q[1..];
      if elapsed > times[q[0]] {
        HandKeeps(s);
        HandShape(s, q[0], q[0], q[1..]);
        var times' := times[q[0] := 0];
        StillMixed(q, times, times', elapsed);
        WakeExact(Hand(s, q[0], q[0], q[1..]), times', elapsed);
      } else {
        var j := LateOne(q, times, elapsed);
        var times' := times[q[0] := times[q[0]] - elapsed];
        assert q[1..][j - 1] == q[j];
        LeavesBehind(s, times', elapsed, q[1..], Some(q[0]), j - 1);
      }
    }
  }

  lemma LateOne(q: seq<Tid>, times: Times, elapsed: nat) returns (j: nat)
    requires q != [] && !ExpiredFirst(q, times, elapsed) && !Expired(times, elapsed, q[0])
    ensures 0 < j < |q| && Expired(times, elapsed, q[j])
  {
    var i, k :| 0 <= i < k < |q| && Expired(times, elapsed, q[k]) && !Expired(times, elapsed, q[i]);
    j := k;
  }

  lemma StillMixed(q: seq<Tid>, times: Times, times': Times, elapsed: nat)
    requires q != [] && !ExpiredFirst(q, times, elapsed) && q[0] !in q[1..] && Expired(times, elapsed, q[0])
    requires times' == times[q[0] := 0]
    ensures !ExpiredFirst(q[1..], times', elapsed)
  {
    var i, k :| 0 <= i < k < |q| && Expired(times, elapsed, q[k]) && !Expired(times, elapsed, q[i]);
    assert q[1..][i - 1] == q[i] && q[1..][k - 1] == q[k];
    assert Expired(times', elapsed, q[1..][k - 1]) && !Expired(times', elapsed, q[1..][i - 1]);
  }

  lemma MixedNotEmpty(q: seq<Tid>, times: Times, elapsed: nat)
    requires !ExpiredFirst(q, times, elapsed)
    ensures q != []
  {
  }

  /** Two sleepers of which only the second has expired: the first one's node is made ready although
      it sleeps on, and the second one's stays in the sleep queue although it is ready. */
  lemma WrongNode(s: Sched, times: Times, elapsed: nat, a: Tid, b: Tid)
    requires Inv(s) && s.sleep == [a, b] && Timed(s, times, s.sleep) && times[b] < elapsed <= times[a]
    ensures b in s.threads && s.threads[b].priority < |s.ready|
    ensures var r := DecreaseSleepTime(s, times, elapsed);
            r.Woken? && r.s == Hand(s, b, a, [b]) && LeftBehind(r.s, b) && !Inv(r.s)
  {
    InvDistinct(s);
    InvSleeper(s, b);
    hide Inv;
    TwoPass(s, times, elapsed, a, b);
    LeftBehindBreaks(Hand(s, b, a, [b]), b);
  }

  lemma TwoPass(s: Sched, times: Times, elapsed: nat, a: Tid, b: Tid)
    requires s.sleep == [a, b] && a != b && Timed(s, times, [a, b]) && times[b] < elapsed <= times[a]
    ensures DecreaseSleepTime(s, times, elapsed) == Woken(Hand(s, b, a, [b]), times[a := times[a] - elapsed][b := 0])
  {
    hide Hand, Without;
    var times' := times[a := times[a] - elapsed];
    TwoSleepers(s.sleep, a, b);
    assert [b][1..] == [];
    assert a in [a, b] && b in [a, b];
    assert Wake(s, times', elapsed, [b], Some(a)) == Wake(Hand(s, b, a, [b]), times'[b := 0], elapsed, [], Some(a));
  }

  lemma InvSleeper(s: Sched, t: Tid)
    requires Inv(s) && t in s.sleep
    ensures t in s.threads && s.threads[t].priority < |s.ready| && s.threads[t].state == SLEEP
  {
    Sleeper(s, t);
  }

  lemma TwoSleepers(q: seq<Tid>, a: Tid, b: Tid)
    requires q == [a, b] && a != b
    ensures q[1..] == [b] && Without(q, a) == [b]
  {
  }
}
