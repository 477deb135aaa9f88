/** The scheduler and the semaphores on their linked queues (MeOS/thread_sched.cpp,
    MeOS/semaphore.cpp). */
module SchedulerState {
  import opened Options
  import opened ListSpec
  import opened SchedulerSpec
  import opened SchedulerSafety
  import opened SchedulerQueues
  import opened SleepWake
  import opened DlList

  /** How an operation ended: the state it left, or the panic that halted the kernel. */
  ghost predicate Reports(o: Outcome, s: Sched, panic: Option<Reason>) {
    match o
    case Done(s') => panic == None && s == s'
    case Panic(why) => panic == Some(why)
  }

  /** The operation, legal in `s`, ends in `r` or in a panic, as specified. */
  ghost predicate Does(s: Sched, idle: Tid, op: Op, r: Sched, panic: Option<Reason>) {
    Inv(s) && Legal(s, idle, op) && Reports(Apply(s, idle, op), r, panic)
  }

  ghost predicate Switches(s: Sched, r: Sched, panic: Option<Reason>) {
    Switchable(s) && Reports(Switch(s), r, panic)
  }

  ghost predicate Chooses(s: Sched, r: Sched, panic: Option<Reason>) {
    Switchable(s) && Reports(Chosen(s), r, panic)
  }

  ghost predicate Suspends(s: Sched, t: Tid, asleep: bool, r: Sched, panic: Option<Reason>) {
    Inv(s) && t in s.threads && Reports(Suspend(s, t, asleep), r, panic)
  }

  // ----- the state that a set of queues stands for

  type Lines = map<Place, seq<Tid>>

  predicate IsPlace(q: Place, locks: map<SemId, int>) {
    match q
    case ReadyQ(p) => p < NUMBER_PRIORITIES
    case BlockQ => true
    case SleepQ => true
    case SemQ(i) => i in locks
  }

  ghost predicate Complete(ls: Lines, locks: map<SemId, int>) {
    forall q :: q in ls <==> IsPlace(q, locks)
  }

  ghost function Line(ls: Lines, q: Place): seq<Tid> {
    if q in ls then ls[q] else []
  }

  ghost function Build(threads: map<Tid, Tcb>, ls: Lines, locks: map<SemId, int>, current: Option<Tid>,
                       critical: bool): Sched {
    Sched(threads, seq(NUMBER_PRIORITIES, p requires 0 <= p < NUMBER_PRIORITIES => Line(ls, ReadyQ(p))),
        Line(ls, BlockQ), Line(ls, SleepQ),
          map i | i in locks :: Semaphore(locks[i], Line(ls, SemQ(i))), current, critical)
  }

  lemma QueueOfLine(threads: map<Tid, Tcb>, ls: Lines, locks: map<SemId, int>, current: Option<Tid>, critical: bool,
                    q: Place)
    requires Complete(ls, locks)
    ensures Queue(Build(threads, ls, locks, current, critical), q) == Line(ls, q)
  {
  }

  /** Changing one line changes one queue. */
  lemma LineSet(threads: map<Tid, Tcb>, ls: Lines, locks: map<SemId, int>, current: Option<Tid>, critical: bool,
                q: Place, line: seq<Tid>)
    requires Complete(ls, locks) && q in ls
    ensures Complete(ls[q := line], locks)
    ensures var s := Build(threads, ls, locks, current, critical);
            Build(threads, ls[q := line], locks, current, critical) ==
              match q
              case ReadyQ(p) => SetReady(s, p, line)
              case BlockQ => s.(block := line)
              case SleepQ => s.(sleep := line)
              case SemQ(i) => SetSem(s, i, s.sems[i].(waiting := line))
  {
    var s := Build(threads, ls, locks, current, critical);
    var r := Build(threads, ls[q := line], locks, current, critical);
    match q
    case ReadyQ(p) => assert r.ready == s.ready[p := line];
    case SemQ(i) => assert r.sems == s.sems[i := s.sems[i].(waiting := line)];
    case _ => assert r.ready == s.ready && r.sems == s.sems;
  }

  /** A move between two queues, and the thread's new state. */
  ghost function AfterMove(s: Sched, from: Place, to: Place, left: seq<Tid>, t: Tid): Sched {
    With(With(s, from, left), to, Queue(s, to) + [t])
  }

  ghost function With(s: Sched, q: Place, line: seq<Tid>): Sched {
    match q
    case ReadyQ(p) => if p < |s.ready| then SetReady(s, p, line) else s
    case BlockQ => s.(block := line)
    case SleepQ => s.(sleep := line)
    case SemQ(i) => if i in s.sems then SetSem(s, i, s.sems[i].(waiting := line)) else s
  }

  lemma MoveBuilt(threads: map<Tid, Tcb>, ls: Lines, locks: map<SemId, int>, current: Option<Tid>, critical: bool,
                  from: Place, to: Place, left: seq<Tid>, t: Tid)
    requires Complete(ls, locks) && from in ls && to in ls && from != to
    ensures Complete(ls[from := left][to := ls[to] + [t]], locks)
    ensures Build(threads, ls[from := left][to := ls[to] + [t]], locks, current, critical) ==
              AfterMove(Build(threads, ls, locks, current, critical), from, to, left, t)
  {
    hide Build;
    LineSet(threads, ls, locks, current, critical, from, left);
    LineSet(threads, ls[from := left], locks, current, critical, to, ls[to] + [t]);
    QueueOfLine(threads, ls, locks, current, critical, to);
    BuildShape(threads, ls, locks, current, critical);
    BuildShape(threads, ls[from := left], locks, current, critical);
  }

  lemma BuildShape(threads: map<Tid, Tcb>, ls: Lines, locks: map<SemId, int>, current: Option<Tid>, critical: bool)
    ensures var s := Build(threads, ls, locks, current, critical);
            |s.ready| == NUMBER_PRIORITIES && s.sems.Keys == locks.Keys && s.threads == threads && s.current == current
                && s.critical == critical
            && forall i :: i in locks ==> s.sems[i].lock == locks[i]
  {
  }

  class Scheduler {
    var threads: map<Tid, Tcb>
    /** The eight ready queues, the block and sleep queue and the semaphores' waiting lists. */
    var queues: Queues
    var locks: map<SemId, int>
    var currentThread: Option<Tid>
    var inCriticalSection: bool
    /** All lists and nodes. */
    ghost var Repr: set<object>

    ghost function Abs(): Sched
      reads this, set q | q in queues :: queues[q]
    {
      Build(threads, Items(queues), locks, currentThread, inCriticalSection)
    }

    ghost predicate Shape()
      reads this, set q | q in queues :: queues[q]
      reads set q, k | q in queues && 0 <= k < |queues[q].Nodes| :: queues[q].Nodes[k]
    {
      Linked(queues) && Complete(Items(queues), locks) && Covers(Repr, queues) && this !in Repr
    }

    ghost predicate Valid()
      reads this, set q | q in queues :: queues[q]
      reads set q, k | q in queues && 0 <= k < |queues[q].Nodes| :: queues[q].Nodes[k]
    {
      Shape() && Inv(Abs())
    }

    /** init_thread_scheduler; inserting the idle thread then boots (FirstInserted). */
    constructor ()
      ensures Valid() && fresh(Repr) && Abs() == Nothing()
    {
      hide AllEmpty, Valid, Nothing, Abs;
      var lists := NewQueues();
      threads, queues, locks := map[], lists, map[];
      currentThread, inCriticalSection := None, false;
      Repr := set q | q in lists :: lists[q];
      new;
      Started();
    }

    lemma Started()
      requires AllEmpty(queues) && forall q :: q in queues <==> IsPlace(q, map[])
      requires threads == map[] && locks == map[] && currentThread == None && !inCriticalSection
      requires Repr == set q | q in queues :: queues[q]
      ensures Valid() && Abs() == Nothing()
    {
      hide Linked, Covers, AllEmpty, Inv, Items, Build, Nothing;
      EmptyLinked(queues);
      assert forall q :: q in Items(queues) <==> q in Items(queues).Keys;
      EmptyBuilt(Items(queues));
    }

    // ----- looking

    /** sched_get_first_non_empty */
    method GetFirstNonEmpty() returns (r: Option<nat>)
      requires Shape()
      ensures r == FirstNonEmpty(Abs().ready, 0)
    {
      hide Build, Linked, Complete, Items, Covers;
      ghost var ready := Abs().ready;
      ReadyLevels();
      for p := 0 to NUMBER_PRIORITIES
        invariant FirstNonEmpty(ready, 0) == FirstNonEmpty(ready, p)
      {
        LineOf(ReadyQ(p));
        if queues[ReadyQ(p)].count > 0 { return Some(p); }
      }
      return None;
    }

    lemma ReadyLevels()
      ensures |Abs().ready| == NUMBER_PRIORITIES && Abs().threads == threads
      ensures Abs().current == currentThread && Abs().critical == inCriticalSection
    {
    }

    /** A queue, its list and its count. */
    lemma LineOf(q: Place)
      requires Shape() && IsPlace(q, locks)
      ensures q in queues && q in Items(queues) && Items(queues)[q] == DataOf(queues[q].Nodes) == Queue(Abs(), q)
      ensures queues[q].Valid() && queues[q].count == |queues[q].Nodes|
      ensures queues[q].Nodes != [] ==>
                queues[q].head == queues[q].Nodes[0] && queues[q].Nodes[0].data == Queue(Abs(), q)[0]
    {
      QueueOfLine(threads, Items(queues), locks, currentThread, inCriticalSection, q);
    }

    lemma CoveredBy(q: Place)
      requires Covers(Repr, queues) && q in queues
      ensures queues[q] in Repr && forall n :: n in queues[q].Nodes ==> n in Repr
    {
      hide Inv, Linked;
    }

    /** thread_get_current_node: the node is found, and it is the first of its queue. */
    method GetCurrentNode() returns (node: Node?<Tid>)
      requires Valid() && currentThread.Some?
      ensures var t := currentThread.value;
              && node != null && node.data == t && IsPlace(ReadyQ(threads[t].priority), locks)
              && ReadyQ(threads[t].priority) in queues && queues[ReadyQ(threads[t].priority)].Nodes != []
              && node == queues[ReadyQ(threads[t].priority)].Nodes[0]
    {
      var q := ReadyQ(threads[currentThread.value].priority);
      CurrentPlace(Abs());
      LineOf(q);
      node := queues[q].FindNode(currentThread.value);
      FirstFound(queues[q].Nodes, node, currentThread.value);
    }

    // ----- the switch

    /** scheduler_thread_switch */
    method ThreadSwitch() returns (panic: Option<Reason>)
      requires Shape() && Switchable(Abs())
      modifies this, Repr
      ensures Shape() && Switches(old(Abs()), Abs(), panic) && queues == old(queues) && locks == old(locks)
      ensures Repr == old(Repr)
    {
      hide Build, Linked, Complete, Items, Covers;
      ghost var s := Abs();
      ReadyLevels();
      if inCriticalSection { return None; }
      PreemptCurrent();
      ReadyLevels();
      panic := RunFirst();
    }

    /** A running thread goes to the back of its queue. */
    method PreemptCurrent()
      requires Shape() && Switchable(Abs())
      modifies this, Repr
      ensures Shape() && Abs() == Preempt(old(Abs())) && queues == old(queues) && locks == old(locks)
      ensures Repr == old(Repr)
    {
      hide Build, Linked, Complete, Covers, Items, Rotated;
      ghost var s, ls := Abs(), Items(queues);
      ReadyLevels();
      var c := currentThread.value;
      var p := threads[c].priority;
      if threads[c].state == RUNNING {
        LineOf(ReadyQ(p));
        CoveredBy(ReadyQ(p));
        RotateBuilt(threads, ls, locks, currentThread, inCriticalSection, c, p);
        threads := threads[c := threads[c].(state := READY)];
        Rotate(queues, ReadyQ(p), Repr);
      }
    }

    /** The first thread of the best level runs. */
    method RunFirst() returns (panic: Option<Reason>)
      requires Shape() && Switchable(Abs())
      modifies this`threads, this`currentThread
      ensures Shape() && Chooses(old(Abs()), Abs(), panic)
    {
      hide Build, Linked, Complete, Items, Covers;
      ReadyLevels();
      var level := GetFirstNonEmpty();
      if level.None? { return Some(EmptyReady); }
      LineOf(ReadyQ(level.value));
      var t := queues[ReadyQ(level.value)].head.data;
      if threads[t].state != READY { return Some(NotReady); }
      threads := threads[t := threads[t].(state := RUNNING)];
      currentThread := Some(t);
      Rebuilt(old(threads), threads, Items(queues), locks, old(currentThread), currentThread, inCriticalSection);
      return None;
    }

    // ----- moving threads

    /** The node given stands in some queue. */
    ghost predicate HasNode(node: Node<Tid>)
      reads this, set q | q in queues :: queues[q]
    {
      exists q :: q in queues && node in queues[q].Nodes
    }

    /** Where the node of a thread is. */
    lemma PlaceOf(node: Node<Tid>)
      requires Valid() && HasNode(node)
      ensures var t := node.data;
              && t in threads && threads[t].priority < NUMBER_PRIORITIES
              && (threads[t].state == READY || threads[t].state == RUNNING ==>
                   IsPlace(ReadyQ(threads[t].priority), locks) && ReadyQ(threads[t].priority) in queues
                       && node in queues[ReadyQ(threads[t].priority)].Nodes)
              && (threads[t].state == RUNNING ==>
                  currentThread == Some(t) && node == queues[ReadyQ(threads[t].priority)].Nodes[0])
              && (t in Abs().block ==> BlockQ in queues && node in queues[BlockQ].Nodes)
    {
      hide Inv, Build, Linked, Complete, Items, Covers;
      var q :| q in queues && node in queues[q].Nodes;
      InComplete(q);
      LineOf(q);
      ReadyLevels();
      var k :| 0 <= k < |queues[q].Nodes| && queues[q].Nodes[k] == node;
      assert Queue(Abs(), q)[k] == node.data;
      OnePlace(Abs(), node.data, q, k);
    }

    lemma Parts()
      requires Valid()
      ensures Shape() && Inv(Abs())
    {
    }

    lemma InComplete(q: Place)
      requires Shape()
      ensures q in queues <==> IsPlace(q, locks)
    {
    }

    /** dl_list_remove_node and dl_list_insert_back_node. */
    method MoveThread(from: Place, to: Place, node: Node<Tid>)
      requires Shape() && IsPlace(from, locks) && IsPlace(to, locks) && from != to
      requires from in queues && node in queues[from].Nodes && Distinct(Queue(Abs(), from))
      modifies Repr
      ensures Shape() && node.data in old(Queue(Abs(), from))
      ensures Abs() == AfterMove(old(Abs()), from, to, Without(old(Queue(Abs(), from)), node.data), node.data)
      ensures queues[from].Nodes == Without(old(queues[from].Nodes), node)
    {
      hide Build, Linked, Complete, Covers, Distinct, Without, Queue, AfterMove;
      ghost var ls := Items(queues);
      LineOf(from);
      LineOf(to);
      CoveredBy(from);
      CoveredBy(to);
      Move(queues, from, to, node, Repr);
      MoveBuilt(threads, ls, locks, currentThread, inCriticalSection, from, to, Without(ls[from], node.data),
          node.data);
    }

    /** dl_list_remove_front_node and dl_list_insert_back_node of a node known to be that front. */
    method MoveFrontThread(from: Place, to: Place, node: Node<Tid>)
      requires Shape() && IsPlace(from, locks) && IsPlace(to, locks) && from != to
      requires from in queues && queues[from].Nodes != [] && node == queues[from].Nodes[0]
      modifies Repr
      ensures Shape() && old(Queue(Abs(), from)) != []
      ensures Abs() == AfterMove(old(Abs()), from, to, old(Queue(Abs(), from))[1..], node.data)
      ensures queues[from].Nodes == old(queues[from].Nodes)[1..]
    {
      hide Build, Linked, Complete, Covers, Queue, AfterMove;
      ghost var ls := Items(queues);
      LineOf(from);
      LineOf(to);
      CoveredBy(from);
      CoveredBy(to);
      MoveFirst(queues, from, to, node, Repr);
      MoveBuilt(threads, ls, locks, currentThread, inCriticalSection, from, to, ls[from][1..], node.data);
    }

    /** A thread's state is changed. */
    method SetThreadState(t: Tid, state: ThreadState)
      requires Shape() && t in threads
      modifies this`threads
      ensures Shape() && Abs() == SetState(old(Abs()), t, state)
    {
      hide Linked, Complete, Covers, Items;
      threads := threads[t := threads[t].(state := state)];
    }

    // ----- the operations

    /** scheduler_start */
    method Start(ghost idle: Tid) returns (panic: Option<Reason>)
      requires Valid() && Legal(Abs(), idle, Op.Start)
      modifies this`threads, this`currentThread
      ensures Shape() && Does(old(Abs()), idle, Op.Start, Abs(), panic)
    {
      hide Inv, Build, Linked, Complete, Items, Covers;
      ghost var s := Abs();
      ReadyLevels();
      var level := GetFirstNonEmpty();
      if level.None? { return Some(EmptyReady); }
      LineOf(ReadyQ(level.value));
      var t := queues[ReadyQ(level.value)].head.data;
      FrontKnown(s, level.value);
      currentThread := Some(t);
      threads := threads[t := threads[t].(state := RUNNING)];
      Rebuilt(old(threads), threads, Items(queues), locks, old(currentThread), currentThread, inCriticalSection);
      return None;
    }

    /** thread_insert */
    method ThreadInsert(t: Tid, priority: nat, ghost idle: Tid) returns (node: Node<Tid>)
      requires Valid() && Legal(Abs(), idle, Insert(t, priority))
      modifies this`threads, this`Repr, Repr
      ensures Shape() && fresh(Repr - old(Repr)) && HasNode(node) && node.data == t
      ensures Does(old(Abs()), idle, Insert(t, priority), Abs(), None)
    {
      hide Inv, Valid, Build, Linked, Complete, Covers, Items, Line;
      ghost var s, ls := Abs(), Items(queues);
      Parts();
      ReadyLevels();
      LineOf(ReadyQ(priority));
      CoveredBy(ReadyQ(priority));
      InsertBuilt(threads, ls, locks, currentThread, inCriticalSection, t, priority);
      threads := threads[t := Tcb(READY, priority)];
      node := Append(queues, ReadyQ(priority), t, Repr);
      Repr := Repr + {node};
    }

    /** The timer interrupt, without the wake-up of sleepers. */
    method Interrupt(ghost idle: Tid) returns (panic: Option<Reason>)
      requires Valid()
      modifies this, Repr
      ensures Shape() && Repr == old(Repr) && Does(old(Abs()), idle, Tick, Abs(), panic)
    {
      hide Inv, Valid, Shape, Abs, Switch;
      Parts();
      ReadyLevels();
      if currentThread.None? { return None; }
      InvSwitchable(Abs());
      panic := ThreadSwitch();
    }

    /** thread_current_yield */
    method Yield(ghost idle: Tid) returns (panic: Option<Reason>)
      requires Valid() && currentThread.Some?
      modifies this, Repr
      ensures Shape() && Repr == old(Repr) && Does(old(Abs()), idle, Op.Yield, Abs(), panic)
    {
      hide Inv, Valid, Shape, Abs, Switch;
      Parts();
      ReadyLevels();
      InvSwitchable(Abs());
      panic := ThreadSwitch();
    }

    /** thread_block.  A ready thread's own node is unlinked; for the running one the front of its
        queue is unlinked and the node given is queued: the same node. */
    method ThreadBlock(node: Node<Tid>, ghost idle: Tid) returns (panic: Option<Reason>)
      requires Valid() && HasNode(node) && Legal(Abs(), idle, Block(node.data))
      modifies this, Repr
      ensures Shape() && Repr == old(Repr) && Does(old(Abs()), idle, Block(node.data), Abs(), panic)
    {
      panic := SuspendThread(node, BLOCK, BlockQ);
    }

    /** thread_sleep; the times are those of the threads' control blocks. */
    method ThreadSleep(node: Node<Tid>, time: nat, times: Times, ghost idle: Tid)
      returns (panic: Option<Reason>, left: Times)
      requires Valid() && HasNode(node) && Legal(Abs(), idle, Sleep(node.data))
      modifies this, Repr
      ensures Shape() && Repr == old(Repr) && Does(old(Abs()), idle, Sleep(node.data), Abs(), panic)
      ensures left == if panic == Some(BadCaller) then times else times[node.data := time]
    {
      panic := SuspendThread(node, SLEEP, SleepQ);
      left := if panic == Some(BadCaller) then times else times[node.data := time];
    }

    /** The common text of the two. */
    method SuspendThread(node: Node<Tid>, state: ThreadState, to: Place) returns (panic: Option<Reason>)
      requires Valid() && HasNode(node) && node.data in Abs().threads
      requires (state == BLOCK && to == BlockQ) || (state == SLEEP && to == SleepQ)
      modifies this, Repr
      ensures Shape() && Repr == old(Repr) && Suspends(old(Abs()), node.data, state == SLEEP, Abs(), panic)
    {
      hide Inv, Valid, Shape, Abs, HasNode, Switch, AfterMove, Distinct, Without;
      ghost var s := Abs();
      Parts();
      ReadyLevels();
      PlaceOf(node);
      var t := node.data;
      var p := threads[t].priority;
      if threads[t].state != RUNNING && threads[t].state != READY { return Some(BadCaller); }
      LevelOnce(s, p);
      ReadyMember(s, t);
      SuspendMove(s, t, p, state, to);
      if threads[t].state != RUNNING {
        SetThreadState(t, state);
        MoveThread(ReadyQ(p), to, node);
        return None;
      }
      SuspendSwitchable(s, t, state == SLEEP);
      SetThreadState(t, state);
      MoveFrontThread(ReadyQ(p), to, node);
      panic := ThreadSwitch();
    }

    /** thread_notify */
    method ThreadNotify(node: Node<Tid>, ghost idle: Tid)
      requires Valid() && HasNode(node) && Legal(Abs(), idle, Notify(node.data))
      modifies this, Repr
      ensures Shape() && Repr == old(Repr) && Does(old(Abs()), idle, Notify(node.data), Abs(), None)
    {
      hide Inv, Valid, Shape, Abs, HasNode, AfterMove, Distinct, Without;
      ghost var s := Abs();
      PlaceOf(node);
      Parts();
      ReadyLevels();
      var t := node.data;
      if threads[t].state != BLOCK { return; }
      var p := threads[t].priority;
      BlockedOnce(s, t);
      NotifyMove(s, t, p);
      MoveThread(BlockQ, ReadyQ(p), node);
      SetThreadState(t, READY);
    }

    lemma ValidParts()
      requires Shape()
      ensures Valid() <==> Inv(Abs())
    {
      hide Shape, Inv;
    }

    lemma OwnFields()
      requires Shape()
      ensures this !in Repr
    {
      hide Linked, Complete, Covers;
    }

    /** The front of the sleep queue goes to the level of `t`, which becomes ready. */
    method HandFront(t: Tid)
      requires Shape() && SleepQ in queues && queues[SleepQ].Nodes != [] && t in threads
                 && threads[t].priority < NUMBER_PRIORITIES
      modifies this`threads, Repr
      ensures Shape() && queues[SleepQ].Nodes == old(queues[SleepQ].Nodes)[1..]
      ensures |old(Abs()).ready| == NUMBER_PRIORITIES && t in old(Abs()).threads && old(Abs()).sleep != []
      ensures Abs() == Hand(old(Abs()), t, old(Abs()).sleep[0], old(Abs()).sleep[1..])
    {
      hide Shape, Abs, AfterMove, Hand;
      ReadyLevels();
      LineOf(SleepQ);
      HandMove(Abs(), t, Abs().sleep[0], Abs().sleep[1..]);
      OwnFields();
      var p := threads[t].priority;
      MoveFrontThread(SleepQ, ReadyQ(p), queues[SleepQ].head);
      SetThreadState(t, READY);
    }

    /** The node given goes from the sleep queue to the level of `t`, which becomes ready. */
    method HandNode(t: Tid, node: Node<Tid>)
      requires Shape() && SleepQ in queues && node in queues[SleepQ].Nodes && t in threads
                 && threads[t].priority < NUMBER_PRIORITIES
      requires Distinct(Abs().sleep)
      modifies this`threads, Repr
      ensures Shape() && queues[SleepQ].Nodes == Without(old(queues[SleepQ].Nodes), node)
      ensures |old(Abs()).ready| == NUMBER_PRIORITIES && t in old(Abs()).threads && node.data in old(Abs()).sleep
      ensures Abs() == Hand(old(Abs()), t, node.data, Without(old(Abs()).sleep, node.data))
    {
      hide Shape, Abs, AfterMove, Hand, Without, Distinct;
      ReadyLevels();
      LineOf(SleepQ);
      ghost var k := IndexIn(queues[SleepQ].Nodes, node);
      assert DataOf(queues[SleepQ].Nodes)[k] == node.data;
      HandMove(Abs(), t, node.data, Without(Abs().sleep, node.data));
      OwnFields();
      var p := threads[t].priority;
      MoveThread(SleepQ, ReadyQ(p), node);
      SetThreadState(t, READY);
    }

    /** scheduler_decrease_sleep_time, as far as each node it unlinks is in the sleep queue; the
        times are those of the threads' control blocks. */
    method DecreaseSleepTime(times: Times, elapsed: nat) returns (left: Times)
      requires Valid() && Timed(Abs(), times, Abs().sleep) && SleepWake.DecreaseSleepTime(Abs(), times, elapsed).Woken?
      modifies this`threads, Repr
      ensures Shape() && Woken(Abs(), left) == SleepWake.DecreaseSleepTime(old(Abs()), times, elapsed)
      ensures Valid() <==> ExpiredFirst(old(Abs()).sleep, times, elapsed)
    {
      hide Inv, Valid, Shape, Abs, Hand, Without, Distinct, Wake, Underway, ExpiredFirst, Timed,
          SleepWake.DecreaseSleepTime, List.Valid, Items;
      Parts();
      SleepDistinct(Abs());
      LineOf(SleepQ);
      ghost var goal, first := SleepWake.DecreaseSleepTime(Abs(), times, elapsed), queues[SleepQ].Nodes;
      left := times;
      var ptr := queues[SleepQ].head;
      var prev: Node?<Tid> := null;
      ghost var kept: seq<Node<Tid>>, todo := [], first;
      Begins(Abs(), first, times, elapsed);
      WakeExact(Abs(), times, elapsed);
      while ptr != null
        invariant Shape() && SleepQ in queues
        invariant Underway(Abs(), queues[SleepQ].Nodes, kept, todo, first, prev, left, elapsed, goal)
        invariant ptr == if todo == [] then null else todo[0]
        decreases |todo|
      {
        var t := ptr.data;
        NextInLine(Abs(), kept, todo, first, prev, left, elapsed, goal);
        ReadyLevels();
        if elapsed > left[t] {
          ptr := ptr.next;
          if prev == null {
            HandedFront(Abs(), queues[SleepQ].Nodes, kept, todo, first, left, elapsed, goal);
            HandFront(t);
            kept := [];
          } else {
            var node: Node<Tid> := prev;
            HandedNode(Abs(), queues[SleepQ].Nodes, kept, todo, first, node, left, elapsed, goal);
            HandNode(t, node);
            kept := Without(kept, node) + [todo[0]];
          }
          left := left[t := 0];
        } else {
          PassedBy(Abs(), queues[SleepQ].Nodes, kept, todo, first, prev, left, elapsed, goal);
          left := left[t := left[t] - elapsed];
          prev := ptr;
          ptr := ptr.next;
          kept := kept + [todo[0]];
        }
        todo := todo[1..];
      }
      Ends(Abs(), queues[SleepQ].Nodes, kept, first, prev, left, elapsed, goal);
      ValidParts();
    }

    /** The links of the sleep queue, from the node the loop is at. */
    lemma NextInLine(s: Sched, kept: seq<Node<Tid>>, todo: seq<Node<Tid>>, first: seq<Node<Tid>>, prev: Node?<Tid>,
                     left: Times, elapsed: nat, goal: Woken)
      requires Shape() && SleepQ in queues && s == Abs() && todo != []
      requires Underway(s, queues[SleepQ].Nodes, kept, todo, first, prev, left, elapsed, goal)
      ensures todo[0].next == if |todo| > 1 then todo[1..][0] else null
      ensures todo[0].data in left && todo[0].data in threads && threads[todo[0].data].priority < NUMBER_PRIORITIES
    {
      hide Linked, Complete, Covers, Items, Wake;
      LineOf(SleepQ);
      ReadyLevels();
      var nodes, k := queues[SleepQ].Nodes, |kept|;
      assert nodes[k] == todo[0] && (|todo| > 1 ==> nodes[k + 1] == todo[1]);
      assert nodes[k].next == if k + 1 < |nodes| then nodes[k + 1] else null;
      assert DataOf(todo)[0] in DataOf(todo);
    }

    /** semaphore_init */
    method SemaphoreInit(i: SemId, value: int, ghost idle: Tid)
      requires Valid() && Legal(Abs(), idle, InitSem(i, value))
      modifies this`queues, this`locks, this`Repr
      ensures Shape() && fresh(Repr - old(Repr)) && Does(old(Abs()), idle, InitSem(i, value), Abs(), None)
    {
      hide Inv, Valid, Build, Linked, Complete, Items, Covers, List.Valid;
      ghost var s := Abs();
      Parts();
      ReadyLevels();
      InComplete(SemQ(i));
      NoSem(i);
      var list := new List<Tid>();
      FreshList(queues, Repr, list);
      NewListLinked(queues, SemQ(i), list, Repr);
      ItemsAdded(queues, SemQ(i), list);
      LockAdded(threads, Items(queues), locks, currentThread, inCriticalSection, i, value);
      queues := queues[SemQ(i) := list];
      locks := locks[i := value];
      Repr := Repr + {list};
    }

    lemma NoSem(i: SemId)
      requires Shape()
      ensures i in Abs().sems <==> i in locks
    {
      hide Linked, Covers, Items;
    }

    /** semaphore_wait */
    method SemaphoreWait(i: SemId, ghost idle: Tid) returns (panic: Option<Reason>)
      requires Valid() && Legal(Abs(), idle, Wait(i))
      modifies this, Repr
      ensures Shape() && Repr == old(Repr) && Does(old(Abs()), idle, Wait(i), Abs(), panic)
    {
      hide Inv, Valid, Shape, Abs, Switch, AfterMove, Distinct, Without, Park;
      ghost var s := Abs();
      Parts();
      ReadyLevels();
      SemKnown(i);
      CurrentPlace(s);
      var node := GetCurrentNode();
      var t := node.data;
      var p := threads[t].priority;
      if locks[i] <= 0 {
        LevelOnce(s, p);
        ParkSwitchable(s, i);
        ParkMove(s, i, t, p);
        InComplete(SemQ(i));
        SetThreadState(t, BLOCK);
        MoveThread(ReadyQ(p), SemQ(i), node);
        panic := ThreadSwitch();
      } else {
        SetLock(i, locks[i] - 1);
        return None;
      }
    }

    /** semaphore_signal: the first waiter is handed the unit, or it is added. */
    method SemaphoreSignal(i: SemId, ghost idle: Tid)
      requires Valid() && Legal(Abs(), idle, Signal(i))
      modifies this, Repr
      ensures Shape() && Repr == old(Repr) && Does(old(Abs()), idle, Signal(i), Abs(), None)
    {
      hide Inv, Valid, Shape, Abs, AfterMove;
      ghost var s := Abs();
      Parts();
      ReadyLevels();
      SemKnown(i);
      LineOf(SemQ(i));
      if queues[SemQ(i)].count > 0 {
        var node := queues[SemQ(i)].head;
        var t := node.data;
        HandOffMove(s, i, t);
        MoveFrontThread(SemQ(i), ReadyQ(threads[t].priority), node);
        SetThreadState(t, READY);
      } else {
        SetLock(i, locks[i] + 1);
      }
    }

    lemma SemKnown(i: SemId)
      requires Shape() && i in Abs().sems
      ensures IsPlace(SemQ(i), locks) && Abs().sems[i] == Semaphore(locks[i], Queue(Abs(), SemQ(i)))
    {
      hide Linked, Covers, Items;
    }

    method SetLock(i: SemId, value: int)
      requires Shape() && i in locks
      modifies this`locks
      ensures Shape() && i in old(Abs()).sems && Abs() == SetSem(old(Abs()), i, old(Abs()).sems[i].(lock := value))
    {
      hide Build, Linked, Complete, Items, Covers;
      LockSet(threads, Items(queues), locks, currentThread, inCriticalSection, i, value);
      locks := locks[i := value];
    }

    /** critlock_acquire and critlock_release */
    method SetCritical(critical: bool, ghost idle: Tid)
      requires Valid()
      modifies this`inCriticalSection
      ensures Shape() && Does(old(Abs()), idle, if critical then EnterCritical else LeaveCritical, Abs(), None)
    {
      hide Linked, Complete, Covers, Items, Inv;
      inCriticalSection := critical;
    }
  }

  /** The second half of the switch. */
  ghost function Chosen(s: Sched): Outcome
    requires Switchable(s)
  {
    match FirstNonEmpty(s.ready, 0)
    case None => Panic(EmptyReady)
    case Some(q) =>
      var t := s.ready[q][0];
      if s.threads[t].state != READY then Panic(NotReady) else Done(SetState(s, t, RUNNING).(current := Some(t)))
  }

  lemma Rebuilt(threads: map<Tid, Tcb>, threads': map<Tid, Tcb>, ls: Lines, locks: map<SemId, int>,
                current: Option<Tid>, current': Option<Tid>, critical: bool)
    ensures Build(threads', ls, locks, current', critical) ==
              Build(threads, ls, locks, current, critical).(threads := threads', current := current')
  {
  }

  // ----- what the invariant gives each operation

  lemma FrontKnown(s: Sched, p: nat)
    requires Inv(s) && p < |s.ready| && s.ready[p] != []
    ensures s.ready[p][0] in s.threads
  {
    assert s.ready[p][0] in Queue(s, ReadyQ(p));
  }

  lemma OnePlace(s: Sched, t: Tid, q: Place, k: nat)
    requires Inv(s) && k < |Queue(s, q)| && Queue(s, q)[k] == t
    ensures t in s.threads && s.threads[t].priority < NUMBER_PRIORITIES == |s.ready|
    ensures s.threads[t].state == READY || s.threads[t].state == RUNNING ==> q == ReadyQ(s.threads[t].priority)
    ensures s.threads[t].state == RUNNING ==> s.current == Some(t) && k == 0
    ensures t in s.block ==> q == BlockQ
  {
    assert t in Queue(s, q);
    assert Distinct(Queue(s, q));
    if t in s.block { assert t in Queue(s, BlockQ); }
  }

  lemma LevelOnce(s: Sched, p: nat)
    requires Inv(s) && p < NUMBER_PRIORITIES
    ensures p < |s.ready| && Queue(s, ReadyQ(p)) == s.ready[p] && Distinct(s.ready[p])
  {
    assert Distinct(Queue(s, ReadyQ(p)));
  }

  lemma BlockedOnce(s: Sched, t: Tid)
    requires Inv(s)
    ensures Distinct(Queue(s, BlockQ)) && |s.ready| == NUMBER_PRIORITIES
  {
  }

  lemma SuspendMove(s: Sched, t: Tid, p: nat, state: ThreadState, to: Place)
    requires Inv(s) && t in s.threads && p == s.threads[t].priority < |s.ready| && t in s.ready[p]
    requires (state == BLOCK && to == BlockQ) || (state == SLEEP && to == SleepQ)
    ensures AfterMove(SetState(s, t, state), ReadyQ(p), to, Without(s.ready[p], t), t) ==
              Enqueue(SetReady(s, p, Without(s.ready[p], t)), t, state == SLEEP)
    ensures AfterMove(SetState(s, t, state), ReadyQ(p), to, s.ready[p][1..], t) ==
              Enqueue(SetReady(s, p, s.ready[p][1..]), t, state == SLEEP)
  {
  }

  lemma NotifyMove(s: Sched, t: Tid, p: nat)
    requires t in s.threads && t in s.block && p == s.threads[t].priority < |s.ready|
    ensures SetState(AfterMove(s, BlockQ, ReadyQ(p), Without(s.block, t), t), t, READY) ==
              MakeReady(s.(block := Without(s.block, t)), t)
  {
  }

  lemma ParkMove(s: Sched, i: SemId, t: Tid, p: nat)
    requires Inv(s) && s.current == Some(t) && i in s.sems && p == s.threads[t].priority
    ensures t in s.ready[p]
              && AfterMove(SetState(s, t, BLOCK), ReadyQ(p), SemQ(i), Without(s.ready[p], t), t) == Park(s, i)
  {
  }

  lemma HandOffMove(s: Sched, i: SemId, t: Tid)
    requires Inv(s) && i in s.sems && s.sems[i].waiting != [] && t == s.sems[i].waiting[0]
    ensures t in s.threads && s.threads[t].priority < |s.ready| == NUMBER_PRIORITIES
    ensures SetState(AfterMove(s, SemQ(i), ReadyQ(s.threads[t].priority), s.sems[i].waiting[1..], t), t, READY) ==
              MakeReady(SetSem(s, i, s.sems[i].(waiting := s.sems[i].waiting[1..])), t)
  {
    assert t in Queue(s, SemQ(i));
  }

  // ----- the wake-up loop on nodes

  ghost function DataIn(node: Node?<Tid>): Option<Tid> {
    if node == null then None else Some(node.data)
  }

  /** The loop has left the nodes `kept` behind it in the sleep queue and has `todo` before it. */
  ghost predicate Underway(s: Sched, nodes: seq<Node<Tid>>, kept: seq<Node<Tid>>, todo: seq<Node<Tid>>,
                           first: seq<Node<Tid>>,
                           prev: Node?<Tid>, left: Times, elapsed: nat, goal: Woken) {
    && nodes == kept + todo && s.sleep == DataOf(nodes) && Distinct(s.sleep)
    && (prev == null ==> kept == []) && (prev != null ==> prev in first && prev !in todo)
    && (forall n :: n in nodes ==> n in first) && Distinct(DataOf(first))
    && Timed(s, left, DataOf(todo))
    && goal.Woken? && Wake(s, left, elapsed, DataOf(todo), DataIn(prev)) == goal
  }

  lemma Begins(s: Sched, first: seq<Node<Tid>>, times: Times, elapsed: nat)
    requires s.sleep == DataOf(first) && Distinct(s.sleep) && Timed(s, times, s.sleep)
    requires SleepWake.DecreaseSleepTime(s, times, elapsed).Woken?
    ensures Underway(s, first, [], first, first, null, times, elapsed, SleepWake.DecreaseSleepTime(s, times, elapsed))
  {
    hide Wake;
    assert [] + first == first;
  }

  lemma Ends(s: Sched, nodes: seq<Node<Tid>>, kept: seq<Node<Tid>>, first: seq<Node<Tid>>, prev: Node?<Tid>,
             left: Times, elapsed: nat, goal: Woken)
    requires Underway(s, nodes, kept, [], first, prev, left, elapsed, goal)
    ensures Woken(s, left) == goal
  {
    assert DataOf<Tid>([]) == [];
  }

  lemma PassedBy(s: Sched, nodes: seq<Node<Tid>>, kept: seq<Node<Tid>>, todo: seq<Node<Tid>>, first: seq<Node<Tid>>,
                 prev: Node?<Tid>, left: Times, elapsed: nat, goal: Woken)
    requires Underway(s, nodes, kept, todo, first, prev, left, elapsed, goal) && todo != []
    requires todo[0].data in left && elapsed <= left[todo[0].data]
    ensures var t := todo[0].data;
            Underway(s, nodes, kept + [todo[0]], todo[1..], first, todo[0], left[t := left[t] - elapsed], elapsed, goal)
  {
    RestData(todo);
    assert kept + [todo[0]] + todo[1..] == kept + todo;
    OnceIn(kept, todo);
    assert todo[0] in nodes;
  }

  lemma OnceIn(kept: seq<Node<Tid>>, todo: seq<Node<Tid>>)
    requires todo != [] && Distinct(DataOf(kept + todo))
    ensures todo[0] !in todo[1..]
  {
    var d := DataOf(kept + todo);
    assert forall k :: 0 <= k < |todo| ==> d[|kept| + k] == todo[k].data;
  }

  /** What the loop does at an expired sleeper. */
  lemma WakeExpired(s: Sched, left: Times, elapsed: nat, q: seq<Tid>, prev: Option<Tid>)
    requires Timed(s, left, q) && q != [] && elapsed > left[q[0]] && Wake(s, left, elapsed, q, prev).Woken?
    ensures q[0] in s.threads && s.threads[q[0]].priority < |s.ready|
    ensures prev == None ==> s.sleep != []
    ensures prev.Some? ==> prev.value in s.sleep
    ensures var r := if prev == None then Hand(s, q[0], s.sleep[0], s.sleep[1..])
                     else Hand(s, q[0], prev.value, Without(s.sleep, prev.value));
            Timed(r, left[q[0] := 0], q[1..]) &&
            Wake(s, left, elapsed, q, prev) == Wake(r, left[q[0] := 0], elapsed, q[1..], prev)
  {
    hide Without;
    assert forall x :: x in q[1..] ==> x in q;
  }

  lemma HandedFront(s: Sched, nodes: seq<Node<Tid>>, kept: seq<Node<Tid>>, todo: seq<Node<Tid>>, first: seq<Node<Tid>>,
                    left: Times, elapsed: nat, goal: Woken)
    requires Underway(s, nodes, kept, todo, first, null, left, elapsed, goal) && todo != []
    requires todo[0].data in left && elapsed > left[todo[0].data]
    ensures var t := todo[0].data;
            nodes != [] && s.sleep != [] && t in s.threads && s.threads[t].priority < |s.ready|
            && Underway(Hand(s, t, s.sleep[0], s.sleep[1..]), nodes[1..], [], todo[1..], first, null, left[t := 0],
                elapsed, goal)
  {
    hide Hand, Timed, Wake;
    RestData(todo);
    assert [] + todo == todo && [] + todo[1..] == todo[1..];
    WakeExpired(s, left, elapsed, DataOf(todo), None);
    HandShape(s, todo[0].data, s.sleep[0], s.sleep[1..]);
  }

  lemma HandedNode(s: Sched, nodes: seq<Node<Tid>>, kept: seq<Node<Tid>>, todo: seq<Node<Tid>>, first: seq<Node<Tid>>,
                   prev: Node<Tid>, left: Times, elapsed: nat, goal: Woken)
    requires Underway(s, nodes, kept, todo, first, prev, left, elapsed, goal) && todo != []
    requires todo[0].data in left && elapsed > left[todo[0].data]
    ensures var t := todo[0].data;
            prev in kept && prev in nodes && prev.data in s.sleep && Distinct(s.sleep) && t in s.threads
                && s.threads[t].priority < |s.ready|
            && Underway(Hand(s, t, prev.data, Without(s.sleep, prev.data)), Without(nodes, prev),
                Without(kept, prev) + [todo[0]],
                        todo[1..], first, prev, left[t := 0], elapsed, goal)
  {
    hide Hand, Timed, Wake, Without;
    var t := todo[0].data;
    RestData(todo);
    WakeExpired(s, left, elapsed, DataOf(todo), Some(prev.data));
    NodeOf(nodes, first, prev);
    assert prev in kept;
    WithoutFront(kept, todo, prev);
    WithoutData(nodes, prev);
    WithoutMembers(s.sleep, prev.data);
    HandShape(s, t, prev.data, Without(s.sleep, prev.data));
    assert Without(kept, prev) + [todo[0]] + todo[1..] == Without(kept, prev) + todo;
  }

  /** The only node of a thread among the first ones is the one in the queue. */
  lemma NodeOf(nodes: seq<Node<Tid>>, first: seq<Node<Tid>>, node: Node<Tid>)
    requires (forall n :: n in nodes ==> n in first) && Distinct(DataOf(first)) && node in first
               && node.data in DataOf(nodes)
    ensures node in nodes
  {
    var k :| 0 <= k < |nodes| && DataOf(nodes)[k] == node.data;
    var i, j := IndexIn(first, nodes[k]), IndexIn(first, node);
    assert DataOf(first)[i] == DataOf(first)[j];
  }

  lemma WithoutFront(a: seq<Node<Tid>>, b: seq<Node<Tid>>, x: Node<Tid>)
    requires x in a
    ensures x in a + b && Without(a + b, x) == Without(a, x) + b
  {
    var k, w := IndexIn(a, x), a + b;
    assert w[k] == x;
    var j := IndexIn(w, x);
    assert w[..k] == a[..k];
    assert j == k;
  }

  lemma HandMove(s: Sched, t: Tid, u: Tid, left: seq<Tid>)
    requires t in s.threads && s.threads[t].priority < |s.ready|
    ensures SetState(AfterMove(s, SleepQ, ReadyQ(s.threads[t].priority), left, u), t, READY) == Hand(s, t, u, left)
  {
  }

  ghost function Nothing(): Sched {
    Sched(map[], seq(NUMBER_PRIORITIES, q => []), [], [], map[], None, false)
  }

  lemma EmptyBuilt(ls: Lines)
    requires (forall q :: q in ls <==> IsPlace(q, map[])) && forall q :: q in ls ==> ls[q] == []
    ensures Build(map[], ls, map[], None, false) == Nothing() && Inv(Nothing())
  {
    assert forall q :: Queue(Nothing(), q) == [];
    assert Build(map[], ls, map[], None, false).ready == Nothing().ready;
    assert Build(map[], ls, map[], None, false).sems == map[];
  }

  /** The idle thread's insertion is the first step of every run. */
  lemma FirstInserted(r: Sched, idle: Tid, p: nat)
    requires p < NUMBER_PRIORITIES && Does(Nothing(), idle, Insert(idle, p), r, None)
    ensures r == Booted(idle, p) && IdleOk(r, idle)
  {
    BootedOk(idle, p);
    var n := Nothing();
    assert r.ready == n.ready[p := n.ready[p] + [idle]];
    forall k | 0 <= k < NUMBER_PRIORITIES ensures r.ready[k] == Booted(idle, p).ready[k] {}
  }

  lemma NewListLinked(qs: Queues, q: Place, list: List<Tid>, repr: set<object>)
    requires Linked(qs) && Covers(repr, qs) && q !in qs && list.Valid() && list.Nodes == []
               && forall r :: r in qs ==> qs[r] != list
    ensures Linked(qs[q := list]) && Covers(repr + {list}, qs[q := list])
  {
    var nm := NodesOf(qs);
    ListAdded(qs, q, list);
    hide List.Valid, AllApart, CoversNodes;
    assert NodesOf(qs[q := list]) == nm[q := []];
    EmptyAdded(nm, q, repr, list);
  }

  lemma ItemsAdded(qs: Queues, q: Place, list: List<Tid>)
    requires q !in qs && list.Nodes == []
    ensures Items(qs[q := list]) == Items(qs)[q := []]
  {
    assert DataOf(list.Nodes) == [];
  }

  lemma ListAdded(qs: Queues, q: Place, list: List<Tid>)
    requires AllValid(qs) && OwnHeaders(qs) && q !in qs && list.Valid() && forall r :: r in qs ==> qs[r] != list
    ensures AllValid(qs[q := list]) && OwnHeaders(qs[q := list])
  {
    hide List.Valid;
  }

  lemma EmptyAdded(nm: map<Place, seq<Node<Tid>>>, q: Place, repr: set<object>, list: object)
    requires AllApart(nm) && CoversNodes(repr, nm) && q !in nm
    ensures AllApart(nm[q := []]) && CoversNodes(repr + {list}, nm[q := []])
  {
  }

  lemma FreshList(qs: Queues, repr: set<object>, list: List<Tid>)
    requires Covers(repr, qs) && list !in repr
    ensures forall r :: r in qs ==> qs[r] != list
  {
  }

  lemma ReadyMember(s: Sched, t: Tid)
    requires Inv(s) && t in s.threads && (s.threads[t].state == READY || s.threads[t].state == RUNNING)
    ensures s.threads[t].priority < |s.ready| && t in s.ready[s.threads[t].priority]
  {
    hide QueuesOk;
    InReadyQueue(s, t);
  }

  lemma LockSet(threads: map<Tid, Tcb>, ls: Lines, locks: map<SemId, int>, current: Option<Tid>, critical: bool,
                i: SemId, v: int)
    requires Complete(ls, locks) && i in locks
    ensures Complete(ls, locks[i := v])
    ensures var s := Build(threads, ls, locks, current, critical);
            i in s.sems && Build(threads, ls, locks[i := v], current, critical) == SetSem(s, i, s.sems[i].(lock := v))
  {
    var s, r := Build(threads, ls, locks, current, critical), Build(threads, ls, locks[i := v], current, critical);
    assert r.ready == s.ready && r.sems == s.sems[i := s.sems[i].(lock := v)];
  }

  lemma LockAdded(threads: map<Tid, Tcb>, ls: Lines, locks: map<SemId, int>, current: Option<Tid>, critical: bool,
                  i: SemId, v: int)
    requires Complete(ls, locks) && i !in locks
    ensures Complete(ls[SemQ(i) := []], locks[i := v])
    ensures Build(threads, ls[SemQ(i) := []], locks[i := v], current, critical) ==
              SetSem(Build(threads, ls, locks, current, critical), i, Semaphore(v, []))
  {
    var s, r := Build(threads, ls, locks, current, critical),
        Build(threads, ls[SemQ(i) := []], locks[i := v], current, critical);
    assert r.ready == s.ready && r.sems == s.sems[i := Semaphore(v, [])];
  }

  lemma RotateBuilt(threads: map<Tid, Tcb>, ls: Lines, locks: map<SemId, int>, current: Option<Tid>, critical: bool,
                    t: Tid, p: nat)
    requires Complete(ls, locks) && p < NUMBER_PRIORITIES && t in threads
    ensures ReadyQ(p) in ls && Complete(ls[ReadyQ(p) := Rotated(ls[ReadyQ(p)])], locks)
    ensures var s := Build(threads, ls, locks, current, critical);
            p < |s.ready| && t in s.threads &&
            Build(threads[t := threads[t].(state := READY)], ls[ReadyQ(p) := Rotated(ls[ReadyQ(p)])], locks, current,
                critical) ==
              SetReady(SetState(s, t, READY), p, Rotated(s.ready[p]))
  {
    hide Rotated;
    LineSet(threads[t := threads[t].(state := READY)], ls, locks, current, critical, ReadyQ(p), Rotated(ls[ReadyQ(p)]));
  }

  lemma InsertBuilt(threads: map<Tid, Tcb>, ls: Lines, locks: map<SemId, int>, current: Option<Tid>, critical: bool,
                    t: Tid, p: nat)
    requires Complete(ls, locks) && p < NUMBER_PRIORITIES
    ensures ReadyQ(p) in ls && Complete(ls[ReadyQ(p) := ls[ReadyQ(p)] + [t]], locks)
    ensures var s := Build(threads, ls, locks, current, critical);
            p < |s.ready| &&
            Build(threads[t := Tcb(READY, p)], ls[ReadyQ(p) := ls[ReadyQ(p)] + [t]], locks, current, critical) ==
              s.(threads := s.threads[t := Tcb(READY, p)], ready := s.ready[p := s.ready[p] + [t]])
  {
    LineSet(threads[t := Tcb(READY, p)], ls, locks, current, critical, ReadyQ(p), ls[ReadyQ(p)] + [t]);
  }

  lemma CurrentPlace(s: Sched)
    requires Inv(s) && s.current.Some?
    ensures var t := s.current.value;
            t in s.threads && s.threads[t].priority < NUMBER_PRIORITIES == |s.ready|
            && s.ready[s.threads[t].priority] != [] && s.ready[s.threads[t].priority][0] == t
  {
  }

  lemma FirstFound(nodes: seq<Node<Tid>>, node: Node?<Tid>, t: Tid)
    requires nodes != [] && nodes[0].data == t
    requires node == null ==> forall n :: n in nodes ==> n.data != t
    requires node != null ==>
               node in nodes && node.data == t && forall n :: n in nodes[..IndexIn(nodes, node)] ==> n.data != t
    ensures node != null && node == nodes[0]
  {
    assert nodes[0] in nodes;
    assert forall k :: 0 < k <= |nodes| ==> nodes[..k][0] == nodes[0] && nodes[0] in nodes[..k];
  }
}
