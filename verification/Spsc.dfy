/** The single-producer single-consumer ring queue, with the two threads interleaved at every
    load and store they share (MeOS/queue_spsc.h:12-68).  A thread's own index needs no step of
    its own: nobody else writes it. */
module RingQueue {
  import opened Options
  import opened Ring

  /** A producer that found room is on its way to store, then to publish the new tail. */
  datatype ProducerPc<T> = PIdle | PStore(item: T) | PPublish(item: T)

  /** A consumer that found an item is on its way to load it (peek) or to move the head (remove). */
  datatype ConsumerPc = CIdle | CLoad | CMove

  /** `inserted` and `removed` are the history: the items whose insertion was published, and what
      the consumer had peeked (if it did) of each item it removed. */
  datatype Queue<T> = Queue(
    buffer: seq<T>, head: nat, tail: nat,
    producer: ProducerPc<T>, consumer: ConsumerPc, peeked: Option<T>,
    inserted: seq<T>, removed: seq<Option<T>>)

  /** queue_spsc_init; a count of 0 would divide by zero. */
  function Init<T>(buffer: seq<T>): Queue<T>
    requires |buffer| > 0
  {
    Queue(buffer, 0, 0, PIdle, CIdle, None, [], [])
  }

  function Max<T>(q: Queue<T>): nat {
    |q.buffer|
  }

  /** Items the consumer has not removed yet. */
  function Outstanding<T>(q: Queue<T>): int {
    |q.inserted| - |q.removed|
  }

  datatype Action<T> =
    | BeginInsert(item: T)   // load head, compare: insert fails here or goes on
    | StoreItem              // store into the tail slot
    | PublishTail            // store the new tail
    | BeginPeek              // load tail, compare: peek gives nothing or goes on
    | LoadItem               // load the head slot
    | BeginRemove            // load tail, compare: remove fails here or goes on
    | MoveHead               // store the new head

  predicate Enabled<T>(q: Queue<T>, a: Action<T>) {
    && Max(q) > 0
    && match a
       case BeginInsert(_) => q.producer.PIdle?
       case StoreItem => q.producer.PStore? && q.tail < Max(q)
       case PublishTail => q.producer.PPublish?
       case BeginPeek => q.consumer.CIdle?
       case LoadItem => q.consumer.CLoad? && q.head < Max(q)
       case BeginRemove => q.consumer.CIdle?
       case MoveHead => q.consumer.CMove?
  }

  predicate Full<T>(q: Queue<T>)
    requires Max(q) > 0
  {
    (q.tail + 1) % Max(q) == q.head
  }

  function Step<T>(q: Queue<T>, a: Action<T>): Queue<T>
    requires Enabled(q, a)
  {
    match a
    case BeginInsert(item) => if Full(q) then q else q.(producer := PStore(item))
    case StoreItem => q.(buffer := q.buffer[q.tail := q.producer.item], producer := PPublish(q.producer.item))
    case PublishTail => q.(tail := (q.tail + 1) % Max(q), inserted := q.inserted + [q.producer.item], producer := PIdle)
    case BeginPeek => if q.tail != q.head then q.(consumer := CLoad) else q
    case LoadItem => q.(peeked := Some(q.buffer[q.head]), consumer := CIdle)
    case BeginRemove => if q.head != q.tail then q.(consumer := CMove) else q
    case MoveHead =>
        q.(head := (q.head + 1) % Max(q), removed := q.removed + [q.peeked], peeked := None, consumer := CIdle)
  }

  // ----- the invariant

  /** Item k of the history is in its slot. */
  ghost predicate Holds<T>(buffer: seq<T>, inserted: seq<T>, k: nat) {
    |buffer| > 0 && k < |inserted| && buffer[k % |buffer|] == inserted[k]
  }

  ghost predicate Counts<T>(q: Queue<T>) {
    && Max(q) > 0
    && q.tail == |q.inserted| % Max(q) && q.head == |q.removed| % Max(q)
    && 0 <= Outstanding(q) <= Max(q) - 1
    && (!q.producer.PIdle? ==> Outstanding(q) < Max(q) - 1)
    && (!q.consumer.CIdle? ==> Outstanding(q) > 0)
  }

  ghost predicate Contents<T>(q: Queue<T>) {
    && |q.removed| <= |q.inserted|
    && (forall k :: |q.removed| <= k < |q.inserted| ==> Holds(q.buffer, q.inserted, k))
    && (q.producer.PPublish? ==> q.tail < Max(q) && q.buffer[q.tail] == q.producer.item)
  }

  /** What was peeked of an item is that item; so the peeked-then-removed items are a prefix of
      the inserted ones, in order. */
  ghost predicate Fifo<T>(q: Queue<T>) {
    && |q.removed| <= |q.inserted|
    && (forall k :: 0 <= k < |q.removed| && q.removed[k].Some? ==> q.removed[k] == Some(q.inserted[k]))
    && (q.peeked.Some? ==> |q.removed| < |q.inserted| && q.peeked == Some(q.inserted[|q.removed|]))
  }

  ghost predicate Inv<T>(q: Queue<T>) {
    Counts(q) && Contents(q) && Fifo(q)
  }

  lemma InitOk<T>(buffer: seq<T>)
    requires |buffer| > 0
    ensures Inv(Init(buffer))
  {
    Remainder(0, |buffer|, 0, 0);
  }

  /** The emptiness and fullness tests mean what they should at the moment of the shared load. */
  lemma TestsExact<T>(q: Queue<T>)
    requires Counts(q)
    ensures Full(q) <==> Outstanding(q) == Max(q) - 1
    ensures q.head == q.tail <==> Outstanding(q) == 0
  {
    var r, i, n := |q.removed|, |q.inserted|, Max(q);
    ModNext(i, n);
    if i != r { ModDistinct(r, i, n); }
    if i + 1 - r < n { ModDistinct(r, i + 1, n); }
    if i + 1 - r == n { PlusSize(r, n); }
  }

  lemma PlusSize(r: nat, n: nat)
    requires n > 0
    ensures (r + n) % n == r % n
  {
    DivMod(r, n);
    Distribute(n, r / n + 1, r / n);
    Remainder(r + n, n, r / n + 1, r % n);
  }

  /** A store never hits a slot whose item has not been removed, nor one being loaded. */
  lemma StoreSparesUnread<T>(q: Queue<T>)
    requires Inv(q) && q.producer.PStore?
    ensures q.tail < Max(q)
    ensures forall k :: |q.removed| <= k < |q.inserted| ==> k % Max(q) != q.tail
    ensures q.consumer.CLoad? ==> q.head != q.tail
  {
    forall k | |q.removed| <= k < |q.inserted| ensures k % Max(q) != q.tail {
      ModDistinct(k, |q.inserted|, Max(q));
    }
    if q.consumer.CLoad? { ModDistinct(|q.removed|, |q.inserted|, Max(q)); }
  }

  lemma StoreKeeps<T>(q: Queue<T>)
    requires Inv(q) && Enabled(q, StoreItem)
    ensures Inv(Step(q, StoreItem))
  {
    StoreSparesUnread(q);
    var r := Step(q, StoreItem);
    forall k | |r.removed| <= k < |r.inserted| ensures Holds(r.buffer, r.inserted, k) {
      assert Holds(q.buffer, q.inserted, k);
    }
  }

  lemma PublishKeeps<T>(q: Queue<T>)
    requires Inv(q) && Enabled(q, PublishTail)
    ensures Inv(Step(q, PublishTail))
  {
    var r := Step(q, PublishTail);
    ModNext(|q.inserted|, Max(q));
    forall k | |r.removed| <= k < |r.inserted| ensures Holds(r.buffer, r.inserted, k) {
      if k < |q.inserted| { assert Holds(q.buffer, q.inserted, k); }
    }
  }

  lemma LoadKeeps<T>(q: Queue<T>)
    requires Inv(q) && Enabled(q, LoadItem)
    ensures Inv(Step(q, LoadItem))
  {
    assert Holds(q.buffer, q.inserted, |q.removed|);
    hide Holds;
  }

  lemma MoveKeeps<T>(q: Queue<T>)
    requires Inv(q) && Enabled(q, MoveHead)
    ensures Inv(Step(q, MoveHead))
  {
    hide Holds;
    ModNext(|q.removed|, Max(q));
  }

  lemma StepKeeps<T>(q: Queue<T>, a: Action<T>)
    requires Inv(q) && Enabled(q, a)
    ensures Inv(Step(q, a))
  {
    match a
    case StoreItem => StoreKeeps(q);
    case PublishTail => PublishKeeps(q);
    case LoadItem => LoadKeeps(q);
    case MoveHead => MoveKeeps(q);
    case BeginInsert(item) => hide Contents, Fifo; TestsExact(q); BeginKeeps(q, Step(q, a));
    case _ => hide Contents, Fifo; TestsExact(q); BeginKeeps(q, Step(q, a));
  }

  /** The first steps of each operation touch no slot. */
  lemma BeginKeeps<T>(q: Queue<T>, r: Queue<T>)
    requires r.producer.PPublish? ==> q.producer == r.producer
    requires Contents(q) && Fifo(q) && r == q.(producer := r.producer, consumer := r.consumer)
    ensures Contents(r) && Fifo(r)
  {
    hide Holds;
  }

  // ----- every run

  ghost predicate IsRun<T>(states: seq<Queue<T>>, actions: seq<Action<T>>) {
    && |states| == |actions| + 1
    && forall k :: 0 <= k < |actions| ==> Enabled(states[k], actions[k]) && states[k + 1] == Step(states[k], actions[k])
  }

  /** Over every interleaving the queue is a FIFO and no unread slot is rewritten. */
  lemma {:induction false} RunInv<T>(states: seq<Queue<T>>, actions: seq<Action<T>>, n: nat)
    requires IsRun(states, actions) && Inv(states[0]) && n < |states|
    ensures Inv(states[n])
  {
    hide Inv, Enabled, Step;
    if n > 0 {
      RunInv(states, actions, n - 1);
      StepKeeps(states[n - 1], actions[n - 1]);
    }
  }

  /** An insert is refused exactly when max_count - 1 items were outstanding when it read the
      head; a peek or remove finds nothing exactly when none was outstanding when it read the tail. */
  lemma RunRefusals<T>(states: seq<Queue<T>>, actions: seq<Action<T>>, n: nat)
    requires IsRun(states, actions) && Inv(states[0]) && n < |actions|
    ensures actions[n].BeginInsert? ==>
              (states[n + 1].producer.PIdle? <==> Outstanding(states[n]) == Max(states[n]) - 1)
    ensures actions[n].BeginPeek? || actions[n].BeginRemove? ==>
              (states[n + 1].consumer.CIdle? <==> Outstanding(states[n]) == 0)
  {
    RunInv(states, actions, n);
    TestsExact(states[n]);
  }

  /** What a consumer that peeks before each remove gets is a prefix of what was inserted. */
  lemma {:induction false} PeekedPrefix<T>(states: seq<Queue<T>>, actions: seq<Action<T>>, n: nat, k: nat)
    requires IsRun(states, actions) && Inv(states[0]) && n < |states|
    requires k < |states[n].removed| && states[n].removed[k].Some?
    ensures k < |states[n].inserted| && states[n].removed[k].value == states[n].inserted[k]
  {
    RunInv(states, actions, n);
  }

  // ----- the queue in memory

  class SpscQueue<T(0)> {
    const buffer: array<T>
    var head: nat
    var tail: nat
    ghost var producer: ProducerPc<T>
    ghost var consumer: ConsumerPc
    ghost var peeked: Option<T>
    ghost var inserted: seq<T>
    ghost var removed: seq<Option<T>>

    ghost function State(): Queue<T>
      reads this, buffer
    {
      Queue(buffer[..], head, tail, producer, consumer, peeked, inserted, removed)
    }

    ghost predicate Valid()
      reads this, buffer
    {
      Inv(State())
    }

    constructor (maxElements: nat)
      requires maxElements > 0
      ensures Valid() && fresh(buffer) && buffer.Length == maxElements && State() == Init(buffer[..])
    {
      head, tail := 0, 0;
      buffer := new T[maxElements];
      producer, consumer, peeked, inserted, removed := PIdle, CIdle, None, [], [];
      new;
      InitOk(buffer[..]);
    }

    /** The first load of queue_spsc_insert. */
    method TestRoom(element: T) returns (room: bool)
      requires Valid() && producer.PIdle?
      modifies this`producer
      ensures Valid() && State() == Step(old(State()), BeginInsert(element)) && room == producer.PStore?
    {
      hide Inv;
      InvSize(State());
      StepKeeps(State(), BeginInsert(element));
      room := (tail + 1) % buffer.Length != head;
      if room { producer := PStore(element); }
    }

    method StoreElement(element: T)
      requires Valid() && producer == PStore(element)
      modifies this`producer, buffer
      ensures Valid() && State() == Step(old(State()), StoreItem)
    {
      InvSize(State());
      StoreSparesUnread(State());
      hide Inv;
      StepKeeps(State(), StoreItem);
      buffer[tail] := element;
      producer := PPublish(element);
    }

    method PublishElement(element: T)
      requires Valid() && producer == PPublish(element)
      modifies this`producer, this`tail, this`inserted
      ensures Valid() && State() == Step(old(State()), PublishTail)
    {
      hide Inv;
      InvSize(State());
      StepKeeps(State(), PublishTail);
      tail := (tail + 1) % buffer.Length;
      inserted, producer := inserted + [element], PIdle;
    }

    /** queue_spsc_insert with no consumer step in between. */
    method Insert(element: T) returns (ok: bool)
      requires Valid() && producer.PIdle?
      modifies this`producer, this`tail, this`inserted, buffer
      ensures Valid() && producer.PIdle?
      ensures ok <==> old(Outstanding(State())) < buffer.Length - 1
      ensures inserted == if ok then old(inserted) + [element] else old(inserted)
    {
      InvTests(State());
      hide Inv;
      ok := TestRoom(element);
      if ok {
        StoreElement(element);
        PublishElement(element);
      }
    }

    /** queue_spsc_peek; None stands for the default value the source returns. */
    method Peek() returns (item: Option<T>)
      requires Valid() && consumer.CIdle?
      modifies this`peeked
      ensures Valid()
      ensures item == if |removed| < |inserted| then Some(inserted[|removed|]) else None
      ensures item.Some? ==> peeked == item
    {
      InvTests(State());
      if tail != head {
        FrontThere(State());
        item := Some(buffer[head]);
        peeked := item;
      } else {
        item := None;
      }
    }

    /** queue_spsc_remove with no producer step in between. */
    method Remove() returns (ok: bool)
      requires Valid() && consumer.CIdle?
      modifies this`head, this`removed, this`peeked
      ensures Valid() && (ok <==> old(Outstanding(State())) > 0)
      ensures removed == if ok then old(removed) + [old(peeked)] else old(removed)
    {
      InvTests(State());
      ghost var moving := State().(consumer := CMove);
      if head != tail {
        BeginKeeps(State(), moving);
        MoveKeeps(moving);
        hide Inv;
        head := (head + 1) % buffer.Length;
        removed, peeked := removed + [peeked], None;
        return true;
      }
      return false;
    }

    method IsEmpty() returns (empty: bool)
      requires Valid()
      ensures empty <==> Outstanding(State()) == 0
    {
      InvTests(State());
      return tail == head;
    }
  }

  lemma InvSize<T>(q: Queue<T>)
    requires Inv(q)
    ensures Max(q) > 0
  {
  }

  lemma InvTests<T>(q: Queue<T>)
    requires Inv(q)
    ensures Max(q) > 0 && (Full(q) <==> Outstanding(q) == Max(q) - 1) && (q.head == q.tail <==> Outstanding(q) == 0)
    ensures Outstanding(q) >= 0
  {
    TestsExact(q);
  }

  lemma FrontThere<T>(q: Queue<T>)
    requires Inv(q) && Outstanding(q) > 0
    ensures q.head < Max(q) && q.buffer[q.head] == q.inserted[|q.removed|]
  {
    assert Holds(q.buffer, q.inserted, |q.removed|);
  }
}
