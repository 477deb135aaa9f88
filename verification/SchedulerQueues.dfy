/** The scheduler's queues as linked lists: the eight ready queues, the block and the sleep queue,
    and one waiting list per semaphore (MeOS/thread_sched.h, MeOS/semaphore.h). */
module SchedulerQueues {
  import opened ListSpec
  import opened SchedulerSpec
  import opened DlList

  type Queues = map<Place, List<Tid>>

  /** The nodes in each queue, in order, and the threads they stand for. */
  ghost function NodesOf(qs: Queues): (nm: map<Place, seq<Node<Tid>>>)
    reads set q | q in qs :: qs[q]
    ensures nm.Keys == qs.Keys && forall q :: q in qs ==> nm[q] == qs[q].Nodes
  {
    map q | q in qs :: qs[q].Nodes
  }

  ghost function Threads(nm: map<Place, seq<Node<Tid>>>): (items: map<Place, seq<Tid>>)
    ensures items.Keys == nm.Keys && forall q :: q in nm ==> items[q] == DataOf(nm[q])
  {
    map q | q in nm :: DataOf(nm[q])
  }

  ghost function Items(qs: Queues): map<Place, seq<Tid>>
    reads set q | q in qs :: qs[q]
  {
    Threads(NodesOf(qs))
  }

  /** No node is in two queues. */
  ghost predicate AllApart(nm: map<Place, seq<Node<Tid>>>) {
    forall q, r :: q in nm && r in nm && q != r ==> Disjoint(nm[q], nm[r])
  }

  ghost predicate OwnHeaders(qs: Queues) {
    forall q, r :: q in qs && r in qs && q != r ==> qs[q] != qs[r]
  }

  ghost predicate AllValid(qs: Queues)
    reads set q | q in qs :: qs[q]
    reads set q, k | q in qs && 0 <= k < |qs[q].Nodes| :: qs[q].Nodes[k]
  {
    forall q :: q in qs ==> qs[q].Valid()
  }

  /** Well-formed lists that share neither headers nor nodes. */
  ghost predicate Linked(qs: Queues)
    reads set q | q in qs :: qs[q]
    reads set q, k | q in qs && 0 <= k < |qs[q].Nodes| :: qs[q].Nodes[k]
  {
    AllValid(qs) && OwnHeaders(qs) && AllApart(NodesOf(qs))
  }

  /** The footprint covers the queues and their nodes. */
  ghost predicate Covers(repr: set<object>, qs: Queues)
    reads set q | q in qs :: qs[q]
  {
    (forall q :: q in qs ==> qs[q] in repr) && CoversNodes(repr, NodesOf(qs))
  }

  ghost predicate CoversNodes(repr: set<object>, nm: map<Place, seq<Node<Tid>>>) {
    forall q, n :: q in nm && n in nm[q] ==> n in repr
  }

  // ----- sequences of nodes and of threads

  /** What is left of the nodes after one is taken out is left of the threads. */
  lemma WithoutData(nodes: seq<Node<Tid>>, node: Node<Tid>)
    requires node in nodes && Distinct(DataOf(nodes))
    ensures node.data in DataOf(nodes) && DataOf(Without(nodes, node)) == Without(DataOf(nodes), node.data)
    ensures forall n :: n in Without(nodes, node) ==> n in nodes
  {
    var k := IndexIn(nodes, node);
    assert DataOf(nodes)[k] == node.data;
    assert IndexIn(DataOf(nodes), node.data) == k;
  }

  lemma AppendedData(nodes: seq<Node<Tid>>, node: Node<Tid>)
    ensures DataOf(nodes + [node]) == DataOf(nodes) + [node.data]
  {
  }

  lemma RestData(nodes: seq<Node<Tid>>)
    requires nodes != []
    ensures DataOf(nodes[1..]) == DataOf(nodes)[1..] && forall n :: n in nodes[1..] ==> n in nodes
  {
  }

  lemma RotatedData(nodes: seq<Node<Tid>>)
    ensures DataOf(Rotated(nodes)) == Rotated(DataOf(nodes)) && forall n :: n in Rotated(nodes) ==> n in nodes
  {
  }

  /** Queues stay apart when one gives a node to another, or one changes within its own nodes and
      ones that are in no queue. */
  lemma MovedApart(nm: map<Place, seq<Node<Tid>>>, from: Place, to: Place, rest: seq<Node<Tid>>, node: Node<Tid>)
    requires AllApart(nm) && from in nm && to in nm && from != to && node in nm[from]
    requires (forall n :: n in rest ==> n in nm[from]) && Disjoint(rest, nm[to] + [node])
    ensures AllApart(nm[from := rest][to := nm[to] + [node]])
  {
    var moved := nm[from := rest][to := nm[to] + [node]];
    forall q, r | q in moved && r in moved && q != r ensures Disjoint(moved[q], moved[r]) {
      forall n | n in moved[q] ensures n !in moved[r] {
        assert Disjoint(nm[from], nm[to]) && Disjoint(nm[to], nm[from]);
        if q != from && q != to { assert Disjoint(nm[q], nm[from]) && Disjoint(nm[q], nm[to]); }
        if r != from && r != to { assert Disjoint(nm[from], nm[r]) && Disjoint(nm[to], nm[r]); }
        if q != from && q != to && r != from && r != to { assert Disjoint(nm[q], nm[r]); }
      }
    }
  }

  lemma MovedCovered(repr: set<object>, nm: map<Place, seq<Node<Tid>>>, from: Place, to: Place, rest: seq<Node<Tid>>,
                     node: Node<Tid>)
    requires CoversNodes(repr, nm) && from in nm && to in nm && node in nm[from]
               && forall n :: n in rest ==> n in nm[from]
    ensures CoversNodes(repr, nm[from := rest][to := nm[to] + [node]])
  {
  }

  lemma ChangedCovered(repr: set<object>, nm: map<Place, seq<Node<Tid>>>, p: Place, nodes: seq<Node<Tid>>,
                       repr': set<object>)
    requires CoversNodes(repr, nm) && p in nm && repr <= repr' && forall n :: n in nodes ==> n in nm[p] || n in repr'
    ensures CoversNodes(repr', nm[p := nodes])
  {
  }

  lemma ChangedApart(nm: map<Place, seq<Node<Tid>>>, p: Place, nodes: seq<Node<Tid>>)
    requires AllApart(nm) && p in nm
    requires forall n :: n in nodes ==> n in nm[p] || forall q :: q in nm ==> n !in nm[q]
    ensures AllApart(nm[p := nodes])
  {
    forall q | q in nm && q != p ensures Disjoint(nodes, nm[q]) && Disjoint(nm[q], nodes) {
      assert Disjoint(nm[p], nm[q]);
    }
  }

  /** The nodes of a third list are not among those of two others. */
  lemma ThirdApart(nm: map<Place, seq<Node<Tid>>>, q: Place, from: Place, to: Place)
    requires AllApart(nm) && q in nm && from in nm && to in nm && q != from && q != to
    ensures forall k :: 0 <= k < |nm[q]| ==> nm[q][k] !in nm[from] && nm[q][k] !in nm[to]
  {
    assert Disjoint(nm[q], nm[from]) && Disjoint(nm[q], nm[to]);
    forall k | 0 <= k < |nm[q]| ensures nm[q][k] !in nm[from] && nm[q][k] !in nm[to] {
      assert nm[q][k] in nm[q];
    }
  }

  lemma PairApart(nm: map<Place, seq<Node<Tid>>>, from: Place, to: Place)
    requires AllApart(nm) && from in nm && to in nm && from != to
    ensures Disjoint(nm[from], nm[to])
  {
  }

  // ----- changing one list or two

  /** All lists but those of `from` and `to` have kept their nodes. */
  twostate predicate OthersKept(qs: Queues, from: Place, to: Place)
    reads set q | q in qs :: qs[q]
  {
    forall q :: q in qs && q != from && q != to ==> qs[q].Nodes == old(qs[q].Nodes)
  }

  /** What a move leaves, from what it did to the nodes. */
  lemma Moved(qs: Queues, nm: map<Place, seq<Node<Tid>>>, from: Place, to: Place, node: Node<Tid>, repr: set<object>)
    requires AllValid(qs) && OwnHeaders(qs) && AllApart(nm) && CoversNodes(repr, nm)
               && forall q :: q in qs ==> qs[q] in repr
    requires nm.Keys == qs.Keys && from in qs && to in qs && from != to && node in nm[from]
    requires forall q :: q in qs && q != from && q != to ==> qs[q].Nodes == nm[q]
    requires (forall n :: n in qs[from].Nodes ==> n in nm[from]) && qs[to].Nodes == nm[to] + [node]
    requires Disjoint(qs[from].Nodes, qs[to].Nodes)
    ensures Linked(qs) && Covers(repr, qs)
    ensures Items(qs) == Threads(nm)[from := DataOf(qs[from].Nodes)][to := Threads(nm)[to] + [node.data]]
  {
    hide AllValid, OwnHeaders, AllApart, CoversNodes, Disjoint, DataOf, Threads, NodesOf;
    var rest := qs[from].Nodes;
    NodesMoved(qs, nm, from, to, node);
    ThreadsMoved(nm, from, to, rest, node);
    MovedApart(nm, from, to, rest, node);
    MovedCovered(repr, nm, from, to, rest, node);
  }

  lemma NodesMoved(qs: Queues, nm: map<Place, seq<Node<Tid>>>, from: Place, to: Place, node: Node<Tid>)
    requires nm.Keys == qs.Keys && from in qs && to in qs && from != to && qs[to].Nodes == nm[to] + [node]
    requires forall q :: q in qs && q != from && q != to ==> qs[q].Nodes == nm[q]
    ensures NodesOf(qs) == nm[from := qs[from].Nodes][to := nm[to] + [node]]
  {
  }

  lemma ThreadsMoved(nm: map<Place, seq<Node<Tid>>>, from: Place, to: Place, rest: seq<Node<Tid>>, node: Node<Tid>)
    requires from in nm && to in nm && from != to
    ensures Threads(nm[from := rest][to := nm[to] + [node]]) ==
              Threads(nm)[from := DataOf(rest)][to := Threads(nm)[to] + [node.data]]
  {
    hide DataOf;
    AppendedData(nm[to], node);
  }

  /** The same for a change to one list. */
  lemma Changed(qs: Queues, nm: map<Place, seq<Node<Tid>>>, p: Place, repr: set<object>, repr': set<object>)
    requires AllValid(qs) && OwnHeaders(qs) && AllApart(nm) && CoversNodes(repr, nm)
               && forall q :: q in qs ==> qs[q] in repr
    requires nm.Keys == qs.Keys && p in qs && repr <= repr'
    requires forall q :: q in qs && q != p ==> qs[q].Nodes == nm[q]
    requires forall n :: n in qs[p].Nodes ==> n in nm[p] || (n in repr' && forall q :: q in nm ==> n !in nm[q])
    ensures Linked(qs) && Covers(repr', qs)
    ensures Items(qs) == Threads(nm)[p := DataOf(qs[p].Nodes)]
  {
    hide AllValid, OwnHeaders, AllApart, CoversNodes, DataOf;
    assert NodesOf(qs) == nm[p := qs[p].Nodes];
    ChangedApart(nm, p, qs[p].Nodes);
    ChangedCovered(repr, nm, p, qs[p].Nodes, repr');
  }

  /** The node-level move, with all other lists untouched. */
  method MoveNodes(qs: Queues, from: Place, to: Place, node: Node<Tid>)
    requires Linked(qs) && from in qs && to in qs && from != to && node in qs[from].Nodes
    modifies qs[from], qs[to], qs[from].Nodes, qs[to].Nodes
    ensures AllValid(qs) && Disjoint(qs[from].Nodes, qs[to].Nodes) && OthersKept(qs, from, to)
    ensures qs[from].Nodes == Without(old(qs[from].Nodes), node) && qs[to].Nodes == old(qs[to].Nodes) + [node]
  {
    hide List.Valid, Disjoint, Without, AllApart;
    ghost var nm := NodesOf(qs);
    PairApart(nm, from, to);
    MoveNode(qs[from], qs[to], node);
    forall q | q in qs && q != from && q != to ensures qs[q].Valid() && qs[q].Nodes == nm[q] {
      ThirdApart(nm, q, from, to);
      StaysValid(qs[q]);
    }
  }

  method MoveFirstNode(qs: Queues, from: Place, to: Place, node: Node<Tid>)
    requires Linked(qs) && from in qs && to in qs && from != to && qs[from].Nodes != [] && node == qs[from].Nodes[0]
    modifies qs[from], qs[to], qs[from].Nodes, qs[to].Nodes
    ensures AllValid(qs) && Disjoint(qs[from].Nodes, qs[to].Nodes) && OthersKept(qs, from, to)
    ensures qs[from].Nodes == old(qs[from].Nodes)[1..] && qs[to].Nodes == old(qs[to].Nodes) + [node]
  {
    hide List.Valid, Disjoint, AllApart;
    ghost var nm := NodesOf(qs);
    PairApart(nm, from, to);
    MoveFront(qs[from], qs[to], node);
    forall q | q in qs && q != from && q != to ensures qs[q].Valid() && qs[q].Nodes == nm[q] {
      ThirdApart(nm, q, from, to);
      StaysValid(qs[q]);
    }
  }

  method RotateNodes(qs: Queues, p: Place)
    requires Linked(qs) && p in qs
    modifies qs[p], qs[p].Nodes
    ensures AllValid(qs) && OthersKept(qs, p, p) && qs[p].Nodes == Rotated(old(qs[p].Nodes))
  {
    hide List.Valid, Disjoint, AllApart, Rotated;
    ghost var nm := NodesOf(qs);
    qs[p].HeadToTail();
    forall q | q in qs && q != p ensures qs[q].Valid() && qs[q].Nodes == nm[q] {
      ThirdApart(nm, q, p, p);
      StaysValid(qs[q]);
    }
  }

  method AppendNode(qs: Queues, p: Place, t: Tid) returns (node: Node<Tid>)
    requires Linked(qs) && p in qs
    modifies qs[p], qs[p].Nodes
    ensures AllValid(qs) && OthersKept(qs, p, p) && qs[p].Nodes == old(qs[p].Nodes) + [node]
    ensures fresh(node) && node.data == t
  {
    hide List.Valid, Disjoint, AllApart;
    ghost var nm := NodesOf(qs);
    node := new Node(t);
    qs[p].InsertBackNode(node);
    forall q | q in qs && q != p ensures qs[q].Valid() && qs[q].Nodes == nm[q] {
      ThirdApart(nm, q, p, p);
      StaysValid(qs[q]);
    }
  }

  /** dl_list_remove_node from one queue and dl_list_insert_back_node on another. */
  method Move(qs: Queues, from: Place, to: Place, node: Node<Tid>, ghost repr: set<object>)
    requires Covers(repr, qs) && Linked(qs) && from in qs && to in qs && from != to
    requires node in qs[from].Nodes && Distinct(Items(qs)[from])
    modifies qs[from], qs[to], qs[from].Nodes, qs[to].Nodes
    ensures Covers(repr, qs) && Linked(qs)
    ensures node.data in old(Items(qs))[from]
    ensures Items(qs) ==
              old(Items(qs))[from := Without(old(Items(qs))[from], node.data)][to := old(Items(qs))[to] + [node.data]]
    ensures qs[from].Nodes == Without(old(qs[from].Nodes), node)
  {
    hide AllValid, Disjoint, Without, DataOf, AllApart, OwnHeaders, Distinct, CoversNodes;
    ghost var nm := NodesOf(qs);
    WithoutData(nm[from], node);
    MoveNodes(qs, from, to, node);
    Moved(qs, nm, from, to, node, repr);
  }

  /** The front of one queue is unlinked and `node`, which is that front, queued on another. */
  method MoveFirst(qs: Queues, from: Place, to: Place, node: Node<Tid>, ghost repr: set<object>)
    requires Covers(repr, qs) && Linked(qs) && from in qs && to in qs && from != to
    requires qs[from].Nodes != [] && node == qs[from].Nodes[0]
    modifies qs[from], qs[to], qs[from].Nodes, qs[to].Nodes
    ensures Covers(repr, qs) && Linked(qs)
    ensures Items(qs) == old(Items(qs))[from := old(Items(qs))[from][1..]][to := old(Items(qs))[to] + [node.data]]
    ensures qs[from].Nodes == old(qs[from].Nodes)[1..]
  {
    hide AllValid, Disjoint, DataOf, AllApart, OwnHeaders, CoversNodes;
    ghost var nm := NodesOf(qs);
    assert node in nm[from];
    RestData(nm[from]);
    MoveFirstNode(qs, from, to, node);
    Moved(qs, nm, from, to, node, repr);
  }

  /** dl_list_head_to_tail on one queue. */
  method Rotate(qs: Queues, p: Place, ghost repr: set<object>)
    requires Covers(repr, qs) && Linked(qs) && p in qs
    modifies qs[p], qs[p].Nodes
    ensures Covers(repr, qs)
    ensures Linked(qs) && Items(qs) == old(Items(qs))[p := Rotated(old(Items(qs))[p])]
  {
    hide AllValid, DataOf, AllApart, OwnHeaders, Rotated, CoversNodes;
    ghost var nm := NodesOf(qs);
    RotatedData(nm[p]);
    RotateNodes(qs, p);
    Changed(qs, nm, p, repr, repr);
  }

  /** A new node at the back of one queue. */
  method Append(qs: Queues, p: Place, t: Tid, ghost repr: set<object>) returns (node: Node<Tid>)
    requires Covers(repr, qs) && Linked(qs) && p in qs
    modifies qs[p], qs[p].Nodes
    ensures Covers(repr + {node}, qs)
    ensures Linked(qs) && Items(qs) == old(Items(qs))[p := old(Items(qs))[p] + [t]]
    ensures fresh(node) && node in qs[p].Nodes && node.data == t
  {
    hide AllValid, DataOf, AllApart, OwnHeaders, CoversNodes;
    ghost var nm := NodesOf(qs);
    node := AppendNode(qs, p, t);
    AppendedData(nm[p], node);
    Changed(qs, nm, p, repr, repr + {node});
  }

  // ----- the first queues

  /** All lists are well formed, empty and each its own. */
  ghost predicate AllEmpty(qs: Queues)
    reads set q | q in qs :: qs[q]
    reads set q, k | q in qs && 0 <= k < |qs[q].Nodes| :: qs[q].Nodes[k]
  {
    (forall q :: q in qs ==> qs[q].Valid() && qs[q].Nodes == []) && OwnHeaders(qs)
  }

  lemma OneMore(qs: Queues, q: Place, list: List<Tid>)
    requires AllEmpty(qs) && q !in qs && list.Valid() && list.Nodes == [] && forall r :: r in qs ==> qs[r] != list
    ensures AllEmpty(qs[q := list])
  {
    hide List.Valid;
  }

  lemma EmptyLinked(qs: Queues)
    requires AllEmpty(qs)
    ensures Linked(qs) && Covers(set q | q in qs :: qs[q], qs)
    ensures Items(qs).Keys == qs.Keys && forall q :: q in qs ==> Items(qs)[q] == []
  {
    hide List.Valid;
  }

  /** init_thread_scheduler: every level, the block and the sleep queue, all empty. */
  method NewQueues() returns (qs: Queues)
    ensures AllEmpty(qs) && forall q :: q in qs ==> fresh(qs[q])
    ensures forall q :: q in qs <==> (q.ReadyQ? && q.p < NUMBER_PRIORITIES) || q.BlockQ? || q.SleepQ?
  {
    hide List.Valid;
    qs := map[];
    for p := 0 to NUMBER_PRIORITIES
      invariant AllEmpty(qs) && forall q :: q in qs ==> fresh(qs[q])
      invariant forall q :: q in qs <==> q.ReadyQ? && q.p < p
    {
      var level := new List<Tid>();
      OneMore(qs, ReadyQ(p), level);
      qs := qs[ReadyQ(p) := level];
    }
    var block := new List<Tid>();
    OneMore(qs, BlockQ, block);
    qs := qs[BlockQ := block];
    var sleep := new List<Tid>();
    OneMore(qs, SleepQ, sleep);
    qs := qs[SleepQ := sleep];
  }
}
