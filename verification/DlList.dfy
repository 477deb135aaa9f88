/** The intrusive doubly linked list (MeOS/dl_list.h), with `Nodes` the sequence it stands for. */
module DlList {
  import opened ListSpec

  class Node<T> {
    const data: T
    var next: Node?<T>
    var prev: Node?<T>

    constructor (data: T)
      ensures this.data == data && next == null && prev == null
    {
      this.data := data;
      next, prev := null, null;
    }
  }

  ghost function DataOf<T>(nodes: seq<Node<T>>): (r: seq<T>)
    ensures |r| == |nodes| && forall k :: 0 <= k < |r| ==> r[k] == nodes[k].data
  {
    seq(|nodes|, k requires 0 <= k < |nodes| => nodes[k].data)
  }

  class List<T(==)> {
    var head: Node?<T>
    var tail: Node?<T>
    var count: nat
    ghost var Nodes: seq<Node<T>>

    ghost predicate Valid()
      reads this, Nodes
    {
      && count == |Nodes|
      && (forall i, j :: 0 <= i < j < |Nodes| ==> Nodes[i] != Nodes[j])
      && head == (if Nodes == [] then null else Nodes[0])
      && tail == (if Nodes == [] then null else Nodes[|Nodes| - 1])
      && (forall i {:trigger Nodes[i].next} :: 0 <= i < |Nodes| ==>
          Nodes[i].next == if i + 1 < |Nodes| then Nodes[i + 1] else null)
      && (forall i {:trigger Nodes[i].prev} :: 0 <= i < |Nodes| ==>
          Nodes[i].prev == if i > 0 then Nodes[i - 1] else null)
    }

    constructor ()
      ensures Valid() && Nodes == []
    {
      head, tail, count, Nodes := null, null, 0, [];
    }

    /** The first node that carries `item`, or null when none does. */
    method FindNode(item: T) returns (r: Node?<T>)
      requires Valid()
      ensures r == null ==> forall n :: n in Nodes ==> n.data != item
      ensures r != null ==> r in Nodes && r.data == item &&
                            forall n :: n in Nodes[..IndexIn(Nodes, r)] ==> n.data != item
    {
      if count == 0 { return null; }
      var temp := head;
      ghost var k := 0;
      while temp != null
        invariant k <= |Nodes| && temp == if k < |Nodes| then Nodes[k] else null
        invariant forall i :: 0 <= i < k ==> Nodes[i].data != item
        decreases |Nodes| - k
      {
        if temp.data == item {
          assert IndexIn(Nodes, temp) == k;
          return temp;
        }
        temp := temp.next;
        k := k + 1;
      }
      return null;
    }

    /** Unlink `node`, which must be in this list unless the list is empty. */
    method RemoveNode(node: Node<T>) returns (r: Node?<T>)
      requires Valid() && (count == 0 || node in Nodes)
      modifies this, Nodes
      ensures Valid()
      ensures old(count) == 0 ==> r == null && Nodes == []
      ensures old(count) != 0 ==>
                r == node && Nodes == Without(old(Nodes), node) && node.next == null && node.prev == null
    {
      if count == 0 { return null; }
      if count == 1 {
        Nodes := [];
        count, head, tail := 0, null, null;
        node.next, node.prev := null, null;
        return node;
      }
      Unlink(node, IndexIn(Nodes, node));
      return node;
    }

    /** The part of RemoveNode that fixes the neighbours, head and tail. */
    method Unlink(node: Node<T>, ghost k: nat)
      requires Valid() && count > 1 && k < |Nodes| && node == Nodes[k]
      modifies this, Nodes
      ensures Valid() && Nodes == old(Nodes)[..k] + old(Nodes)[k + 1..]
      ensures node.next == null && node.prev == null
    {
      assert (0 < k ==> node.prev == Nodes[k - 1]) && (k + 1 < |Nodes| ==> node.next == Nodes[k + 1]);
      if node == head {
        head := node.next;
        node.next.prev := null;
      } else if node == tail {
        tail := node.prev;
        node.prev.next := null;
      } else {
        node.prev.next := node.next;
        node.next.prev := node.prev;
      }
      count := count - 1;
      node.next, node.prev := null, null;
      Nodes := Nodes[..k] + Nodes[k + 1..];
    }

    method RemoveFrontNode() returns (r: Node?<T>)
      requires Valid()
      modifies this, Nodes
      ensures Valid()
      ensures old(Nodes) == [] ==> r == null && Nodes == []
      ensures old(Nodes) != [] ==> r == old(Nodes)[0] && Nodes == old(Nodes)[1..] && r.next == null && r.prev == null
    {
      if count == 0 { return null; }
      var temp := head;
      Nodes := Nodes[1..];
      if count == 1 {
        count, head, tail := 0, null, null;
        temp.next, temp.prev := null, null;
        return temp;
      }
      head := head.next;
      head.prev := null;
      count := count - 1;
      temp.next, temp.prev := null, null;
      return temp;
    }

    /** Append a node that is in no list. */
    method InsertBackNode(node: Node<T>)
      requires Valid() && node !in Nodes
      modifies this, Nodes, node
      ensures Valid() && Nodes == old(Nodes) + [node]
    {
      node.next := null;
      if count == 0 {
        head, tail := node, node;
        node.prev := null;
      } else {
        tail.next := node;
        node.prev := tail;
        tail := node;
      }
      count := count + 1;
      Nodes := Nodes + [node];
    }

    /** Move the first node to the back; two nodes have a branch of their own. */
    method HeadToTail()
      requires Valid()
      modifies this, Nodes
      ensures Valid() && Nodes == Rotated(old(Nodes))
    {
      if count == 0 || count == 1 { return; }
      var first := head;
      Nodes := Rotated(Nodes);
      if tail.prev == head {
        tail.prev := null;
        head := tail;
        tail.next := first;
        first.next := null;
        first.prev := tail;
        tail := first;
      } else {
        head := head.next;
        head.prev := null;
        first.next := null;
        first.prev := tail;
        tail.next := first;
        tail := first;
      }
    }
  }

  ghost predicate Disjoint<T>(a: seq<Node<T>>, b: seq<Node<T>>) {
    forall n :: n in a ==> n !in b
  }

  /** The move every scheduler and semaphore operation is made of: out of one queue, to the back
      of another.  Queues that share no node still share none afterwards. */
  method MoveNode<T(==)>(from: List<T>, to: List<T>, node: Node<T>)
    requires from != to && from.Valid() && to.Valid() && Disjoint(from.Nodes, to.Nodes) && node in from.Nodes
    modifies from, to, from.Nodes, to.Nodes
    ensures from.Valid() && to.Valid() && Disjoint(from.Nodes, to.Nodes)
    ensures from.Nodes == Without(old(from.Nodes), node) && to.Nodes == old(to.Nodes) + [node]
  {
    hide Without, Disjoint;
    TakeOut(from, to, node);
    PutBack(from, to, node);
  }

  /** The same when the node is known to be the first: the front is unlinked, whatever it is, and
      the given node is queued. */
  method MoveFront<T(==)>(from: List<T>, to: List<T>, node: Node<T>)
    requires from != to && from.Valid() && to.Valid() && Disjoint(from.Nodes, to.Nodes)
    requires from.Nodes != [] && node == from.Nodes[0]
    modifies from, to, from.Nodes, to.Nodes
    ensures from.Valid() && to.Valid() && Disjoint(from.Nodes, to.Nodes)
    ensures from.Nodes == old(from.Nodes)[1..] && to.Nodes == old(to.Nodes) + [node]
  {
    hide Disjoint;
    TakeFront(from, to);
    PutBack(from, to, node);
  }

  method TakeFront<T(==)>(from: List<T>, to: List<T>)
    requires from != to && from.Valid() && to.Valid() && Disjoint(from.Nodes, to.Nodes) && from.Nodes != []
    modifies from, from.Nodes
    ensures from.Valid() && to.Valid() && Disjoint(from.Nodes, to.Nodes) && to.Nodes == old(to.Nodes)
    ensures from.Nodes == old(from.Nodes)[1..] && old(from.Nodes)[0] !in from.Nodes && old(from.Nodes)[0] !in to.Nodes
  {
    ValidShape(from);
    hide List.Valid;
    ghost var target, first := to.Nodes, from.Nodes[0];
    assert first in from.Nodes;
    assert forall k :: 0 <= k < |target| ==> target[k] in target && target[k] !in from.Nodes;
    assert first !in from.Nodes[1..];
    var moved := from.RemoveFrontNode();
    StaysValid(to);
  }

  method TakeOut<T(==)>(from: List<T>, to: List<T>, node: Node<T>)
    requires from != to && from.Valid() && to.Valid() && Disjoint(from.Nodes, to.Nodes) && node in from.Nodes
    modifies from, from.Nodes
    ensures from.Valid() && to.Valid() && Disjoint(from.Nodes, to.Nodes) && to.Nodes == old(to.Nodes)
    ensures from.Nodes == Without(old(from.Nodes), node) && node !in from.Nodes && node !in to.Nodes
  {
    ValidShape(from);
    hide Without, IndexIn, List.Valid;
    WithoutNode(from.Nodes, node);
    ghost var target := to.Nodes;
    assert forall k :: 0 <= k < |target| ==> target[k] in target && target[k] !in from.Nodes;
    var moved := from.RemoveNode(node);
    StaysValid(to);
  }

  method PutBack<T(==)>(from: List<T>, to: List<T>, node: Node<T>)
    requires from != to && from.Valid() && to.Valid() && Disjoint(from.Nodes, to.Nodes)
    requires node !in from.Nodes && node !in to.Nodes
    modifies to, to.Nodes, node
    ensures from.Valid() && to.Valid() && Disjoint(from.Nodes, to.Nodes)
    ensures from.Nodes == old(from.Nodes) && to.Nodes == old(to.Nodes) + [node]
  {
    hide List.Valid;
    ghost var rest := from.Nodes;
    assert forall k :: 0 <= k < |rest| ==> rest[k] in rest && rest[k] !in to.Nodes && rest[k] != node;
    to.InsertBackNode(node);
    StaysValid(from);
  }

  twostate lemma StaysValid<T>(l: List<T>)
    requires old(l.Valid()) && unchanged(l)
    requires forall k :: 0 <= k < |l.Nodes| ==>
               l.Nodes[k].next == old(l.Nodes[k].next) && l.Nodes[k].prev == old(l.Nodes[k].prev)
    ensures l.Valid()
  {
  }

  lemma ValidShape<T>(l: List<T>)
    requires l.Valid()
    ensures l.count == |l.Nodes| && forall i, j :: 0 <= i < j < |l.Nodes| ==> l.Nodes[i] != l.Nodes[j]
  {
  }

  lemma WithoutNode<T>(s: seq<Node<T>>, x: Node<T>)
    requires x in s && forall i, j :: 0 <= i < j < |s| ==> s[i] != s[j]
    ensures x !in Without(s, x) && forall y :: y in Without(s, x) ==> y in s
  {
    WithoutAt(s, x);
  }
}
