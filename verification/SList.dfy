/** The singly linked list (MeOS/list.h), with `Nodes` the sequence it stands for. */
module SList {

  class Node<T> {
    const data: T
    var next: Node?<T>

    constructor (data: T)
      ensures this.data == data && next == null
    {
      this.data := data;
      next := null;
    }
  }

  ghost function DataOf<T>(nodes: seq<Node<T>>): (r: seq<T>)
    ensures |r| == |nodes| && forall k :: 0 <= k < |r| ==> r[k] == nodes[k].data
  {
    seq(|nodes|, k requires 0 <= k < |nodes| => nodes[k].data)
  }

  class List<T> {
    var head: Node?<T>
    var tail: Node?<T>
    var count: nat
    ghost var Nodes: seq<Node<T>>

    ghost function Items(): seq<T>
      reads this
    {
      DataOf(Nodes)
    }

    ghost predicate Valid()
      reads this, Nodes
    {
      && count == |Nodes|
      && (forall i, j :: 0 <= i < j < |Nodes| ==> Nodes[i] != Nodes[j])
      && head == (if Nodes == [] then null else Nodes[0])
      && tail == (if Nodes == [] then null else Nodes[|Nodes| - 1])
      && (forall i {:trigger Nodes[i].next} :: 0 <= i < |Nodes| ==>
          Nodes[i].next == if i + 1 < |Nodes| then Nodes[i + 1] else null)
    }

    constructor ()
      ensures Valid() && Nodes == []
    {
      head, tail, count, Nodes := null, null, 0, [];
    }

    /** list_insert_back */
    method InsertBack(element: T)
      requires Valid()
      modifies this, Nodes
      ensures Valid() && |Nodes| == |old(Nodes)| + 1 && Nodes[..|old(Nodes)|] == old(Nodes)
      ensures fresh(Nodes[|old(Nodes)|]) && Nodes[|old(Nodes)|].data == element
      ensures Items() == old(Items()) + [element]
    {
      var node := new Node(element);
      if count == 0 {
        head, tail := node, node;
      } else {
        tail.next := node;
        tail := node;
      }
      count, Nodes := count + 1, Nodes + [node];
    }

    /** list_remove_front */
    method RemoveFront()
      requires Valid()
      modifies this
      ensures Valid() && Nodes == if old(Nodes) == [] then [] else old(Nodes)[1..]
    {
      if count == 0 { return; }
      head := head.next;
      count := count - 1;
      Nodes := Nodes[1..];
      if count == 0 { head, tail := null, null; }
    }

    /** list_remove: unlinks the node after `prev`; in a list of one node, `prev` itself.  With
        more nodes the caller must not pass the last one. */
    method Remove(prev: Node?<T>, ghost k: nat) returns (removed: bool)
      requires Valid() && (prev != null ==> k < |Nodes| && Nodes[k] == prev && (|Nodes| > 1 ==> k + 1 < |Nodes|))
      modifies this, prev
      ensures Valid() && removed == (prev != null)
      ensures !removed ==> Nodes == old(Nodes)
      ensures removed && |old(Nodes)| == 1 ==> Nodes == []
      ensures removed && |old(Nodes)| > 1 ==> Nodes == old(Nodes)[..k + 1] + old(Nodes)[k + 2..]
    {
      if prev == null || count == 0 { return prev != null; }
      if count == 1 {
        head, tail, count, Nodes := null, null, 0, [];
        return true;
      }
      var temp := prev.next;
      prev.next := temp.next;
      if temp == tail { tail := prev; }
      count := count - 1;
      Nodes := Nodes[..k + 1] + Nodes[k + 2..];
      if count == 1 { tail := head; }
      return true;
    }
  }
}
