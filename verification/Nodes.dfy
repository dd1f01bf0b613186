/** The doubly linked nodes of `jobqueue.c` and `linked_list.c`. */
module Nodes {
  import opened Sequences

  class Node<T> {
    const data: T
    var prev: Node?<T>
    var next: Node?<T>

    constructor (data: T)
      ensures this.data == data && prev == null && next == null
    {
      this.data := data;
      prev, next := null, null;
    }
  }

  ghost predicate Distinct<T>(nodes: seq<Node<T>>) {
    forall i, j :: 0 <= i < j < |nodes| ==> nodes[i] != nodes[j]
  }

  ghost predicate NextLinks<T>(nodes: seq<Node<T>>)
    reads nodes
  {
    && (nodes != [] ==> nodes[|nodes| - 1].next == null)
    && forall k :: 0 <= k < |nodes| - 1 ==> nodes[k].next == nodes[k + 1]
  }

  /** Each `prev` is right, the head's excepted. */
  ghost predicate PrevLinks<T>(nodes: seq<Node<T>>)
    reads nodes
  {
    forall k :: 0 < k < |nodes| ==> nodes[k].prev == nodes[k - 1]
  }

  ghost function Data<T>(nodes: seq<Node<T>>): (r: seq<T>)
    ensures |r| == |nodes| && forall k :: 0 <= k < |nodes| ==> r[k] == nodes[k].data
  {
    seq(|nodes|, k requires 0 <= k < |nodes| => nodes[k].data)
  }

  lemma DataRemoved<T>(nodes: seq<Node<T>>, k: nat)
    requires k < |nodes|
    ensures Data(RemoveAt(nodes, k)) == RemoveAt(Data(nodes), k)
  {
  }

  lemma DataJoined<T>(a: seq<Node<T>>, b: seq<Node<T>>)
    ensures Data(a + b) == Data(a) + Data(b)
    ensures |a| == 1 ==> Data(a) == [a[0].data]
    ensures |b| == 1 ==> Data(b) == [b[0].data]
  {
  }

  /** Linking a new node after the last one keeps the links of the others. */
  twostate lemma Appended<T>(before: seq<Node<T>>, new node: Node<T>)
    requires old(Distinct(before) && NextLinks(before) && PrevLinks(before))
    requires forall k :: 0 <= k < |before| ==> before[k] != node && before[k].prev == old(before[k].prev)
    requires forall k :: 0 <= k < |before| - 1 ==> before[k].next == old(before[k].next)
    requires node.next == null
    requires before != [] ==> before[|before| - 1].next == node && node.prev == before[|before| - 1]
    ensures Distinct(before + [node]) && NextLinks(before + [node]) && PrevLinks(before + [node])
  {
  }
}
