/** The doubly linked list of `linked_list.c`, which holds the log and each client's sockets. */
module LinkedList {
  import opened Nodes
  import opened Sequences

  /** A list without the first occurrence of a value. */
  function Remove<T(==)>(s: seq<T>, x: T): seq<T> {
    if s == [] then [] else if s[0] == x then s[1..] else [s[0]] + Remove(s[1..], x)
  }

  lemma {:induction false} RemoveFirst<T>(s: seq<T>, x: T, k: nat)
    requires k < |s| && s[k] == x && forall i :: 0 <= i < k ==> s[i] != x
    ensures Remove(s, x) == s[..k] + s[k + 1..]
  {
    if k > 0 {
      RemoveFirst(s[1..], x, k - 1);
      assert s[..k] == [s[0]] + s[1..][..k - 1];
      assert s[1..][k..] == s[k + 1..];
    }
  }

  lemma {:induction false} RemoveAbsent<T>(s: seq<T>, x: T)
    requires forall i :: 0 <= i < |s| ==> s[i] != x
    ensures Remove(s, x) == s
  {
    if s != [] { RemoveAbsent(s[1..], x); }
  }

  /** `head` and `tail` delimit the nodes, which are linked both ways. */
  ghost predicate Linked<T>(nodes: seq<Node<T>>, head: Node?<T>, tail: Node?<T>)
    reads nodes
  {
    && Distinct(nodes) && NextLinks(nodes) && PrevLinks(nodes)
    && (nodes == [] ==> head == null && tail == null)
    && (nodes != [] ==> head == nodes[0] && tail == nodes[|nodes| - 1] && head.prev == null)
  }

  class LList<T(==)> {
    var head: Node?<T>
    var tail: Node?<T>
    ghost var nodes: seq<Node<T>>

    ghost predicate Valid()
      reads this, nodes
    {
      Linked(nodes, head, tail)
    }

    ghost function Contents(): seq<T>
      reads this
    {
      Data(nodes)
    }

    constructor ()
      ensures Valid() && Contents() == []
    {
      head, tail, nodes := null, null, [];
    }

    predicate IsEmpty()
      requires Valid()
      reads this, nodes
      ensures IsEmpty() <==> Contents() == []
    {
      head == null && tail == null
    }

    /** Notes the nodes that an operation has left linked between head and tail. */
    ghost method Hold(now: seq<Node<T>>)
      requires Linked(now, head, tail)
      modifies this`nodes
      ensures Valid() && nodes == now && Contents() == Data(now)
    {
      nodes := now;
    }

    method InsertHead(data: T)
      requires Valid()
      modifies this, if nodes == [] then {} else {nodes[0]}
      ensures Valid() && Contents() == [data] + old(Contents())
      ensures nodes != [] && fresh(nodes[0]) && nodes == [nodes[0]] + old(nodes)
    {
      var n := new Node(data);
      LinkFirst(n);
    }

    method LinkFirst(n: Node<T>)
      requires Valid() && n !in nodes && n.prev == null && n.next == null
      modifies this, n, if nodes == [] then {} else {nodes[0]}
      ensures Valid() && nodes == [n] + old(nodes) && Contents() == [n.data] + old(Contents())
    {
      ghost var all, more := nodes, [n] + nodes;
      DataJoined([n], all);
      if head == null {
        head := n;
        tail := n;
      } else {
        head.prev := n;
        n.next := head;
        head := n;
      }
      PutFirst(all, n);
      Hold(more);
    }

    method InsertTail(data: T)
      requires Valid()
      modifies this, if nodes == [] then {} else {nodes[|nodes| - 1]}
      ensures Valid() && Contents() == old(Contents()) + [data]
      ensures |nodes| == |old(nodes)| + 1 && nodes == old(nodes) + [nodes[|old(nodes)|]] && fresh(nodes[|old(nodes)|])
    {
      var n := new Node(data);
      LinkLast(n);
    }

    method LinkLast(n: Node<T>)
      requires Valid() && n !in nodes && n.prev == null && n.next == null
      modifies this, n, if nodes == [] then {} else {nodes[|nodes| - 1]}
      ensures Valid() && nodes == old(nodes) + [n] && Contents() == old(Contents()) + [n.data]
    {
      ghost var all, more := nodes, nodes + [n];
      DataJoined(all, [n]);
      if tail == null {
        head := n;
        tail := n;
      } else {
        tail.next := n;
        n.prev := tail;
        tail := n;
      }
      PutLast(all, n);
      Hold(more);
    }

    method RemoveHead() returns (data: T)
      requires Valid() && nodes != []
      modifies this, if |nodes| > 1 then {nodes[1]} else {}
      ensures Valid() && data == old(head).data && nodes == RemoveAt(old(nodes), 0)
      ensures Contents() == RemoveAt(old(Contents()), 0)
    {
      ghost var all, rest := nodes, RemoveAt(nodes, 0);
      DataRemoved(all, 0);
      EndsMeet(all);
      var tmp := head;
      data := tmp.data;
      if head == tail {
        head := null;
        tail := null;
      } else {
        head := tmp.next;
        head.prev := null;
      }
      TakenFirst(all);
      Hold(rest);
    }

    method RemoveTail() returns (data: T)
      requires Valid() && nodes != []
      modifies this, if |nodes| > 1 then {nodes[|nodes| - 2]} else {}
      ensures Valid() && data == old(tail).data && nodes == RemoveAt(old(nodes), |old(nodes)| - 1)
      ensures Contents() == RemoveAt(old(Contents()), |old(nodes)| - 1)
    {
      ghost var all, rest := nodes, RemoveAt(nodes, |nodes| - 1);
      DataRemoved(all, |all| - 1);
      EndsMeet(all);
      var tmp := tail;
      data := tmp.data;
      if head == tail {
        head := null;
        tail := null;
      } else {
        tail := tmp.prev;
        tail.next := null;
      }
      TakenLast(all);
      Hold(rest);
    }

    /** Unlinks a node of the list; `k` is where it is. */
    method RemoveNode(n: Node<T>, ghost k: nat) returns (data: T)
      requires Valid() && k < |nodes| && nodes[k] == n
      modifies this, nodes
      ensures Valid() && data == n.data && nodes == RemoveAt(old(nodes), k)
      ensures Contents() == RemoveAt(old(Contents()), k)
    {
      if n == head {
        data := RemoveHead();
      } else if n == tail {
        data := RemoveTail();
      } else {
        data := Unlink(n, k);
      }
    }

    /** A node between two others leaves. */
    method Unlink(n: Node<T>, ghost k: nat) returns (data: T)
      requires Valid() && 0 < k < |nodes| - 1 && nodes[k] == n
      modifies this`nodes, nodes[k - 1], nodes[k + 1]
      ensures Valid() && data == n.data && nodes == RemoveAt(old(nodes), k)
      ensures Contents() == RemoveAt(old(Contents()), k)
    {
      ghost var all, rest := nodes, RemoveAt(nodes, k);
      DataRemoved(all, k);
      Neighbours(all, k);
      data := n.data;
      n.prev.next := n.next;
      n.next.prev := n.prev;
      TakenBetween(all, k);
      Hold(rest);
    }

    /** Removes the first node with this value, if there is one. */
    method RemoveValue(value: T) returns (found: bool)
      requires Valid()
      modifies this, nodes
      ensures Valid() && Contents() == Remove(old(Contents()), value)
      ensures found == (value in old(Contents()))
    {
      var cursor := head;
      ghost var k: nat := 0;
      ghost var all := Contents();
      while cursor != null
        invariant Valid() && nodes == old(nodes) && Contents() == all
        invariant k <= |nodes| && cursor == (if k < |nodes| then nodes[k] else null)
        invariant forall i :: 0 <= i < k ==> all[i] != value
        decreases |nodes| - k
      {
        if cursor.data == value {
          RemoveFirst(all, value, k);
          var data := RemoveNode(cursor, k);
          return true;
        }
        cursor := cursor.next;
        k := k + 1;
      }
      RemoveAbsent(all, value);
      return false;
    }
  }

  // ----- links after an edit -----

  lemma EndsMeet<T>(nodes: seq<Node<T>>)
    requires nodes != [] && Distinct(nodes) && NextLinks(nodes) && PrevLinks(nodes)
    ensures nodes[0] == nodes[|nodes| - 1] <==> |nodes| == 1
    ensures |nodes| > 1 ==> nodes[0].next == nodes[1] && nodes[|nodes| - 1].prev == nodes[|nodes| - 2]
  {
  }

  lemma Neighbours<T>(nodes: seq<Node<T>>, k: nat)
    requires 0 < k < |nodes| - 1 && Distinct(nodes) && NextLinks(nodes) && PrevLinks(nodes)
    ensures nodes[k].prev == nodes[k - 1] && nodes[k].next == nodes[k + 1]
    ensures nodes[k] != nodes[k - 1] && nodes[k - 1] != nodes[k + 1] && nodes[k] != nodes[k + 1]
  {
  }

  twostate lemma PutFirst<T>(before: seq<Node<T>>, new node: Node<T>)
    requires old(Distinct(before) && NextLinks(before) && PrevLinks(before))
    requires forall k :: 0 <= k < |before| ==> before[k] != node && before[k].next == old(before[k].next)
    requires forall k :: 0 < k < |before| ==> before[k].prev == old(before[k].prev)
    requires node.prev == null && (before == [] ==> node.next == null)
    requires before != [] ==> before[0].prev == node && node.next == before[0]
    ensures Linked([node] + before, node, if before == [] then node else before[|before| - 1])
  {
  }

  twostate lemma PutLast<T>(before: seq<Node<T>>, new node: Node<T>)
    requires old(Distinct(before) && NextLinks(before) && PrevLinks(before))
    requires forall k :: 0 <= k < |before| ==> before[k] != node && before[k].prev == old(before[k].prev)
    requires forall k :: 0 <= k < |before| - 1 ==> before[k].next == old(before[k].next)
    requires node.next == null && (before == [] ==> node.prev == null)
    requires before != [] ==> before[|before| - 1].next == node && node.prev == before[|before| - 1] && before[0].prev == null
    ensures Linked(before + [node], if before == [] then node else before[0], node)
  {
    Appended(before, node);
  }

  twostate lemma TakenFirst<T>(nodes: seq<Node<T>>)
    requires nodes != [] && old(Distinct(nodes) && NextLinks(nodes) && PrevLinks(nodes))
    requires forall k :: 0 < k < |nodes| ==> nodes[k].next == old(nodes[k].next)
    requires forall k :: 1 < k < |nodes| ==> nodes[k].prev == old(nodes[k].prev)
    requires |nodes| > 1 ==> nodes[1].prev == null
    ensures if |nodes| == 1 then Linked(RemoveAt(nodes, 0), null, null)
            else Linked(RemoveAt(nodes, 0), nodes[1], nodes[|nodes| - 1])
  {
    Removed(nodes, 0);
    RemovedStayDistinct(nodes, 0);
    var rest := RemoveAt(nodes, 0);
    forall k | 0 <= k < |rest| - 1 ensures rest[k].next == rest[k + 1] {
      assert nodes[k + 1].next == nodes[k + 2];
    }
    forall k | 0 < k < |rest| ensures rest[k].prev == rest[k - 1] {
      assert nodes[k + 1].prev == nodes[k];
    }
  }

  twostate lemma TakenLast<T>(nodes: seq<Node<T>>)
    requires nodes != [] && old(Distinct(nodes) && NextLinks(nodes) && PrevLinks(nodes)) && old(nodes[0].prev) == null
    requires forall k :: 0 <= k < |nodes| - 2 ==> nodes[k].next == old(nodes[k].next)
    requires forall k :: 0 <= k < |nodes| - 1 ==> nodes[k].prev == old(nodes[k].prev)
    requires |nodes| > 1 ==> nodes[|nodes| - 2].next == null
    ensures if |nodes| == 1 then Linked(RemoveAt(nodes, |nodes| - 1), null, null)
            else Linked(RemoveAt(nodes, |nodes| - 1), nodes[0], nodes[|nodes| - 2])
  {
    Removed(nodes, |nodes| - 1);
    RemovedStayDistinct(nodes, |nodes| - 1);
    var rest := RemoveAt(nodes, |nodes| - 1);
    forall k | 0 <= k < |rest| - 1 ensures rest[k].next == rest[k + 1] {
      assert nodes[k].next == nodes[k + 1];
    }
    forall k | 0 < k < |rest| ensures rest[k].prev == rest[k - 1] {
      assert nodes[k].prev == nodes[k - 1];
    }
  }

  twostate lemma TakenBetween<T>(nodes: seq<Node<T>>, new k: nat)
    requires 0 < k < |nodes| - 1 && old(Distinct(nodes) && NextLinks(nodes) && PrevLinks(nodes)) && old(nodes[0].prev) == null
    requires nodes[k - 1].next == nodes[k + 1] && nodes[k + 1].prev == nodes[k - 1]
    requires forall j :: 0 <= j < |nodes| && j != k - 1 ==> nodes[j].next == old(nodes[j].next)
    requires forall j :: 0 <= j < |nodes| && j != k + 1 ==> nodes[j].prev == old(nodes[j].prev)
    ensures Linked(RemoveAt(nodes, k), nodes[0], nodes[|nodes| - 1])
  {
    Removed(nodes, k);
    RemovedStayDistinct(nodes, k);
    var rest := RemoveAt(nodes, k);
    forall j | 0 <= j < |rest| - 1 ensures rest[j].next == rest[j + 1] {
      if j < k { assert nodes[j].next == if j == k - 1 then nodes[k + 1] else nodes[j + 1]; }
      else { assert nodes[j + 1].next == nodes[j + 2]; }
    }
    forall j | 0 < j < |rest| ensures rest[j].prev == rest[j - 1] {
      if j < k { assert nodes[j].prev == nodes[j - 1]; }
      else { assert nodes[j + 1].prev == if j == k then nodes[k - 1] else nodes[j]; }
    }
  }

  lemma RemovedStayDistinct<T>(nodes: seq<Node<T>>, k: nat)
    requires Distinct(nodes) && k < |nodes|
    ensures Distinct(RemoveAt(nodes, k))
  {
    Removed(nodes, k);
  }
}
