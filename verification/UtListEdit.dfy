/** The macros of `utlist.h` that put elements into a list and take them out. */
module UtListEdit {
  import opened Elements
  import opened InOrder
  import opened Links
  import opened Sequences
  import opened Sorting
  import opened UtList

  /** `LL_LOWER_BOUND` and `DL_LOWER_BOUND`: the element to insert after, or NULL for the front. */
  method FindLowerBound(cmp: (Elem, Elem) -> int, list: Elem?, like: Elem, ghost s: seq<Elem>)
    returns (elt: Elem?, ghost k: nat)
    requires list == First(s) && NextLinks(s, null)
    ensures LowerBound(cmp, s, like, k) && elt == if k == 0 then null else s[k - 1]
  {
    if list == null || cmp(list, like) >= 0 {
      return null, 0;
    }
    elt, k := list, 1;
    while elt.next != null
      invariant 1 <= k <= |s| && elt == s[k - 1]
      invariant forall i :: 0 <= i < k ==> cmp(s[i], like) < 0
      decreases |s| - k
    {
      if cmp(elt.next, like) >= 0 {
        break;
      }
      elt := elt.next;
      k := k + 1;
    }
  }

  // ----- singly linked -----

  method LLInsertInOrder(cmp: (Elem, Elem) -> int, list: Elem?, add: Elem, ghost s: seq<Elem>)
    returns (head: Elem, ghost k: nat)
    requires SinglyLinked(list, s) && add !in s
    modifies add`next, s`next
    ensures LowerBound(cmp, s, add, k) && SinglyLinked(head, InsertAt(s, k, add))
    ensures Preorder(cmp, [add] + s) && ZeroIsTie(cmp, [add] + s) && Sorted(cmp, s) ==> Sorted(cmp, InsertAt(s, k, add))
  {
    if list != null {
      var tmp;
      tmp, k := FindLowerBound(cmp, list, add, s);
      head := LLAppendElem(list, tmp, add, s, k);
    } else {
      head, k := add, 0;
      head.next := null;
      assert InsertAt(s, 0, add) == [add];
    }
    LowerBoundStaysSorted(cmp, s, add, k);
  }

  method LLAppendElem(list: Elem, el: Elem?, add: Elem, ghost s: seq<Elem>, ghost k: nat) returns (head: Elem)
    requires SinglyLinked(list, s) && add !in s && k <= |s| && el == if k == 0 then null else s[k - 1]
    modifies add`next, s`next
    ensures SinglyLinked(head, InsertAt(s, k, add))
  {
    InsertedDistinct(s, k, add);
    if el != null {
      LinkAfter(el, add, s, k);
      head := list;
      Inserted(s, k, add);
    } else {
      add.next := list;
      head := add;
      Inserted(s, 0, add);
    }
  }

  method LinkAfter(el: Elem, add: Elem, ghost s: seq<Elem>, ghost k: nat)
    requires Distinct(s) && NextLinks(s, null) && add !in s && 0 < k <= |s| && el == s[k - 1]
    modifies add`next, el`next
    ensures NextLinks(InsertAt(s, k, add), null)
  {
    add.next := el.next;
    el.next := add;
    InsertedNext(s, k, add);
  }

  /** Takes `del` out if it is there. */
  method LLDelete(list: Elem, del: Elem, ghost s: seq<Elem>) returns (head: Elem?, ghost rest: seq<Elem>)
    requires SinglyLinked(list, s)
    modifies s`next
    ensures SinglyLinked(head, rest)
    ensures if del in s then exists k :: 0 <= k < |s| && s[k] == del && rest == RemoveAt(s, k) else rest == s
  {
    if list == del {
      head, rest := list.next, RemoveAt(s, 0);
      RemovedFirst(s);
    } else {
      var tmp;
      ghost var k;
      tmp, k := FindBefore(list, del, s);
      head := list;
      if tmp.next != null {
        assert s[k + 1] == del && s[k] in s;
        tmp.next := del.next;
        RemovedNext(s, k + 1);
        RemovedDistinct(s, k + 1);
        rest := RemoveAt(s, k + 1);
      } else {
        rest := s;
      }
    }
  }

  /** The search loop: stops before `del`, or at the last element. */
  method FindBefore(list: Elem, del: Elem, ghost s: seq<Elem>) returns (tmp: Elem, ghost k: nat)
    requires SinglyLinked(list, s) && list != del
    ensures k < |s| && tmp == s[k] && (if k + 1 < |s| then s[k + 1] == del else del !in s)
    ensures tmp.next == if k + 1 < |s| then s[k + 1] else null
  {
    tmp, k := list, 0;
    while tmp.next != null && tmp.next != del
      invariant k < |s| && tmp == s[k] && forall i :: 0 <= i <= k ==> s[i] != del
      decreases |s| - k
    {
      tmp := tmp.next;
      k := k + 1;
    }
  }

  lemma RemovedFirst(s: seq<Elem>)
    requires s != [] && Distinct(s) && NextLinks(s, null)
    ensures s[0] in s && SinglyLinked(s[0].next, RemoveAt(s, 0))
  {
    Removed(s, 0);
  }

  // ----- doubly linked, the head's `prev` being the tail -----

  method DLPrepend(list: Elem?, add: Elem, ghost s: seq<Elem>) returns (head: Elem)
    requires DoublyLinked(list, s) && add !in s
    modifies add`next, add`prev, s`prev
    ensures DoublyLinked(head, InsertAt(s, 0, add))
  {
    Inserted(s, 0, add);
    add.next := list;
    if list != null {
      assert list in s;
      add.prev := list.prev;
      list.prev := add;
    } else {
      add.prev := add;
    }
    head := add;
  }

  method DLAppend(list: Elem?, add: Elem, ghost s: seq<Elem>) returns (head: Elem)
    requires DoublyLinked(list, s) && add !in s
    modifies add`next, add`prev, s`next, s`prev
    ensures DoublyLinked(head, InsertAt(s, |s|, add))
  {
    Inserted(s, |s|, add);
    if list != null {
      assert list in s && list.prev == s[|s| - 1] && s[|s| - 1] in s;
      add.prev := list.prev;
      list.prev.next := add;
      list.prev := add;
      add.next := null;
      head := list;
    } else {
      head := add;
      head.prev := head;
      head.next := null;
    }
  }

  method DLInsertInOrder(cmp: (Elem, Elem) -> int, list: Elem?, add: Elem, ghost s: seq<Elem>)
    returns (head: Elem, ghost k: nat)
    requires DoublyLinked(list, s) && add !in s
    modifies add`next, add`prev, s`next, s`prev
    ensures LowerBound(cmp, s, add, k) && DoublyLinked(head, InsertAt(s, k, add))
    ensures Preorder(cmp, [add] + s) && ZeroIsTie(cmp, [add] + s) && Sorted(cmp, s) ==> Sorted(cmp, InsertAt(s, k, add))
  {
    if list != null {
      var tmp;
      tmp, k := FindLowerBound(cmp, list, add, s);
      head := DLAppendElem(list, tmp, add, s, k);
    } else {
      head, k := add, 0;
      head.prev := head;
      head.next := null;
      assert InsertAt(s, 0, add) == [add];
    }
    LowerBoundStaysSorted(cmp, s, add, k);
  }

  method DLAppendElem(list: Elem, el: Elem?, add: Elem, ghost s: seq<Elem>, ghost k: nat) returns (head: Elem)
    requires DoublyLinked(list, s) && add !in s && k <= |s| && el == if k == 0 then null else s[k - 1]
    modifies add`next, add`prev, s`next, s`prev
    ensures DoublyLinked(head, InsertAt(s, k, add))
  {
    if el != null {
      assert el in s && list in s;
      add.next := el.next;
      add.prev := el;
      el.next := add;
      if add.next != null {
        assert add.next == s[k] && s[k] in s;
        add.next.prev := add;
      } else {
        list.prev := add;
      }
      head := list;
      InsertedDistinct(s, k, add);
      InsertedNext(s, k, add);
      InsertedPrev(s, k, add, list.prev);
    } else {
      head := DLPrepend(list, add, s);
    }
  }

  method DLDelete(list: Elem, del: Elem, ghost s: seq<Elem>, ghost k: nat) returns (head: Elem?)
    requires DoublyLinked(list, s) && k < |s| && s[k] == del
    modifies s`next, s`prev
    ensures DoublyLinked(head, RemoveAt(s, k))
  {
    RemovedDistinct(s, k);
    if del.prev == del {
      OnlyOne(s, k);
      head := null;
    } else if del == list {
      assert k == 0 && del.next == s[1] && s[1] in s;
      del.next.prev := del.prev;
      head := del.next;
      RemovedNext(s, 0);
      RemovedPrev(s, 0, head.prev);
    } else {
      assert del.prev == s[k - 1] && s[k - 1] in s && list in s;
      del.prev.next := del.next;
      if del.next != null {
        assert del.next == s[k + 1] && s[k + 1] in s;
        del.next.prev := del.prev;
      } else {
        list.prev := del.prev;
      }
      head := list;
      RemovedNext(s, k);
      RemovedPrev(s, k, list.prev);
    }
  }

  lemma NotBefore(s: seq<Elem>, k: nat)
    requires Distinct(s) && PrevLinks(s, Last(s)) && k < |s|
    ensures if k > 0 then s[k].prev == s[k - 1] != s[k] else s[k].prev == s[|s| - 1]
  {
  }

  /** Only a lone element is its own predecessor. */
  lemma OnlyOne(s: seq<Elem>, k: nat)
    requires Distinct(s) && PrevLinks(s, Last(s)) && k < |s| && s[k].prev == s[k]
    ensures |s| == 1 && RemoveAt(s, k) == []
  {
    NotBefore(s, k);
  }

  method DLConcat(head1: Elem?, head2: Elem?, ghost s: seq<Elem>, ghost t: seq<Elem>) returns (head: Elem?)
    requires DoublyLinked(head1, s) && DoublyLinked(head2, t)
    requires forall i, j :: 0 <= i < |s| && 0 <= j < |t| ==> s[i] != t[j]
    modifies s`next, s`prev, t`prev
    ensures DoublyLinked(head, s + t)
  {
    head := head1;
    if head2 != null {
      if head1 != null {
        assert head1 in s && head1.prev == s[|s| - 1] && s[|s| - 1] in s && head2 in t;
        var tmp := head2.prev;
        head2.prev := head1.prev;
        head1.prev.next := head2;
        head1.prev := tmp;
      } else {
        head := head2;
        assert s + t == t;
      }
    } else {
      assert s + t == s;
    }
  }
}
