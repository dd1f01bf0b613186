/** The sorting macros of `utlist.h`, for lists that end in NULL, lists whose head also points
    back at the tail, and rings. */
module UtList {
  import opened Elements
  import opened Sorting
  import opened ListSort

  /** A singly linked list: `next` links ending in NULL. */
  ghost predicate SinglyLinked(list: Elem?, s: seq<Elem>)
    reads s
  {
    list == First(s) && Distinct(s) && NextLinks(s, null)
  }

  /** A doubly linked list: `next` ends in NULL and the head's `prev` is the tail. */
  ghost predicate DoublyLinked(list: Elem?, s: seq<Elem>)
    reads s
  {
    list == First(s) && Distinct(s) && NextLinks(s, null) && PrevLinks(s, Last(s))
  }

  /** A circular list: the tail's `next` is the head and the head's `prev` is the tail. */
  ghost predicate Ring(list: Elem?, s: seq<Elem>)
    reads s
  {
    list == First(s) && Distinct(s) && NextLinks(s, list) && PrevLinks(s, Last(s))
  }

  method LLPass(cmp: (Elem, Elem) -> int, list: Elem, width: nat, ghost s: seq<Elem>)
    returns (head: Elem, merges: nat)
    requires width > 0 && s != [] && SinglyLinked(list, s)
    modifies s`next
    ensures SinglyLinked(head, Pass(cmp, s, width)) && Within(Pass(cmp, s, width), s)
    ensures merges <= 1 <==> |s| <= 2 * width
  {
    var tail;
    head, tail, merges := SortPass(cmp, list, width, null, false, s);
    ghost var out := Pass(cmp, s, width);
    assert tail == out[|out| - 1] && tail in out && head == out[0] && head in out;
    tail.next := null;
  }

  method LLSort(cmp: (Elem, Elem) -> int, list: Elem?, ghost s: seq<Elem>)
    returns (head: Elem?, ghost sorted: seq<Elem>)
    requires SinglyLinked(list, s)
    modifies s`next
    ensures SinglyLinked(head, sorted) && SortedFrom(cmp, s, sorted)
  {
    head, sorted := list, s;
    ghost var goal := MergeSort(cmp, s, 1);
    if head != null {
      var insize, looping := 1, true;
      while looping
        invariant insize > 0 && |sorted| == |s| > 0 && Within(sorted, s)
        invariant SinglyLinked(head, sorted)
        invariant StillToSort(cmp, goal, sorted, insize, looping)
        decreases looping, |s| - insize
      {
        ghost var next := Pass(cmp, sorted, insize);
        PassDone(cmp, goal, sorted, insize);
        WithinTransitive(next, sorted, s);
        var merges;
        head, merges := LLPass(cmp, head, insize, sorted);
        sorted := next;
        if merges <= 1 {
          looping := false;
        }
        insize := insize * 2;
      }
    }
    SortDone(cmp, s, sorted);
  }

  method CloseList(head: Elem, tail: Elem, ghost s: seq<Elem>)
    requires Linked(s, head, tail, true)
    modifies head`prev, tail`next
    ensures DoublyLinked(head, s)
  {
    head.prev := tail;
    assert PrevLinks(s, tail);
    tail.next := null;
  }

  method DLPass(cmp: (Elem, Elem) -> int, list: Elem, width: nat, ghost s: seq<Elem>)
    returns (head: Elem, merges: nat)
    requires width > 0 && s != [] && DoublyLinked(list, s)
    modifies s`next, s`prev
    ensures DoublyLinked(head, Pass(cmp, s, width)) && Within(Pass(cmp, s, width), s)
    ensures merges <= 1 <==> |s| <= 2 * width
  {
    var tail;
    head, tail, merges := SortPass(cmp, list, width, null, true, s);
    CloseList(head, tail, Pass(cmp, s, width));
  }

  method DLSort(cmp: (Elem, Elem) -> int, list: Elem?, ghost s: seq<Elem>)
    returns (head: Elem?, ghost sorted: seq<Elem>)
    requires DoublyLinked(list, s)
    modifies s`next, s`prev
    ensures DoublyLinked(head, sorted) && SortedFrom(cmp, s, sorted)
  {
    head, sorted := list, s;
    ghost var goal := MergeSort(cmp, s, 1);
    if head != null {
      var insize, looping := 1, true;
      while looping
        invariant insize > 0 && |sorted| == |s| > 0 && Within(sorted, s)
        invariant DoublyLinked(head, sorted)
        invariant StillToSort(cmp, goal, sorted, insize, looping)
        decreases looping, |s| - insize
      {
        ghost var next := Pass(cmp, sorted, insize);
        PassDone(cmp, goal, sorted, insize);
        WithinTransitive(next, sorted, s);
        var merges;
        head, merges := DLPass(cmp, head, insize, sorted);
        sorted := next;
        if merges <= 1 {
          looping := false;
        }
        insize := insize * 2;
      }
    }
    SortDone(cmp, s, sorted);
  }

  method CloseRing(head: Elem, tail: Elem, ghost s: seq<Elem>)
    requires Linked(s, head, tail, true)
    modifies head`prev, tail`next
    ensures Ring(head, s)
  {
    head.prev := tail;
    assert PrevLinks(s, tail);
    tail.next := head;
  }

  method CDLPass(cmp: (Elem, Elem) -> int, list: Elem, width: nat, ghost s: seq<Elem>)
    returns (head: Elem, merges: nat)
    requires width > 0 && s != [] && Ring(list, s)
    modifies s`next, s`prev
    ensures Ring(head, Pass(cmp, s, width)) && Within(Pass(cmp, s, width), s)
    ensures merges <= 1 <==> |s| <= 2 * width
  {
    var tail;
    head, tail, merges := SortPass(cmp, list, width, list, true, s);
    CloseRing(head, tail, Pass(cmp, s, width));
  }

  method CDLSort(cmp: (Elem, Elem) -> int, list: Elem?, ghost s: seq<Elem>)
    returns (head: Elem?, ghost sorted: seq<Elem>)
    requires Ring(list, s)
    modifies s`next, s`prev
    ensures Ring(head, sorted) && SortedFrom(cmp, s, sorted)
  {
    head, sorted := list, s;
    ghost var goal := MergeSort(cmp, s, 1);
    if head != null {
      var insize, looping := 1, true;
      while looping
        invariant insize > 0 && |sorted| == |s| > 0 && Within(sorted, s)
        invariant Ring(head, sorted)
        invariant StillToSort(cmp, goal, sorted, insize, looping)
        decreases looping, |s| - insize
      {
        ghost var next := Pass(cmp, sorted, insize);
        PassDone(cmp, goal, sorted, insize);
        WithinTransitive(next, sorted, s);
        var merges;
        head, merges := CDLPass(cmp, head, insize, sorted);
        sorted := next;
        if merges <= 1 {
          looping := false;
        }
        insize := insize * 2;
      }
    }
    SortDone(cmp, s, sorted);
  }
}
