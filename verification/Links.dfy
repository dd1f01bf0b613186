/** What an edit of the links does to the order they spell out: the shared step of the edits in
    `utlist.h` and `uthash.h`. */
module Links {
  import opened Elements
  import opened Sequences

  lemma InsertedDistinct(s: seq<Elem>, k: nat, add: Elem)
    requires Distinct(s) && add !in s && k <= |s|
    ensures Distinct(InsertAt(s, k, add))
    ensures First(InsertAt(s, k, add)) == (if k == 0 then add else s[0])
    ensures Last(InsertAt(s, k, add)) == if k == |s| then add else s[|s| - 1]
  {
    Inserted(s, k, add);
  }

  lemma RemovedDistinct(s: seq<Elem>, k: nat)
    requires Distinct(s) && k < |s|
    ensures Distinct(RemoveAt(s, k))
    ensures |s| > 1 ==> First(RemoveAt(s, k)) == (if k == 0 then s[1] else s[0])
    ensures |s| > 1 ==> Last(RemoveAt(s, k)) == if k == |s| - 1 then s[k - 1] else s[|s| - 1]
  {
    Removed(s, k);
  }

  /** `add` has been linked in between the elements before and at `k`. */
  twostate lemma InsertedNext(s: seq<Elem>, new k: nat, new add: Elem)
    requires old(NextLinks(s, null)) && k <= |s| && add.next == if k < |s| then s[k] else null
    requires k > 0 ==> s[k - 1].next == add
    requires forall i :: 0 <= i < |s| && i != k - 1 ==> s[i].next == old(s[i].next)
    ensures NextLinks(InsertAt(s, k, add), null)
  {
    Inserted(s, k, add);
    var t := InsertAt(s, k, add);
    forall j | 0 <= j < |t| - 1 ensures t[j].next == t[j + 1] {
      if j > k { assert s[j - 1].next == s[j]; }
    }
  }

  /** The same for the links back, which start from `start`. */
  twostate lemma InsertedPrev(s: seq<Elem>, new k: nat, new add: Elem, new start: Elem?)
    requires s != [] && old(PrevLinks(s, s[0].prev)) && k <= |s| && add.prev == if k > 0 then s[k - 1] else start
    requires k < |s| ==> s[k].prev == add
    requires k > 0 ==> s[0].prev == start
    requires forall i :: 0 < i < |s| && i != k ==> s[i].prev == old(s[i].prev)
    ensures PrevLinks(InsertAt(s, k, add), start)
  {
    Inserted(s, k, add);
    var t := InsertAt(s, k, add);
    forall j | 0 < j < |t| ensures t[j].prev == t[j - 1] {
      if j > k + 1 { assert s[j - 1].prev == s[j - 2]; }
    }
  }

  /** The element at `k` has been taken out of the `next` links. */
  twostate lemma RemovedNext(s: seq<Elem>, new k: nat)
    requires old(NextLinks(s, null)) && k < |s|
    requires k > 0 ==> s[k - 1].next == old(s[k].next)
    requires forall i :: 0 <= i < |s| && i != k - 1 && i != k ==> s[i].next == old(s[i].next)
    ensures NextLinks(RemoveAt(s, k), null)
  {
    Removed(s, k);
    var t := RemoveAt(s, k);
    forall j | 0 <= j < |t| - 1 ensures t[j].next == t[j + 1] {
      if j >= k { assert s[j + 1].next == s[j + 2]; }
    }
  }

  /** The same for the links back, which now start from `start`. */
  twostate lemma RemovedPrev(s: seq<Elem>, new k: nat, new start: Elem?)
    requires k < |s| && old(PrevLinks(s, s[0].prev))
    requires k < |s| - 1 ==> s[k + 1].prev == if k > 0 then s[k - 1] else start
    requires k > 0 ==> s[0].prev == start
    requires forall i :: 0 < i < |s| && i != k && i != k + 1 ==> s[i].prev == old(s[i].prev)
    ensures PrevLinks(RemoveAt(s, k), start)
  {
    Removed(s, k);
    var t := RemoveAt(s, k);
    forall j | 0 < j < |t| ensures t[j].prev == t[j - 1] {
      if j > k { assert s[j + 1].prev == s[j]; }
    }
  }
}
