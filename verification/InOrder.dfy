/** Adding to a sorted list in order: after the items the new one ties with, as `uthash.h`
    does, or before them, as `utlist.h` does. */
module InOrder {
  import opened Sequences
  import opened Sorting

  /** Where an in-order add puts `e`: before the first item that compares greater. */
  ghost predicate InOrderPlace<T>(cmp: (T, T) -> int, s: seq<T>, e: T, k: nat) {
    && k <= |s|
    && (forall i :: 0 <= i < k ==> cmp(s[i], e) <= 0)
    && (k < |s| ==> cmp(s[k], e) > 0)
  }

  /** An in-order add to a sorted list is an append followed by a stable sort: the list stays
      sorted and the new item comes after the ones it ties with. */
  lemma InOrderAddSorts<T>(cmp: (T, T) -> int, s: seq<T>, e: T, k: nat)
    requires Preorder(cmp, s + [e]) && Sorted(cmp, s) && InOrderPlace(cmp, s, e, k)
    ensures Sorted(cmp, InsertAt(s, k, e))
    ensures InsertAt(s, k, e) == MergeSort(cmp, s + [e], 1)
    ensures forall i :: 0 <= i < |s| && Ties(cmp, s[i], e) ==> i < k
  {
    var t := InsertAt(s, k, e);
    PlaceSplits(cmp, s, e, k);
    assert Sorted(cmp, t);
    InsertRearranges(cmp, s, e, k);
    MergeSortCorrect(cmp, s + [e]);
    var u := MergeSort(cmp, s + [e], 1);
    SymmetricRearranges(cmp, s + [e], t, u);
    RearrangedPreorder(cmp, s + [e], t);
    StableSortUnique(cmp, t, u);
  }

  lemma InOrderAddKeepsSorted<T>(cmp: (T, T) -> int, s: seq<T>, e: T, k: nat)
    requires InOrderPlace(cmp, s, e, k)
    ensures Preorder(cmp, s + [e]) && Sorted(cmp, s) ==> Sorted(cmp, InsertAt(s, k, e))
  {
    if Preorder(cmp, s + [e]) && Sorted(cmp, s) { InOrderAddSorts(cmp, s, e, k); }
  }

  /** How many leading elements do not compare greater than `e`: the one place for it. */
  function PlaceOf<T>(cmp: (T, T) -> int, s: seq<T>, e: T): (k: nat)
    ensures InOrderPlace(cmp, s, e, k)
  {
    if s == [] || cmp(s[0], e) > 0 then 0
    else
      var rest := PlaceOf(cmp, s[1..], e);
      assert forall i :: 1 <= i < |s| ==> s[i] == s[1..][i - 1];
      1 + rest
  }

  lemma PlaceUnique<T>(cmp: (T, T) -> int, s: seq<T>, e: T, k: nat, l: nat)
    requires InOrderPlace(cmp, s, e, k) && InOrderPlace(cmp, s, e, l)
    ensures k == l
  {
  }

  lemma SymmetricRearranges<T>(cmp: (T, T) -> int, s: seq<T>, t: seq<T>, u: seq<T>)
    requires StablyRearranges(cmp, s, t) && StablyRearranges(cmp, s, u)
    ensures StablyRearranges(cmp, t, u)
  {
    SameMembers(s, t);
  }

  /** Everything from the place on is greater than the new item. */
  lemma PlaceSplits<T>(cmp: (T, T) -> int, s: seq<T>, e: T, k: nat)
    requires Preorder(cmp, s + [e]) && Sorted(cmp, s) && InOrderPlace(cmp, s, e, k)
    ensures forall i :: k <= i < |s| ==> cmp(e, s[i]) <= 0 && cmp(s[i], e) > 0
    ensures Sorted(cmp, InsertAt(s, k, e))
  {
    var all := s + [e];
    assert e in all && forall i :: 0 <= i < |s| ==> s[i] in all;
    forall i | k <= i < |s| ensures cmp(e, s[i]) <= 0 && cmp(s[i], e) > 0 {
      assert s[k] in all && s[i] in all;
      assert cmp(s[k], s[i]) <= 0 || i == k;
    }
    PlacedSorted(cmp, s, e, k);
  }

  lemma PlacedSorted<T>(cmp: (T, T) -> int, s: seq<T>, e: T, k: nat)
    requires Sorted(cmp, s) && k <= |s|
    requires forall i :: 0 <= i < k ==> cmp(s[i], e) <= 0
    requires forall i :: k <= i < |s| ==> cmp(e, s[i]) <= 0
    ensures Sorted(cmp, InsertAt(s, k, e))
  {
    var t := InsertAt(s, k, e);
    forall i, j | 0 <= i < j < |t| ensures cmp(t[i], t[j]) <= 0 {
      assert t[i] == if i < k then s[i] else if i == k then e else s[i - 1];
      assert t[j] == if j < k then s[j] else if j == k then e else s[j - 1];
    }
  }

  lemma InsertRearranges<T>(cmp: (T, T) -> int, s: seq<T>, e: T, k: nat)
    requires Preorder(cmp, s + [e]) && k <= |s|
    requires forall i :: k <= i < |s| ==> cmp(s[i], e) > 0
    ensures StablyRearranges(cmp, s + [e], InsertAt(s, k, e))
  {
    SameElements(s[..k], s[k..], e);
    assert s == s[..k] + s[k..];
    forall x | x in s + [e] ensures TiesOf(cmp, x, s + [e]) == TiesOf(cmp, x, InsertAt(s, k, e)) {
      SameTies(cmp, x, s[..k], s[k..], e, s + [e]);
    }
  }

  lemma SameElements<T>(front: seq<T>, back: seq<T>, e: T)
    ensures multiset(front + back + [e]) == multiset(front + [e] + back)
  {
    MultisetConcat(front, back);
    MultisetConcat(front + back, [e]);
    MultisetConcat(front, [e]);
    MultisetConcat(front + [e], back);
  }

  lemma SameTies<T>(cmp: (T, T) -> int, x: T, front: seq<T>, back: seq<T>, e: T, all: seq<T>)
    requires Preorder(cmp, all) && x in all && e in all
    requires forall y :: y in back ==> y in all && cmp(y, e) > 0
    ensures TiesOf(cmp, x, front + back + [e]) == TiesOf(cmp, x, front + [e] + back)
  {
    TiesOfThree(cmp, x, front, back, [e]);
    TiesOfThree(cmp, x, front, [e], back);
    if Ties(cmp, x, e) {
      NothingGreaterTies(cmp, x, e, back, all);
    } else {
      NoTies(cmp, x, [e]);
    }
    MiddleLast(TiesOf(cmp, x, front), TiesOf(cmp, x, [e]), TiesOf(cmp, x, back));
  }

  lemma TiesOfThree<T>(cmp: (T, T) -> int, x: T, p: seq<T>, q: seq<T>, r: seq<T>)
    ensures TiesOf(cmp, x, p + q + r) == TiesOf(cmp, x, p) + TiesOf(cmp, x, q) + TiesOf(cmp, x, r)
    ensures TiesOf(cmp, x, p + (q + r)) == TiesOf(cmp, x, p) + TiesOf(cmp, x, q) + TiesOf(cmp, x, r)
  {
    TiesOfConcat(cmp, x, p, q);
    TiesOfConcat(cmp, x, p + q, r);
    ConcatAssociative(p, q, r);
  }

  /** Of three sequences, one that is empty can trade places with its neighbour. */
  lemma MiddleLast<T>(p: seq<T>, q: seq<T>, r: seq<T>)
    requires q == [] || r == []
    ensures p + r + q == p + q + r
  {
  }

  lemma MiddleFirst<T>(p: seq<T>, q: seq<T>, r: seq<T>)
    requires p == [] || q == []
    ensures q + p + r == p + q + r
  {
  }

  lemma NothingGreaterTies<T>(cmp: (T, T) -> int, x: T, e: T, back: seq<T>, all: seq<T>)
    requires Preorder(cmp, all) && x in all && e in all && Ties(cmp, x, e)
    requires forall y :: y in back ==> y in all && cmp(y, e) > 0
    ensures TiesOf(cmp, x, back) == []
  {
    NoTies(cmp, x, back);
  }

  // ----- before the ties -----

  /** Where `LL_LOWER_BOUND` and its kin put `e`: before the first item that is not less. */
  ghost predicate LowerBound<T>(cmp: (T, T) -> int, s: seq<T>, e: T, k: nat) {
    && k <= |s|
    && (forall i :: 0 <= i < k ==> cmp(s[i], e) < 0)
    && (k < |s| ==> cmp(s[k], e) >= 0)
  }

  /** A comparison function is negative one way round exactly when it is positive the other. */
  ghost predicate SignsAgree<T>(cmp: (T, T) -> int, s: seq<T>) {
    forall a, b :: a in s && b in s ==> (cmp(a, b) < 0 <==> cmp(b, a) > 0)
  }

  /** Everything before the lower bound is less than the new item, and nothing after it is. */
  lemma LowerBoundSplits<T>(cmp: (T, T) -> int, s: seq<T>, e: T, k: nat)
    requires Preorder(cmp, [e] + s) && SignsAgree(cmp, [e] + s) && Sorted(cmp, s) && LowerBound(cmp, s, e, k)
    ensures forall i :: 0 <= i < k ==> cmp(e, s[i]) > 0
    ensures Sorted(cmp, InsertAt(s, k, e)) && BeforeTies(cmp, s, e, k)
  {
    var all := [e] + s;
    assert e in all && forall i :: 0 <= i < |s| ==> s[i] in all;
    LowerBoundKeepsSorted(cmp, s, e, k);
  }

  // ----- which comparisons that needs -----

  /** Elements that compare as 0 one way round do not compare greater the other. */
  ghost predicate ZeroIsTie<T>(cmp: (T, T) -> int, s: seq<T>) {
    forall a, b :: a in s && b in s && cmp(a, b) == 0 ==> cmp(b, a) <= 0
  }

  /** An insert at the lower bound keeps a sorted list sorted. */
  lemma LowerBoundKeepsSorted<T>(cmp: (T, T) -> int, s: seq<T>, e: T, k: nat)
    requires Preorder(cmp, [e] + s) && ZeroIsTie(cmp, [e] + s) && Sorted(cmp, s) && LowerBound(cmp, s, e, k)
    ensures Sorted(cmp, InsertAt(s, k, e))
  {
    var all := [e] + s;
    assert e in all && forall i :: 0 <= i < |s| ==> s[i] in all;
    forall i | k <= i < |s| ensures cmp(e, s[i]) <= 0 {
      assert s[k] in all && s[i] in all;
      assert cmp(s[k], s[i]) <= 0 || i == k;
    }
    PlacedSorted(cmp, s, e, k);
  }

  lemma LowerBoundStaysSorted<T>(cmp: (T, T) -> int, s: seq<T>, e: T, k: nat)
    requires LowerBound(cmp, s, e, k)
    ensures Preorder(cmp, [e] + s) && ZeroIsTie(cmp, [e] + s) && Sorted(cmp, s) ==> Sorted(cmp, InsertAt(s, k, e))
  {
    if Preorder(cmp, [e] + s) && ZeroIsTie(cmp, [e] + s) && Sorted(cmp, s) { LowerBoundKeepsSorted(cmp, s, e, k); }
  }

  /** `e` and the elements of the sorted list `s` are from `all`, and `k` is the lower bound. */
  ghost predicate InsertFrom<T>(cmp: (T, T) -> int, all: seq<T>, s: seq<T>, e: T, k: nat) {
    && e in all && (forall i :: 0 <= i < |s| ==> s[i] in all)
    && Sorted(cmp, s) && LowerBound(cmp, s, e, k)
  }

  /** The new item stands before those it ties with. */
  ghost predicate BeforeTies<T>(cmp: (T, T) -> int, s: seq<T>, e: T, k: nat) {
    forall i :: 0 <= i < |s| && Ties(cmp, s[i], e) ==> i >= k
  }

  lemma PreorderOfPart<T>(cmp: (T, T) -> int, all: seq<T>, part: seq<T>)
    requires Preorder(cmp, all) && forall i :: 0 <= i < |part| ==> part[i] in all
    ensures Preorder(cmp, part)
    ensures ZeroIsTie(cmp, all) ==> ZeroIsTie(cmp, part)
    ensures SignsAgree(cmp, all) ==> SignsAgree(cmp, part)
  {
    assert forall x :: x in part ==> x in all;
  }

  /** All inserts at the lower bound keep sorted lists sorted exactly for comparisons by which what
      compares as 0 is a tie. A list of one element shows it otherwise. */
  lemma KeepsSortedIff<T>(cmp: (T, T) -> int, all: seq<T>)
    requires Preorder(cmp, all)
    ensures (forall s: seq<T>, e: T, k: nat :: InsertFrom(cmp, all, s, e, k) ==> Sorted(cmp, InsertAt(s, k, e)))
       <==> ZeroIsTie(cmp, all)
  {
    if ZeroIsTie(cmp, all) {
      forall s: seq<T>, e: T, k: nat | InsertFrom(cmp, all, s, e, k) ensures Sorted(cmp, InsertAt(s, k, e)) {
        PreorderOfPart(cmp, all, [e] + s);
        LowerBoundKeepsSorted(cmp, s, e, k);
      }
    } else {
      var a, b :| a in all && b in all && cmp(a, b) == 0 && cmp(b, a) > 0;
      assert InsertFrom(cmp, all, [a], b, 0);
      InsertBeforeOne(cmp, a, b);
    }
  }

  /** They also put every item before those it ties with exactly for comparisons whose sign turns
      around with their arguments. */
  lemma KeepsSortedBeforeTiesIff<T>(cmp: (T, T) -> int, all: seq<T>)
    requires Preorder(cmp, all)
    ensures (forall s: seq<T>, e: T, k: nat :: InsertFrom(cmp, all, s, e, k) ==>
               Sorted(cmp, InsertAt(s, k, e)) && BeforeTies(cmp, s, e, k))
       <==> SignsAgree(cmp, all)
  {
    if SignsAgree(cmp, all) {
      forall s: seq<T>, e: T, k: nat | InsertFrom(cmp, all, s, e, k)
        ensures Sorted(cmp, InsertAt(s, k, e)) && BeforeTies(cmp, s, e, k)
      {
        PreorderOfPart(cmp, all, [e] + s);
        LowerBoundSplits(cmp, s, e, k);
      }
    } else {
      var a, b :| a in all && b in all && !(cmp(a, b) < 0 <==> cmp(b, a) > 0);
      if cmp(a, b) < 0 {
        assert InsertFrom(cmp, all, [a], b, 1) && Ties(cmp, [a][0], b);
        assert !BeforeTies(cmp, [a], b, 1);
      } else {
        assert InsertFrom(cmp, all, [a], b, 0);
        InsertBeforeOne(cmp, a, b);
      }
    }
  }

  lemma InsertBeforeOne<T>(cmp: (T, T) -> int, a: T, b: T)
    ensures Sorted(cmp, InsertAt([a], 0, b)) <==> cmp(b, a) <= 0
  {
    var t := InsertAt([a], 0, b);
    assert t == [b, a];
    assert Sorted(cmp, t) ==> cmp(t[0], t[1]) <= 0;
  }

  /** An insert at the lower bound of a sorted list keeps it sorted; and when signs agree it is a
      prepend followed by a stable sort, the new item coming before the ones it ties with. */
  lemma LowerBoundInsertSorts<T>(cmp: (T, T) -> int, s: seq<T>, e: T, k: nat)
    requires Preorder(cmp, [e] + s) && ZeroIsTie(cmp, [e] + s) && Sorted(cmp, s) && LowerBound(cmp, s, e, k)
    ensures Sorted(cmp, InsertAt(s, k, e))
    ensures SignsAgree(cmp, [e] + s) ==> InsertAt(s, k, e) == MergeSort(cmp, [e] + s, 1) && BeforeTies(cmp, s, e, k)
  {
    LowerBoundKeepsSorted(cmp, s, e, k);
    if SignsAgree(cmp, [e] + s) {
      LowerBoundSplits(cmp, s, e, k);
      PrependAndSort(cmp, s, e, k);
    }
  }

  lemma PrependAndSort<T>(cmp: (T, T) -> int, s: seq<T>, e: T, k: nat)
    requires Preorder(cmp, [e] + s) && k <= |s| && Sorted(cmp, InsertAt(s, k, e))
    requires forall i :: 0 <= i < k ==> cmp(e, s[i]) > 0
    ensures InsertAt(s, k, e) == MergeSort(cmp, [e] + s, 1)
  {
    var all, t := [e] + s, InsertAt(s, k, e);
    LowerInsertRearranges(cmp, s, e, k);
    MergeSortCorrect(cmp, all);
    var u := MergeSort(cmp, all, 1);
    SymmetricRearranges(cmp, all, t, u);
    RearrangedPreorder(cmp, all, t);
    StableSortUnique(cmp, t, u);
  }

  lemma LowerInsertRearranges<T>(cmp: (T, T) -> int, s: seq<T>, e: T, k: nat)
    requires Preorder(cmp, [e] + s) && k <= |s|
    requires forall i :: 0 <= i < k ==> cmp(e, s[i]) > 0
    ensures StablyRearranges(cmp, [e] + s, InsertAt(s, k, e))
  {
    var front, back := s[..k], s[k..];
    assert s == front + back;
    MultisetConcat([e], s);
    MultisetConcat(front, back);
    MultisetConcat(front, [e]);
    MultisetConcat(front + [e], back);
    forall x | x in [e] + s ensures TiesOf(cmp, x, [e] + s) == TiesOf(cmp, x, InsertAt(s, k, e)) {
      LowerSameTies(cmp, x, front, back, e, [e] + s);
    }
  }

  lemma LowerSameTies<T>(cmp: (T, T) -> int, x: T, front: seq<T>, back: seq<T>, e: T, all: seq<T>)
    requires Preorder(cmp, all) && x in all && e in all
    requires forall y :: y in front ==> y in all && cmp(e, y) > 0
    ensures TiesOf(cmp, x, [e] + (front + back)) == TiesOf(cmp, x, front + [e] + back)
  {
    TiesOfThree(cmp, x, [e], front, back);
    TiesOfThree(cmp, x, front, [e], back);
    if Ties(cmp, x, e) {
      NothingLessTies(cmp, x, e, front, all);
    } else {
      NoTies(cmp, x, [e]);
    }
    MiddleFirst(TiesOf(cmp, x, front), TiesOf(cmp, x, [e]), TiesOf(cmp, x, back));
  }

  lemma NothingLessTies<T>(cmp: (T, T) -> int, x: T, e: T, front: seq<T>, all: seq<T>)
    requires Preorder(cmp, all) && x in all && e in all && Ties(cmp, x, e)
    requires forall y :: y in front ==> y in all && cmp(e, y) > 0
    ensures TiesOf(cmp, x, front) == []
  {
    NoTies(cmp, x, front);
  }
}
