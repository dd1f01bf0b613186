/** What the bottom-up merge sorts of `utlist.h` and `uthash.h` compute, as functions on
    sequences, and why the result is the one stable sorted arrangement of the input. */
module Sorting {

  /** `cmp` is a total preorder on the elements of `s`. */
  ghost predicate Preorder<T>(cmp: (T, T) -> int, s: seq<T>) {
    && (forall a, b :: a in s && b in s ==> cmp(a, b) <= 0 || cmp(b, a) <= 0)
    && (forall a, b, c :: a in s && b in s && c in s && cmp(a, b) <= 0 && cmp(b, c) <= 0 ==> cmp(a, c) <= 0)
  }

  ghost predicate Sorted<T>(cmp: (T, T) -> int, s: seq<T>) {
    forall i, j :: 0 <= i < j < |s| ==> cmp(s[i], s[j]) <= 0
  }

  predicate Ties<T>(cmp: (T, T) -> int, a: T, b: T) {
    cmp(a, b) <= 0 && cmp(b, a) <= 0
  }

  /** The elements of `s` that tie with `x`, in the order they stand. */
  function TiesOf<T>(cmp: (T, T) -> int, x: T, s: seq<T>): seq<T> {
    if s == [] then [] else (if Ties(cmp, x, s[0]) then [s[0]] else []) + TiesOf(cmp, x, s[1..])
  }

  /** `t` is `s` rearranged, with tied elements kept in their order. */
  ghost predicate StablyRearranges<T>(cmp: (T, T) -> int, s: seq<T>, t: seq<T>) {
    && multiset(s) == multiset(t)
    && forall x :: x in s ==> TiesOf(cmp, x, s) == TiesOf(cmp, x, t)
  }

  // ----- the algorithm on sequences -----

  function Merge<T>(cmp: (T, T) -> int, p: seq<T>, q: seq<T>): (r: seq<T>)
    ensures |r| == |p| + |q|
  {
    if p == [] then q
    else if q == [] then p
    else if cmp(p[0], q[0]) <= 0 then [p[0]] + Merge(cmp, p[1..], q)
    else [q[0]] + Merge(cmp, p, q[1..])
  }

  function Min(a: nat, b: nat): nat {
    if a <= b then a else b
  }

  /** One pass: merge neighbouring runs of `width` elements pairwise. */
  function Pass<T>(cmp: (T, T) -> int, s: seq<T>, width: nat): (r: seq<T>)
    requires width > 0
    ensures |r| == |s|
  {
    if s == [] then []
    else
      var a, b := Min(width, |s|), Min(2 * width, |s|);
      Merge(cmp, s[..a], s[a..b]) + Pass(cmp, s[b..], width)
  }

  /** Passes of doubling width until one merge covers the list. */
  function MergeSort<T>(cmp: (T, T) -> int, s: seq<T>, width: nat): (r: seq<T>)
    requires width > 0
    ensures |r| == |s|
    decreases |s| - width
  {
    var t := Pass(cmp, s, width);
    if |s| <= 2 * width then t else MergeSort(cmp, t, 2 * width)
  }

  // ----- why it sorts, stably -----

  /** After a pass that took more than one merge the sort goes on with doubled runs. */
  lemma SortGoesOn<T>(cmp: (T, T) -> int, s: seq<T>, width: nat)
    requires width > 0
    ensures MergeSort(cmp, s, width)
         == if |s| <= 2 * width then Pass(cmp, s, width) else MergeSort(cmp, Pass(cmp, s, width), 2 * width)
  {
  }

  /** `goal` is what is left to compute, or has been. */
  ghost predicate StillToSort<T>(cmp: (T, T) -> int, goal: seq<T>, s: seq<T>, width: nat, looping: bool)
    requires width > 0
  {
    goal == if looping then MergeSort(cmp, s, width) else s
  }

  lemma PassDone<T>(cmp: (T, T) -> int, goal: seq<T>, s: seq<T>, width: nat)
    requires width > 0 && StillToSort(cmp, goal, s, width, true)
    ensures StillToSort(cmp, goal, Pass(cmp, s, width), width * 2, |s| > 2 * width)
  {
    SortGoesOn(cmp, s, width);
  }

  lemma ConcatAssociative<T>(a: seq<T>, b: seq<T>, c: seq<T>)
    ensures (a + b) + c == a + (b + c)
  {
  }

  lemma TiesOfCons<T>(cmp: (T, T) -> int, x: T, e: T, s: seq<T>)
    ensures TiesOf(cmp, x, [e] + s) == (if Ties(cmp, x, e) then [e] else []) + TiesOf(cmp, x, s)
  {
    assert ([e] + s)[1..] == s;
  }

  lemma {:induction false} TiesOfConcat<T>(cmp: (T, T) -> int, x: T, s: seq<T>, t: seq<T>)
    ensures TiesOf(cmp, x, s + t) == TiesOf(cmp, x, s) + TiesOf(cmp, x, t)
  {
    if s == [] {
      assert s + t == t;
    } else {
      var e, rest := s[0], s[1..];
      HeadAndTail(s);
      ConcatAssociative([e], rest, t);
      TiesOfCons(cmp, x, e, rest + t);
      TiesOfConcat(cmp, x, rest, t);
      ConcatAssociative(if Ties(cmp, x, e) then [e] else [], TiesOf(cmp, x, rest), TiesOf(cmp, x, t));
    }
  }

  lemma {:induction false} NoTies<T>(cmp: (T, T) -> int, x: T, s: seq<T>)
    requires forall y :: y in s ==> !Ties(cmp, x, y)
    ensures TiesOf(cmp, x, s) == []
  {
    if s != [] { NoTies(cmp, x, s[1..]); }
  }

  lemma MultisetCons<T>(e: T, s: seq<T>)
    ensures multiset([e] + s) == multiset{e} + multiset(s)
  {
  }

  lemma {:induction false} MergeElements<T>(cmp: (T, T) -> int, p: seq<T>, q: seq<T>)
    ensures multiset(Merge(cmp, p, q)) == multiset(p) + multiset(q)
  {
    if p != [] && q != [] {
      if cmp(p[0], q[0]) <= 0 {
        HeadAndTail(p);
        MultisetCons(p[0], p[1..]);
        MultisetCons(p[0], Merge(cmp, p[1..], q));
        MergeElements(cmp, p[1..], q);
      } else {
        HeadAndTail(q);
        MultisetCons(q[0], q[1..]);
        MultisetCons(q[0], Merge(cmp, p, q[1..]));
        MergeElements(cmp, p, q[1..]);
      }
    }
  }

  lemma MergeMember<T>(cmp: (T, T) -> int, p: seq<T>, q: seq<T>, x: T)
    ensures x in Merge(cmp, p, q) <==> x in p + q
  {
    MergeElements(cmp, p, q);
    assert x in multiset(Merge(cmp, p, q)) <==> x in multiset(p) + multiset(q);
  }

  lemma SortedCons<T>(cmp: (T, T) -> int, x: T, s: seq<T>)
    requires Sorted(cmp, s) && forall y :: y in s ==> cmp(x, y) <= 0
    ensures Sorted(cmp, [x] + s)
  {
  }

  lemma SortedHead<T>(cmp: (T, T) -> int, s: seq<T>, all: seq<T>)
    requires s != [] && Sorted(cmp, s) && Preorder(cmp, all) && forall y :: y in s ==> y in all
    ensures forall y :: y in s ==> cmp(s[0], y) <= 0
    ensures Sorted(cmp, s[1..])
  {
    assert cmp(s[0], s[0]) <= 0;
  }

  lemma {:induction false} MergeSorted<T>(cmp: (T, T) -> int, p: seq<T>, q: seq<T>, all: seq<T>)
    requires Sorted(cmp, p) && Sorted(cmp, q)
    requires Preorder(cmp, all) && forall y :: y in p || y in q ==> y in all
    ensures Sorted(cmp, Merge(cmp, p, q))
  {
    if p != [] && q != [] {
      SortedHead(cmp, p, all);
      SortedHead(cmp, q, all);
      if cmp(p[0], q[0]) <= 0 {
        MergeSorted(cmp, p[1..], q, all);
        forall y | y in Merge(cmp, p[1..], q) ensures cmp(p[0], y) <= 0 {
          MergeMember(cmp, p[1..], q, y);
        }
        SortedCons(cmp, p[0], Merge(cmp, p[1..], q));
      } else {
        MergeSorted(cmp, p, q[1..], all);
        forall y | y in Merge(cmp, p, q[1..]) ensures cmp(q[0], y) <= 0 {
          MergeMember(cmp, p, q[1..], y);
        }
        SortedCons(cmp, q[0], Merge(cmp, p, q[1..]));
      }
    }
  }

  /** Merging a sorted run in front of another keeps tied elements in order. */
  lemma {:induction false} MergeStable<T>(cmp: (T, T) -> int, x: T, p: seq<T>, q: seq<T>, all: seq<T>)
    requires Sorted(cmp, p) && Preorder(cmp, all) && x in all && forall y :: y in p || y in q ==> y in all
    ensures TiesOf(cmp, x, Merge(cmp, p, q)) == TiesOf(cmp, x, p) + TiesOf(cmp, x, q)
  {
    if p != [] && q != [] {
      if cmp(p[0], q[0]) <= 0 {
        MergeStable(cmp, x, p[1..], q, all);
        TiesOfCons(cmp, x, p[0], Merge(cmp, p[1..], q));
        ConcatAssociative(if Ties(cmp, x, p[0]) then [p[0]] else [], TiesOf(cmp, x, p[1..]), TiesOf(cmp, x, q));
      } else {
        MergeStable(cmp, x, p, q[1..], all);
        TiesOfCons(cmp, x, q[0], Merge(cmp, p, q[1..]));
        if Ties(cmp, x, q[0]) {
          NothingTies(cmp, x, p, q[0], all);
        }
      }
    }
  }

  /** An element below the head of a sorted run ties with nothing in it. */
  lemma NothingTies<T>(cmp: (T, T) -> int, x: T, p: seq<T>, e: T, all: seq<T>)
    requires p != [] && Sorted(cmp, p) && Preorder(cmp, all)
    requires x in all && e in all && (forall y :: y in p ==> y in all)
    requires cmp(p[0], e) > 0 && Ties(cmp, x, e)
    ensures TiesOf(cmp, x, p) == []
  {
    SortedHead(cmp, p, all);
    NoTies(cmp, x, p);
  }

  /** `s` falls into sorted runs of `width` elements, the last one possibly shorter. */
  ghost predicate SortedRuns<T>(cmp: (T, T) -> int, s: seq<T>, width: nat)
    requires width > 0
  {
    s == [] || (Sorted(cmp, s[..Min(width, |s|)]) && SortedRuns(cmp, s[Min(width, |s|)..], width))
  }

  lemma {:induction false} UnitRuns<T>(cmp: (T, T) -> int, s: seq<T>)
    ensures SortedRuns(cmp, s, 1)
  {
    if s != [] { UnitRuns(cmp, s[1..]); }
  }

  lemma ThreePieces<T>(s: seq<T>, a: nat, b: nat)
    requires a <= b <= |s|
    ensures s == s[..a] + s[a..b] + s[b..]
  {
  }

  lemma MultisetConcat<T>(s: seq<T>, t: seq<T>)
    ensures multiset(s + t) == multiset(s) + multiset(t)
  {
  }

  lemma {:induction false} PassElements<T>(cmp: (T, T) -> int, s: seq<T>, width: nat)
    requires width > 0
    ensures multiset(Pass(cmp, s, width)) == multiset(s)
  {
    if s != [] {
      var a, b := Min(width, |s|), Min(2 * width, |s|);
      var p, q, rest := s[..a], s[a..b], s[b..];
      var m, t := Merge(cmp, p, q), Pass(cmp, rest, width);
      MergeElements(cmp, p, q);
      PassElements(cmp, rest, width);
      MultisetConcat(m, t);
      MultisetConcat(p, q);
      MultisetConcat(p + q, rest);
      ThreePieces(s, a, b);
    }
  }

  /** A pass doubles the length of the sorted runs. */
  lemma {:induction false} PassSorts<T>(cmp: (T, T) -> int, s: seq<T>, width: nat, all: seq<T>)
    requires width > 0 && SortedRuns(cmp, s, width)
    requires Preorder(cmp, all) && forall y :: y in s ==> y in all
    ensures SortedRuns(cmp, Pass(cmp, s, width), 2 * width)
  {
    if s != [] {
      var a, b := Min(width, |s|), Min(2 * width, |s|);
      var m, t := Merge(cmp, s[..a], s[a..b]), Pass(cmp, s[b..], width);
      RunsAfterTwo(cmp, s, width);
      MergeSorted(cmp, s[..a], s[a..b], all);
      PassSorts(cmp, s[b..], width, all);
      assert (m + t)[..b] == m && (m + t)[b..] == t;
    }
  }

  lemma {:induction false} PassStable<T>(cmp: (T, T) -> int, x: T, s: seq<T>, width: nat, all: seq<T>)
    requires width > 0 && SortedRuns(cmp, s, width) && x in all
    requires Preorder(cmp, all) && forall y :: y in s ==> y in all
    ensures TiesOf(cmp, x, Pass(cmp, s, width)) == TiesOf(cmp, x, s)
  {
    if s != [] {
      var a, b := Min(width, |s|), Min(2 * width, |s|);
      var p, q, rest := s[..a], s[a..b], s[b..];
      RunsAfterTwo(cmp, s, width);
      MergeStable(cmp, x, p, q, all);
      PassStable(cmp, x, rest, width, all);
      TiesOfConcat(cmp, x, Merge(cmp, p, q), Pass(cmp, rest, width));
      TiesOfConcat(cmp, x, p, q);
      TiesOfConcat(cmp, x, p + q, rest);
      ThreePieces(s, a, b);
    }
  }

  lemma RunsAfterTwo<T>(cmp: (T, T) -> int, s: seq<T>, width: nat)
    requires width > 0 && SortedRuns(cmp, s, width)
    ensures var a, b := Min(width, |s|), Min(2 * width, |s|);
      Sorted(cmp, s[..a]) && Sorted(cmp, s[a..b]) && SortedRuns(cmp, s[b..], width)
  {
    var a, b := Min(width, |s|), Min(2 * width, |s|);
    var rest := s[a..];
    if rest != [] {
      assert rest[..Min(width, |rest|)] == s[a..b] && rest[Min(width, |rest|)..] == s[b..];
    } else {
      assert s[a..b] == [] && s[b..] == [];
    }
  }

  lemma SameMembers<T>(s: seq<T>, t: seq<T>)
    requires multiset(s) == multiset(t)
    ensures forall x :: x in s <==> x in t
  {
    forall x ensures x in s <==> x in t {
      assert x in multiset(s) <==> x in multiset(t);
    }
  }

  lemma SameLength<T>(s: seq<T>, t: seq<T>)
    requires multiset(s) == multiset(t)
    ensures |s| == |t|
  {
    assert |multiset(s)| == |s|;
  }

  lemma PassRearranges<T>(cmp: (T, T) -> int, s: seq<T>, width: nat)
    requires width > 0 && SortedRuns(cmp, s, width) && Preorder(cmp, s)
    ensures StablyRearranges(cmp, s, Pass(cmp, s, width))
  {
    PassElements(cmp, s, width);
    forall x | x in s ensures TiesOf(cmp, x, s) == TiesOf(cmp, x, Pass(cmp, s, width)) {
      PassStable(cmp, x, s, width, s);
    }
  }

  lemma RearrangesTransitive<T>(cmp: (T, T) -> int, s: seq<T>, t: seq<T>, u: seq<T>)
    requires StablyRearranges(cmp, s, t) && StablyRearranges(cmp, t, u)
    ensures StablyRearranges(cmp, s, u)
  {
    SameMembers(s, t);
  }

  lemma RearrangedPreorder<T>(cmp: (T, T) -> int, s: seq<T>, t: seq<T>)
    requires Preorder(cmp, s) && multiset(s) == multiset(t)
    ensures Preorder(cmp, t)
  {
    SameMembers(s, t);
  }

  lemma {:induction false} MergeSortFrom<T>(cmp: (T, T) -> int, s: seq<T>, width: nat)
    requires width > 0 && SortedRuns(cmp, s, width) && Preorder(cmp, s)
    ensures Sorted(cmp, MergeSort(cmp, s, width))
    ensures StablyRearranges(cmp, s, MergeSort(cmp, s, width))
    decreases |s| - width
  {
    var t := Pass(cmp, s, width);
    PassSorts(cmp, s, width, s);
    PassRearranges(cmp, s, width);
    if |s| <= 2 * width {
      assert t[..|t|] == t;
    } else {
      RearrangedPreorder(cmp, s, t);
      MergeSortFrom(cmp, t, 2 * width);
      RearrangesTransitive(cmp, s, t, MergeSort(cmp, t, 2 * width));
    }
  }

  /** The bottom-up merge sort sorts stably, for every total preorder. */
  lemma MergeSortCorrect<T>(cmp: (T, T) -> int, s: seq<T>)
    requires Preorder(cmp, s)
    ensures Sorted(cmp, MergeSort(cmp, s, 1))
    ensures StablyRearranges(cmp, s, MergeSort(cmp, s, 1))
  {
    UnitRuns(cmp, s);
    MergeSortFrom(cmp, s, 1);
  }

  /** Whatever the comparison says, no element is lost or made. */
  lemma {:induction false} SortElements<T>(cmp: (T, T) -> int, s: seq<T>, width: nat)
    requires width > 0
    ensures multiset(MergeSort(cmp, s, width)) == multiset(s)
    decreases |s| - width
  {
    PassElements(cmp, s, width);
    if |s| > 2 * width { SortElements(cmp, Pass(cmp, s, width), 2 * width); }
  }

  /** `t` is `s` rearranged, and for a total preorder its one stable sorted arrangement. */
  ghost predicate SortedFrom<T>(cmp: (T, T) -> int, s: seq<T>, t: seq<T>) {
    && t == MergeSort(cmp, s, 1) && multiset(t) == multiset(s)
    && (Preorder(cmp, s) ==> Sorted(cmp, t) && StablyRearranges(cmp, s, t))
  }

  lemma SortDone<T>(cmp: (T, T) -> int, s: seq<T>, t: seq<T>)
    requires t == MergeSort(cmp, s, 1)
    ensures SortedFrom(cmp, s, t)
  {
    SortElements(cmp, s, 1);
    if Preorder(cmp, s) { MergeSortCorrect(cmp, s); }
  }

  /** Equal first elements can be dropped from two stable rearrangements. */
  lemma DropEqualHeads<T>(cmp: (T, T) -> int, x: T, s: seq<T>, t: seq<T>)
    requires StablyRearranges(cmp, [x] + s, [x] + t)
    ensures StablyRearranges(cmp, s, t)
  {
    MultisetConcat([x], s);
    MultisetConcat([x], t);
    assert multiset(s) == multiset([x] + s) - multiset{x};
    assert multiset(t) == multiset([x] + t) - multiset{x};
    forall y | y in s ensures TiesOf(cmp, y, s) == TiesOf(cmp, y, t) {
      assert y in [x] + s;
      TiesOfConcat(cmp, y, [x], s);
      TiesOfConcat(cmp, y, [x], t);
      assert TiesOf(cmp, y, s) == (TiesOf(cmp, y, [x]) + TiesOf(cmp, y, s))[|TiesOf(cmp, y, [x])|..];
    }
  }

  lemma SameHeads<T>(cmp: (T, T) -> int, s: seq<T>, t: seq<T>)
    requires Preorder(cmp, s) && Sorted(cmp, s) && Sorted(cmp, t) && StablyRearranges(cmp, s, t)
    requires s != [] && t != []
    ensures s[0] == t[0]
  {
    SameMembers(s, t);
    SortedHead(cmp, s, s);
    SortedHead(cmp, t, s);
    var x := s[0];
    assert t[0] in t && x in s;
    assert TiesOf(cmp, x, s)[0] == s[0] && TiesOf(cmp, x, t)[0] == t[0];
  }

  lemma HeadAndTail<T>(s: seq<T>)
    requires s != []
    ensures s == [s[0]] + s[1..]
  {
  }

  /** A stable sorted arrangement is unique, so every stable sort agrees with this one. */
  lemma {:induction false} StableSortUnique<T>(cmp: (T, T) -> int, s: seq<T>, t: seq<T>)
    requires Preorder(cmp, s) && Sorted(cmp, s) && Sorted(cmp, t) && StablyRearranges(cmp, s, t)
    ensures s == t
  {
    SameMembers(s, t);
    SameLength(s, t);
    if s != [] {
      SameHeads(cmp, s, t);
      HeadAndTail(s);
      HeadAndTail(t);
      DropEqualHeads(cmp, s[0], s[1..], t[1..]);
      SortedHead(cmp, s, s);
      SortedHead(cmp, t, s);
      TailPreorder(cmp, s);
      StableSortUnique(cmp, s[1..], t[1..]);
    }
  }

  lemma TailPreorder<T>(cmp: (T, T) -> int, s: seq<T>)
    requires s != [] && Preorder(cmp, s)
    ensures Preorder(cmp, s[1..])
  {
  }
}
