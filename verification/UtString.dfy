/** The one-time search wrappers over a growable string, and what they promise together. */
module UtString {
  import opened Borders
  import opened CIntegers
  import opened RightBorders
  import opened Kmp

  /** `UT_string`: the text is the first `i` characters of the buffer. */
  class UtString {
    var d: array<char>
    var i: nat

    ghost predicate Valid()
      reads this
    {
      i <= d.Length
    }

    ghost function Text(): (t: seq<char>)
      requires Valid()
      reads this, d
    {
      d[..i]
    }

    constructor (text: seq<char>)
      ensures Valid() && Text() == text
    {
      d := new char[|text|](k requires 0 <= k < |text| => text[k]);
      i := |text|;
    }

    /** Finds the leftmost occurrence that begins at or after the start position; a negative one
        counts from the end. A start before the buffer is a caller's error unless the needle is too
        long to be searched for. */
    method Find(start: int, needle: seq<char>) returns (position: int)
      requires Valid()
      requires 0 <= i + start || needle == [] || -start < |needle|
      ensures needle == [] || i + start < 0 || start > i ==> position == -1
      ensures 0 < |needle| <= INT_MAX && 0 <= start <= i ==>
        LeftmostFrom(VisibleFrom(Text(), start), needle, start, position)
      ensures 0 < |needle| <= INT_MAX && 0 <= i + start < i ==>
        LeftmostFrom(VisibleFrom(Text(), i + start), needle, i + start, position)
      ensures needle != [] && 0 <= start <= i ==> FoundByFrom(Text(), start, needle, position)
      ensures needle != [] && 0 <= i + start < i ==> FoundByFrom(Text(), i + start, needle, position)
    {
      var startPosition := if start < 0 then i + start else start;
      var haystackLen := i - startPosition;
      position := -1;
      if haystackLen >= |needle| && |needle| > 0 {
        var table := new int[|needle| + 1];
        var haystack := d[startPosition..i];
        ghost var buildSteps := BuildTable(needle, table);
        ghost var findSteps: nat;
        position, findSteps := FindWithTable(haystack, needle, table);
        assert haystack == Text()[startPosition..];
        ghost var found := position;
        if position >= 0 {
          position := position + startPosition;
        }
        FoundFrom(Text(), needle, startPosition, found);
      } else if needle != [] && 0 <= startPosition <= i {
        FoundFrom(Text(), needle, startPosition, -1);
      }
    }

    /** Finds the rightmost occurrence that ends no later than the start position; a negative one
        counts from the end. A start beyond the buffer is a caller's error unless the needle is too
        long to be searched for; up to the end of the buffer what lies there is searched, text or
        not. */
    method FindR(start: int, needle: seq<char>) returns (position: int)
      requires Valid()
      requires start < d.Length || needle == [] || start + 1 < |needle|
      ensures needle == [] || i + start < 0 ==> position == -1
      ensures 0 < |needle| <= INT_MAX && 0 <= start < i ==> RightmostUpTo(Text(), needle, start, position)
      ensures 0 < |needle| <= INT_MAX && 0 <= i + start < i ==> RightmostUpTo(Text(), needle, i + start, position)
      ensures needle != [] && 0 <= start < d.Length ==> FoundByR(d[..start + 1], needle, position)
      ensures needle != [] && 0 <= i + start < i ==> FoundByR(d[..i + start + 1], needle, position)
    {
      var startPosition := if start < 0 then i + start else start;
      var haystackLen := startPosition + 1;
      position := -1;
      if haystackLen >= |needle| && |needle| > 0 {
        var table := new int[|needle| + 1];
        var haystack := d[..haystackLen];
        ghost var buildSteps := BuildTableR(needle, table);
        ghost var findSteps: nat;
        position, findSteps := FindWithTableR(haystack, needle, table);
      }
      if 0 <= startPosition < i {
        assert Text()[..startPosition + 1] == d[..startPosition + 1];
        if 0 < |needle| <= INT_MAX { UpTo(Text(), needle, startPosition, position); }
      }
    }
  }

  /** `r` is where the last occurrence begins that ends at `last` or before, or -1. */
  ghost predicate RightmostUpTo(text: seq<char>, needle: seq<char>, last: nat, r: int) {
    && (r == -1 || (MatchAt(text, needle, r) && r + |needle| - 1 <= last))
    && forall p :: MatchAt(text, needle, p) && p + |needle| - 1 <= last ==> p <= r
  }

  lemma UpTo(text: seq<char>, needle: seq<char>, last: nat, r: int)
    requires last < |text| && needle != [] && Rightmost(text[..last + 1], needle, r)
    ensures RightmostUpTo(text, needle, last, r)
  {
    var part := text[..last + 1];
    forall p ensures MatchAt(part, needle, p) <==> MatchAt(text, needle, p) && p + |needle| - 1 <= last {
      if 0 <= p && p + |needle| <= |part| {
        assert part[p..p + |needle|] == text[p..p + |needle|];
      }
    }
  }

  /** The answer of the table search on the text from `from` on, as a position in the whole text. */
  ghost predicate FoundByFrom(text: seq<char>, from: nat, needle: seq<char>, r: int)
    requires from <= |text| && needle != []
  {
    (r == -1 || r >= from) && FoundBy(text[from..], needle, if r == -1 then -1 else r - from)
  }

  /** A search from `from` sees all of a text when what is left of it is within `int`. */
  lemma AllVisible(text: seq<char>, from: nat)
    requires from <= |text|
    ensures VisibleFrom(text, from) <= text && (|text| - from <= INT_MAX ==> VisibleFrom(text, from) == text)
  {
  }

  /** On a text within `int` the two searches of the whole text give its leftmost and its rightmost
      occurrence, and so agree on whether there is one. */
  method FindBothWays(s: UtString, needle: seq<char>) returns (first: int, last: int)
    requires s.Valid() && s.i <= INT_MAX
    ensures needle == [] ==> first == last == -1
    ensures needle != [] ==> Leftmost(s.Text(), needle, first) && Rightmost(s.Text(), needle, last)
    ensures (first == -1 <==> last == -1) && first <= last
  {
    first := s.Find(0, needle);
    last := s.FindR(-1, needle);
    ghost var text := s.Text();
    if needle != [] {
      assert text[0..] == text && text[..|text|] == text;
      WholeText(text, needle, first);
      if |needle| <= |text| {
        assert LeftmostFrom(VisibleFrom(text, 0), needle, 0, first);
      }
      DirectionsAgree(text, needle, first, last);
    }
  }

  /** The text up to where a search from `from` looks. */
  function VisibleFrom(text: seq<char>, from: nat): seq<char>
    requires from <= |text|
  {
    text[..from + SearchLimit(|text| - from)]
  }

  ghost predicate LeftmostFrom(text: seq<char>, needle: seq<char>, from: int, r: int) {
    && (r == -1 || (from <= r && MatchAt(text, needle, r)))
    && forall p :: from <= p && MatchAt(text, needle, p) ==> r != -1 && r <= p
  }

  lemma SameSlice(text: seq<char>, from: nat, n: nat, p: int, q: int)
    requires from + n <= |text| && from <= p <= q <= from + n
    ensures text[..from + n][p..q] == text[from..][..n][p - from..q - from]
  {
    assert text[..from + n][p..q] == text[p..q];
    assert text[from..][..n] == text[from..from + n];
    assert text[from..from + n][p - from..q - from] == text[p..q];
  }

  lemma ShiftLeftmost(text: seq<char>, needle: seq<char>, from: nat, r: int)
    requires from <= |text| && needle != []
    requires Leftmost(text[from..][..SearchLimit(|text| - from)], needle, r)
    ensures LeftmostFrom(VisibleFrom(text, from), needle, from, if r == -1 then -1 else r + from)
  {
    var whole, part := VisibleFrom(text, from), text[from..][..SearchLimit(|text| - from)];
    forall p | from <= p ensures MatchAt(whole, needle, p) <==> MatchAt(part, needle, p - from) {
      if p + |needle| <= |whole| {
        SameSlice(text, from, |part|, p, p + |needle|);
      }
    }
    if r != -1 { assert MatchAt(whole, needle, r + from); }
  }

  /** What a search from `from` answers, in terms of the whole text. */
  lemma FoundFrom(text: seq<char>, needle: seq<char>, from: nat, r: int)
    requires from <= |text| && needle != []
    requires FoundBy(text[from..], needle, r) || (r == -1 && |text| - from < |needle|)
    ensures FoundBy(text[from..], needle, r)
    ensures |needle| <= INT_MAX ==> LeftmostFrom(VisibleFrom(text, from), needle, from, if r == -1 then -1 else r + from)
  {
    if |needle| <= INT_MAX {
      FoundByIsLeftmost(text[from..], needle, r);
      ShiftLeftmost(text, needle, from, r);
    }
  }

  lemma WholeText(text: seq<char>, needle: seq<char>, r: int)
    requires |text| <= INT_MAX && needle != [] && FoundBy(text, needle, r)
    ensures Leftmost(text, needle, r)
  {
    SearchIsRight(text, needle, r);
  }

  /** A search of haystacks of length `n` always answers for the whole haystack. */
  ghost predicate AnswersForAll(n: nat) {
    forall haystack: seq<char>, needle: seq<char>, r: int ::
      |haystack| == n && needle != [] && Leftmost(haystack[..SearchLimit(n)], needle, r)
      ==> Leftmost(haystack, needle, r)
  }

  /** The `int` cast of the haystack length is harmless exactly up to `INT_MAX`: beyond it,
      every length has a haystack whose only occurrence is missed. */
  lemma CastIsHarmlessIff(n: nat)
    ensures AnswersForAll(n) <==> n <= INT_MAX
  {
    if n <= INT_MAX {
      forall haystack: seq<char>, needle: seq<char>, r: int |
        |haystack| == n && needle != [] && Leftmost(haystack[..SearchLimit(n)], needle, r)
        ensures Leftmost(haystack, needle, r)
      {
        assert haystack[..n] == haystack;
      }
    } else {
      var haystack := seq(n, k => if k == n - 1 then 'a' else 'b');
      var seen := haystack[..SearchLimit(n)];
      forall p ensures !MatchAt(seen, "a", p) {
        if 0 <= p < |seen| { assert seen[p..p + 1][0] == 'b'; }
      }
      assert Leftmost(seen, "a", -1);
      assert haystack[n - 1..n] == "a";
      assert MatchAt(haystack, "a", n - 1);
    }
  }

  // ----- when the answers are right -----

  /** Every search of a haystack of length `n` for a needle of length `m` is answered rightly. */
  ghost predicate AlwaysRight(n: nat, m: nat)
    requires m > 0
  {
    forall haystack: seq<char>, needle: seq<char>, r: int ::
      |haystack| == n && |needle| == m && FoundBy(haystack, needle, r) ==> Leftmost(haystack, needle, r)
  }

  /** For these two every possible answer is wrong. */
  ghost predicate Defeats(haystack: seq<char>, needle: seq<char>)
    requires needle != []
  {
    forall r: int :: FoundBy(haystack, needle, r) ==> !Leftmost(haystack, needle, r)
  }

  lemma SearchIsRight(haystack: seq<char>, needle: seq<char>, r: int)
    requires needle != [] && FoundBy(haystack, needle, r)
    requires |haystack| <= INT_MAX || |needle| > |haystack|
    ensures Leftmost(haystack, needle, r)
  {
    if |needle| <= |haystack| {
      assert haystack[..|haystack|] == haystack;
      FoundByIsLeftmost(haystack, needle, r);
    }
  }

  /** A row of `n` letters, all alike, and the same row ending in another letter. */
  function Row(n: nat): (s: seq<char>)
    ensures |s| == n && forall k :: 0 <= k < n ==> s[k] == 'b'
  {
    seq(n, _ => 'b')
  }

  function Flagged(n: nat): (s: seq<char>)
    requires n > 0
    ensures |s| == n && s[n - 1] == 'a' && forall k :: 0 <= k < n - 1 ==> s[k] == 'b'
  {
    Row(n - 1) + ['a']
  }

  lemma FlagAtEnd(n: nat, m: nat)
    requires 0 < m <= n
    ensures MatchAt(Flagged(n), Flagged(m), n - m)
  {
    assert Flagged(n)[n - m..n] == Flagged(m);
  }

  lemma NoFlag(text: seq<char>, m: nat, p: int)
    requires m > 0 && forall k :: 0 <= k < |text| ==> text[k] == 'b'
    ensures !MatchAt(text, Flagged(m), p)
  {
    if 0 <= p && p + m <= |text| {
      assert text[p..p + m][m - 1] != Flagged(m)[m - 1];
    }
  }

  /** In what a search past `int` sees, the flag at the end of the haystack is missing; and when it
      does not compare the flag of the needle, it may find one that is not there. */
  lemma DefeatedBeyondInt(n: nat, m: nat) returns (haystack: seq<char>)
    requires 0 < m <= n && n > INT_MAX
    ensures |haystack| == n && Defeats(haystack, Flagged(m))
  {
    var seen, part := SearchLimit(n), Compared(Flagged(m));
    FlagAtEnd(n, m);
    if m <= INT_MAX || seen < |part| || seen == 0 {
      haystack := Flagged(n);
      var text := Visible(haystack);
      if m <= INT_MAX { assert part == Flagged(m); }
      forall p ensures part != [] ==> !MatchAt(text, part, p) {
        if m <= INT_MAX { NoFlag(text, m, p); }
      }
    } else {
      haystack := Row(n);
      var text := Visible(haystack);
      assert part != [] ==> text[0..|part|] == part;
      assert part != [] ==> MatchAt(text, part, 0);
      forall p ensures !MatchAt(haystack, Flagged(m), p) {
        NoFlag(haystack, m, p);
      }
    }
  }

  /** The casts of the two lengths are harmless exactly for haystacks within `int` and for needles
      that do not fit in anyway. For all other lengths there are a haystack and a needle that the
      search answers wrongly. */
  lemma SearchIsRightIff(n: nat, m: nat)
    requires m > 0
    ensures AlwaysRight(n, m) <==> n <= INT_MAX || m > n
    ensures n > INT_MAX && m <= n ==> exists haystack: seq<char>, needle: seq<char> ::
              |haystack| == n && |needle| == m && Defeats(haystack, needle)
  {
    if n <= INT_MAX || m > n {
      forall haystack: seq<char>, needle: seq<char>, r: int | |haystack| == n && |needle| == m && FoundBy(haystack, needle, r)
        ensures Leftmost(haystack, needle, r)
      {
        SearchIsRight(haystack, needle, r);
      }
    } else {
      var haystack := DefeatedBeyondInt(n, m);
      var r := SomeAnswer(haystack, Flagged(m));
      assert |haystack| == n && |Flagged(m)| == m && FoundBy(haystack, Flagged(m), r);
    }
  }

  /** There always is an answer. */
  lemma SomeAnswer(haystack: seq<char>, needle: seq<char>) returns (r: int)
    requires needle != []
    ensures FoundBy(haystack, needle, r)
  {
    if |haystack| < |needle| {
      r := -1;
    } else if Compared(needle) == [] {
      r := if Visible(haystack) == [] then -1 else if needle[0] == haystack[0] then 0 else 1;
    } else {
      r := LeftmostExists(Visible(haystack), Compared(needle), |Visible(haystack)|);
    }
  }

  lemma {:induction false} LeftmostExists(text: seq<char>, needle: seq<char>, n: nat) returns (r: int)
    requires n <= |text|
    ensures r == -1 || (MatchAt(text, needle, r) && r <= n)
    ensures forall p :: MatchAt(text, needle, p) && p <= n ==> r != -1 && r <= p
    ensures n == |text| ==> Leftmost(text, needle, r)
  {
    if n > 0 { r := LeftmostExists(text, needle, n - 1); } else { r := -1; }
    if r == -1 && MatchAt(text, needle, n) { r := n; }
  }

  // ----- from the right -----

  ghost predicate AlwaysRightR(n: nat, m: nat) {
    forall haystack: seq<char>, needle: seq<char>, r: int ::
      |haystack| == n && |needle| == m && FoundByR(haystack, needle, r) ==> Rightmost(haystack, needle, r)
  }

  /** For these two every possible answer from the right is wrong. */
  ghost predicate DefeatsR(haystack: seq<char>, needle: seq<char>) {
    forall r: int :: FoundByR(haystack, needle, r) ==> !Rightmost(haystack, needle, r)
  }

  /** From the right only the needle's length is cast: all answers are right exactly for needles
      within `int` and for those that do not fit in anyway. For all other lengths there are a
      haystack and a needle that the search answers wrongly. */
  lemma SearchIsRightIffR(n: nat, m: nat)
    requires m > 0
    ensures AlwaysRightR(n, m) <==> m <= INT_MAX || m > n
    ensures INT_MAX < m <= n ==> exists haystack: seq<char>, needle: seq<char> ::
              |haystack| == n && |needle| == m && DefeatsR(haystack, needle)
  {
    if INT_MAX < m <= n {
      var haystack, needle := Row(n), Flagged(m);
      assert EndsAlike(haystack, needle);
      NoFlag(haystack, m, n - m);
      assert FoundByR(haystack, needle, n - m) && DefeatsR(haystack, needle);
    }
  }
}
