/** Occurrences, borders and the strong failure function of a needle: the
    specification the two search directions of `utstring.h` are measured against. */
module Borders {

  /** `needle` occurs in `text` at position `p`. */
  predicate MatchAt<T(==)>(text: seq<T>, needle: seq<T>, p: int) {
    0 <= p && p + |needle| <= |text| && text[p..p + |needle|] == needle
  }

  /** `r` is the smallest position of an occurrence, or -1 when there is none. */
  ghost predicate Leftmost<T>(text: seq<T>, needle: seq<T>, r: int) {
    && (r == -1 || MatchAt(text, needle, r))
    && forall p :: MatchAt(text, needle, p) ==> r != -1 && r <= p
  }

  /** `r` is the largest position of an occurrence, or -1 when there is none. */
  ghost predicate Rightmost<T>(text: seq<T>, needle: seq<T>, r: int) {
    && (r == -1 || MatchAt(text, needle, r))
    && forall p :: MatchAt(text, needle, p) ==> p <= r
  }

  /** The first `b` elements of `s[..k]` are also its last `b`, and `b < k`. */
  predicate Border<T(==)>(s: seq<T>, k: int, b: int) {
    0 <= b < k <= |s| && s[..b] == s[k - b..k]
  }

  /** `v` is the strong failure value at `k`: the longest border of `s[..k]` whose
      continuation differs from `s[k]` (any border when `k == |s|`), or -1. */
  ghost predicate Entry<T>(s: seq<T>, k: int, v: int)
    requires 0 <= k <= |s|
  {
    && -1 <= v < k
    && (v >= 0 ==> Border(s, k, v) && (k < |s| ==> s[v] != s[k]))
    && LongerExtend(s, k, v)
  }

  /** Every border longer than `v` is one that `s[k]` extends. */
  ghost predicate LongerExtend<T>(s: seq<T>, k: int, v: int)
    requires 0 <= k <= |s|
  {
    forall b :: v < b && Border(s, k, b) ==> k < |s| && s[b] == s[k]
  }

  /** `v` is the longest border of `s[..k]`, or -1 for the empty prefix. */
  ghost predicate Longest<T>(s: seq<T>, k: int, v: int) {
    && -1 <= v < k <= |s|
    && (v >= 0 ==> Border(s, k, v))
    && forall b :: Border(s, k, b) ==> b <= v
  }

  /** The failure table is determined by its specification. */
  lemma EntryUnique<T>(s: seq<T>, k: int, v: int, w: int)
    requires 0 <= k <= |s|
    requires Entry(s, k, v) && Entry(s, k, w)
    ensures v == w
  {
    if v >= 0 && w >= 0 { assert Border(s, k, v) && Border(s, k, w); }
  }

  /** A border of a border is a border. */
  lemma BorderTransitive<T>(s: seq<T>, k: int, j: int, b: int)
    requires Border(s, k, j) && Border(s, j, b)
    ensures Border(s, k, b)
  {
    assert s[j - b..j] == s[..j][j - b..];
    assert s[k - b..k] == s[k - j..k][j - b..];
  }

  /** Of two borders of one prefix, the shorter is a border of the longer. */
  lemma BorderOfBorder<T>(s: seq<T>, k: int, j: int, b: int)
    requires Border(s, k, j) && Border(s, k, b) && b < j
    ensures Border(s, j, b)
  {
    assert s[j - b..j] == s[..j][j - b..];
    assert s[k - b..k] == s[k - j..k][j - b..];
  }

  /** Borders of `s[..k + 1]` are the borders of `s[..k]` that `s[k]` extends. */
  lemma BorderExtends<T>(s: seq<T>, k: int, b: int)
    requires 0 <= k < |s|
    ensures b >= 1 ==> (Border(s, k + 1, b) <==> Border(s, k, b - 1) && s[b - 1] == s[k])
  {
    if 1 <= b <= k {
      assert s[..b] == s[..b - 1] + [s[b - 1]];
      assert s[k + 1 - b..k + 1] == s[k + 1 - b..k] + [s[k]];
    }
  }

  /** `j` is -1 or a border of `s[..i]`, and no longer border is extended by `s[i]`. */
  ghost predicate Falling<T>(s: seq<T>, i: int, j: int) {
    && -1 <= j < i < |s|
    && (j >= 0 ==> Border(s, i, j))
    && forall b :: j < b && Border(s, i, b) ==> s[b] != s[i]
  }

  /** The first `|filled|` slots of a failure table are right. */
  ghost predicate Filled<T>(s: seq<T>, filled: seq<int>) {
    |filled| <= |s| + 1 && forall k :: 0 <= k < |filled| ==> Entry(s, k, filled[k])
  }

  /** Every slot of the table holds the strong failure value of its prefix. */
  ghost predicate Table<T>(s: seq<T>, table: seq<int>) {
    |table| == |s| + 1 && Filled(s, table)
  }

  /** Slot `k` in plain terms: -1, or how much of the part before `k` is also its end and goes on
      otherwise than `s[k]`; whatever is longer than that and is also its end goes on like `s[k]`,
      and at the end of `s` nothing is longer. */
  lemma TableSays<T>(s: seq<T>, table: seq<int>, k: nat)
    requires Table(s, table) && k <= |s|
    ensures |table| == |s| + 1 && -1 <= table[k] < k
    ensures table[k] >= 0 ==> s[..table[k]] == s[k - table[k]..k] && (k < |s| ==> s[table[k]] != s[k])
    ensures forall b :: 0 <= b < k && table[k] < b && s[..b] == s[k - b..k] ==> k < |s| && s[b] == s[k]
  {
    assert Entry(s, k, table[k]);
    forall b | 0 <= b < k && table[k] < b && s[..b] == s[k - b..k] ensures k < |s| && s[b] == s[k] {
      assert Border(s, k, b);
    }
  }

  lemma StartFalling<T>(s: seq<T>, i: int, j: int)
    requires Longest(s, i, j) && i < |s|
    ensures Falling(s, i, j)
  {
  }

  /** Falling back from border `j` to its failure value passes over no border of
      `s[..i]` that `s[i]` could extend. */
  lemma FallBack<T>(s: seq<T>, i: int, j: int, filled: seq<int>)
    requires Falling(s, i, j) && j >= 0 && s[i] != s[j]
    requires Filled(s, filled) && |filled| == i + 1
    ensures -1 <= filled[j] < j && Falling(s, i, filled[j])
  {
    var f := filled[j];
    assert Entry(s, j, f);
    if f >= 0 { BorderTransitive(s, i, j, f); }
    forall b | f < b && Border(s, i, b) ensures s[b] != s[i] {
      if b < j { BorderOfBorder(s, i, j, b); }
    }
  }

  /** When `j` is the last border of `s[..i]` that `s[i]` extends, `j + 1` is the
      longest border of `s[..i + 1]`. */
  lemma LongestExtends<T>(s: seq<T>, i: int, j: int)
    requires Falling(s, i, j) && (j >= 0 ==> s[j] == s[i])
    ensures Longest(s, i + 1, j + 1)
  {
    var k := i + 1;
    BorderExtends(s, i, j + 1);
    forall b | Border(s, k, b) ensures b <= j + 1 {
      BorderExtends(s, i, b);
    }
  }

  /** The next slot: the failure value of the longest border `j` when the two prefixes
      continue alike, `j` itself when they differ or the needle ends. */
  lemma FillNext<T>(s: seq<T>, i: int, j: int, filled: seq<int>)
    requires Longest(s, i, j) && 0 <= j
    requires Filled(s, filled) && |filled| == i
    ensures Filled(s, filled + [if i < |s| && s[i] == s[j] then filled[j] else j])
  {
    var f := filled[j];
    assert Entry(s, j, f);
    if i < |s| && s[i] == s[j] {
      if f >= 0 { BorderTransitive(s, i, j, f); }
      forall b | f < b && Border(s, i, b) ensures s[b] == s[i] {
        if b < j { BorderOfBorder(s, i, j, b); }
      }
      assert Entry(s, i, f);
    } else {
      assert Entry(s, i, j);
    }
  }

  /** The failure value at `k` depends on the needle up to `k` only. */
  lemma EntryOfPrefix<T>(s: seq<T>, n: int, k: int, v: int)
    requires 0 <= k < n <= |s| && Entry(s, k, v)
    ensures Entry(s[..n], k, v)
  {
    forall b ensures Border(s[..n], k, b) <==> Border(s, k, b) {
      if 0 <= b < k {
        assert s[..n][..b] == s[..b] && s[..n][k - b..k] == s[k - b..k];
      }
    }
  }

  /** An occurrence that starts inside the matched part and covers `text[j]` is a
      border of the matched part that `text[j]` extends. */
  lemma OccurrenceIsBorder<T>(text: seq<T>, needle: seq<T>, j: int, i: int, p: int)
    requires 0 <= i <= |needle| && i <= j < |text|
    requires text[j - i..j] == needle[..i]
    requires j - i <= p <= j && p + |needle| > j && MatchAt(text, needle, p)
    ensures needle[j - p] == text[j]
    ensures p > j - i ==> Border(needle, i, j - p)
  {
    var b := j - p;
    assert text[p..p + |needle|][b] == text[j];
    assert text[p..j] == text[p..p + |needle|][..b] == needle[..b];
    assert text[p..j] == text[j - i..j][i - b..] == needle[..i][i - b..];
    assert needle[..i][i - b..] == needle[i - b..i];
  }

  /** Before `text[j]` the first `i` elements of the needle are matched, and nothing to the
      left of that match is an occurrence; with `i == -1` nothing starts at or before `j`. */
  ghost predicate Scanning<T>(text: seq<T>, needle: seq<T>, j: int, i: int) {
    && -1 <= i < |needle| && i <= j <= |text|
    && (i >= 0 ==> text[j - i..j] == needle[..i])
    && forall p :: MatchAt(text, needle, p) ==> j - i <= p
  }

  lemma StartScanning<T>(text: seq<T>, needle: seq<T>)
    requires |needle| > 0
    ensures Scanning(text, needle, 0, 0)
  {
  }

  /** After a mismatch of `needle[i]` against `text[j]`, moving on to the failure value
      passes over no occurrence and keeps the matched part a match. */
  lemma SkipMismatch<T>(text: seq<T>, needle: seq<T>, j: int, i: int, f: int)
    requires Scanning(text, needle, j, i) && 0 <= i && j < |text| && needle[i] != text[j]
    requires Entry(needle, i, f)
    ensures -1 <= f < i && Scanning(text, needle, j, f)
  {
    if f >= 0 {
      assert text[j - f..j] == text[j - i..j][i - f..];
      assert needle[i - f..i] == needle[..i][i - f..];
    }
    forall p | MatchAt(text, needle, p) ensures j - f <= p {
      if p <= j && p + |needle| > j {
        OccurrenceIsBorder(text, needle, j, i, p);
      }
    }
  }

  /** Taking `text[j]` into the match: either the scan goes on or the leftmost
      occurrence has been reached. */
  lemma TakeElement<T>(text: seq<T>, needle: seq<T>, j: int, i: int)
    requires Scanning(text, needle, j, i) && j < |text|
    requires i >= 0 ==> needle[i] == text[j]
    ensures i + 1 < |needle| ==> Scanning(text, needle, j + 1, i + 1)
    ensures i + 1 == |needle| ==> Leftmost(text, needle, j - i)
  {
    if i >= 0 {
      assert text[j - i..j + 1] == text[j - i..j] + [text[j]];
      assert needle[..i + 1] == needle[..i] + [needle[i]];
    }
    if i + 1 == |needle| {
      assert needle[..i + 1] == needle;
      assert MatchAt(text, needle, j - i);
    }
  }

  /** The early exit: too little text is left for the scan to complete a match. */
  lemma NoRoom<T>(text: seq<T>, needle: seq<T>, j: int, i: int)
    requires Scanning(text, needle, j, i)
    requires j == |text| || |text| - j + i < |needle|
    ensures Leftmost(text, needle, -1)
  {
    forall p ensures !MatchAt(text, needle, p) {
      if j == |text| { assert p + |needle| <= |text| ==> p < j - i; }
    }
  }

  /** Both directions agree on whether there is an occurrence at all, and the leftmost
      one is never to the right of the rightmost one. */
  lemma DirectionsAgree<T>(text: seq<T>, needle: seq<T>, l: int, r: int)
    requires Leftmost(text, needle, l) && Rightmost(text, needle, r)
    ensures l == -1 <==> r == -1
    ensures l <= r
    ensures l == r && l >= 0 ==> forall p :: MatchAt(text, needle, p) <==> p == l
  {
    if l != -1 { assert MatchAt(text, needle, l); }
    if r != -1 { assert MatchAt(text, needle, r); }
  }
}
