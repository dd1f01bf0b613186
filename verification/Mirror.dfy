/** Reading text and needle backwards turns each half of the search into the other. */
module Mirror {
  import opened Borders
  import opened RightBorders

  /** The first `n` elements of `s`, last one first. */
  function ReverseFirst<T>(s: seq<T>, n: nat): (r: seq<T>)
    requires n <= |s|
    ensures |r| == n
  {
    if n == 0 then [] else [s[n - 1]] + ReverseFirst(s, n - 1)
  }

  function Reverse<T>(s: seq<T>): (r: seq<T>)
    ensures |r| == |s|
  {
    ReverseFirst(s, |s|)
  }

  lemma {:induction false} ReverseFirstAt<T>(s: seq<T>, n: nat, k: nat)
    requires k < n <= |s|
    ensures ReverseFirst(s, n)[k] == s[n - 1 - k]
  {
    if k > 0 {
      ReverseFirstAt(s, n - 1, k - 1);
    }
  }

  lemma ReverseAt<T>(s: seq<T>, k: int)
    requires 0 <= k < |s|
    ensures Reverse(s)[|s| - 1 - k] == s[k]
  {
    ReverseFirstAt(s, |s|, |s| - 1 - k);
  }

  lemma ReverseInvolutive<T>(s: seq<T>)
    ensures Reverse(Reverse(s)) == s
  {
    forall k | 0 <= k < |s| ensures Reverse(Reverse(s))[k] == s[k] {
      ReverseAt(Reverse(s), |s| - 1 - k);
      ReverseAt(s, k);
    }
  }

  lemma ReverseSlice<T>(s: seq<T>, a: int, b: int)
    requires 0 <= a <= b <= |s|
    ensures Reverse(s)[|s| - b..|s| - a] == Reverse(s[a..b])
  {
    var x, y := Reverse(s)[|s| - b..|s| - a], Reverse(s[a..b]);
    forall k | 0 <= k < b - a ensures x[k] == y[k] {
      ReverseAt(s, b - 1 - k);
      ReverseAt(s[a..b], b - a - 1 - k);
    }
  }

  lemma ReverseInjective<T>(x: seq<T>, y: seq<T>)
    ensures Reverse(x) == Reverse(y) <==> x == y
  {
    ReverseInvolutive(x);
    ReverseInvolutive(y);
  }

  lemma MatchMirrorImage<T>(text: seq<T>, needle: seq<T>, p: int)
    requires MatchAt(text, needle, p)
    ensures MatchAt(Reverse(text), Reverse(needle), |text| - |needle| - p)
  {
    ReverseSlice(text, p, p + |needle|);
  }

  /** Reversing text and needle mirrors the positions of the occurrences. */
  lemma MatchMirror<T>(text: seq<T>, needle: seq<T>, p: int)
    ensures MatchAt(text, needle, p)
       <==> MatchAt(Reverse(text), Reverse(needle), |text| - |needle| - p)
  {
    if MatchAt(text, needle, p) {
      MatchMirrorImage(text, needle, p);
    } else if MatchAt(Reverse(text), Reverse(needle), |text| - |needle| - p) {
      MatchMirrorImage(Reverse(text), Reverse(needle), |text| - |needle| - p);
      ReverseInvolutive(text);
      ReverseInvolutive(needle);
    }
  }

  /** Where an occurrence found in the mirror lies in the text itself. */
  function MirrorPosition(n: nat, m: nat, r: int): int {
    if r == -1 then -1 else n - m - r
  }

  /** A leftmost search of the mirror is a rightmost search of the text. */
  lemma RightmostMirrorsLeftmost<T>(text: seq<T>, needle: seq<T>, q: int)
    requires Leftmost(Reverse(text), Reverse(needle), q)
    ensures Rightmost(text, needle, MirrorPosition(|text|, |needle|, q))
  {
    var r := MirrorPosition(|text|, |needle|, q);
    MatchMirror(text, needle, r);
    forall p | MatchAt(text, needle, p) ensures p <= r {
      MatchMirror(text, needle, p);
    }
  }

  lemma BorderMirror<T>(s: seq<T>, i: int, j: int)
    requires -1 <= i < |s|
    ensures Border(Reverse(s), |s| - 1 - i, |s| - 1 - j) <==> BorderR(s, i, j)
  {
    var m := |s|;
    if i < j < m {
      ReverseSlice(s, j + 1, m);
      ReverseSlice(s, i + 1, m - j + i);
      ReverseInjective(s[j + 1..m], s[i + 1..m - j + i]);
    }
  }

  /** A longer border in the mirror is a nearer one in the needle. */
  lemma LongerBorderExtends<T>(s: seq<T>, i: int, v: int, b: int)
    requires -1 <= i < |s| && |s| - 1 - v < b && Border(Reverse(s), |s| - 1 - i, b)
    requires NearerExtend(s, i, v)
    ensures i >= 0 && Reverse(s)[b] == Reverse(s)[|s| - 1 - i]
  {
    var j := |s| - 1 - b;
    BorderMirror(s, i, j);
    assert i >= 0 && s[j] == s[i];
    ReverseAt(s, i);
    ReverseAt(s, j);
  }

  lemma LongerMirrorsNearer<T>(s: seq<T>, r: seq<T>, i: int, v: int, k: int, w: int)
    requires -1 <= i < |s| && NearerExtend(s, i, v)
    requires r == Reverse(s) && k == |s| - 1 - i && w == |s| - 1 - v
    ensures LongerExtend(r, k, w)
  {
    forall b | w < b && Border(r, k, b) ensures k < |r| && r[b] == r[k] {
      LongerBorderExtends(s, i, v, b);
    }
  }

  lemma ValueMirror<T>(s: seq<T>, r: seq<T>, i: int, v: int, k: int, w: int)
    requires -1 <= i < |s| && EntryR(s, i, v)
    requires r == Reverse(s) && k == |s| - 1 - i && w == |s| - 1 - v
    ensures -1 <= w < k <= |r|
    ensures w >= 0 ==> Border(r, k, w) && (k < |r| ==> r[w] != r[k])
  {
    if v < |s| {
      BorderMirror(s, i, v);
      ReverseAt(s, v);
      if i >= 0 { ReverseAt(s, i); }
    }
  }

  /** The right-to-left failure value at `i` is the left-to-right one of the reversed needle
      at `|s| - 1 - i`, both indices counted from the other end. */
  lemma EntryMirror<T>(s: seq<T>, i: int, v: int)
    requires -1 <= i < |s| && EntryR(s, i, v)
    ensures Entry(Reverse(s), |s| - 1 - i, |s| - 1 - v)
  {
    var r, k, w := Reverse(s), |s| - 1 - i, |s| - 1 - v;
    ValueMirror(s, r, i, v, k, w);
    LongerMirrorsNearer(s, r, i, v, k, w);
  }

  /** The right-to-left table, read from its last slot down and with every value counted from
      the other end, is the left-to-right table of the reversed needle. */
  lemma TableMirror(needle: seq<char>, table: seq<int>, forward: seq<int>, k: int)
    requires TableR(needle, table) && Table(Reverse(needle), forward)
    requires 0 <= k <= |needle|
    ensures table[|needle| - k] == |needle| - 1 - forward[k]
  {
    var m := |needle|;
    var v := table[m - k];
    assert EntryR(needle, (m - k) - 1, v);
    EntryMirror(needle, m - k - 1, v);
    assert Entry(Reverse(needle), k, forward[k]);
    EntryUnique(Reverse(needle), k, m - 1 - v, forward[k]);
  }
}
