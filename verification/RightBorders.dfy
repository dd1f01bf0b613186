/** The right-to-left half of the border theory: the failure function read from the end of
    the needle, with the index shift of one that its table uses. */
module RightBorders {
  import opened Borders

  /** The suffix `s[j + 1..]` is also how `s[i + 1..]` begins: a border seen from the right. */
  predicate BorderR<T(==)>(s: seq<T>, i: int, j: int) {
    -1 <= i < j < |s| && s[j + 1..] == s[i + 1..|s| - j + i]
  }

  /** `v` is the right-to-left failure value at `i`: the least `j` whose suffix begins
      `s[i + 1..]` while `s[j]` differs from `s[i]` (any such `j` when `i == -1`), or `|s|`. */
  ghost predicate EntryR<T>(s: seq<T>, i: int, v: int)
    requires -1 <= i < |s|
  {
    && i < v <= |s|
    && (v < |s| ==> BorderR(s, i, v) && (i >= 0 ==> s[v] != s[i]))
    && NearerExtend(s, i, v)
  }

  /** Every border nearer than `v` is one that `s[i]` extends. */
  ghost predicate NearerExtend<T>(s: seq<T>, i: int, v: int)
    requires -1 <= i < |s|
  {
    forall j :: j < v && BorderR(s, i, j) ==> i >= 0 && s[j] == s[i]
  }

  /** The slots from `i + 1` on are right; slot `k` belongs to position `k - 1`. */
  ghost predicate FilledR<T>(s: seq<T>, table: seq<int>, i: int) {
    |table| == |s| + 1 && forall k :: 0 <= k && i + 1 <= k <= |s| ==> EntryR(s, k - 1, table[k])
  }

  ghost predicate TableR<T>(s: seq<T>, table: seq<int>) {
    FilledR(s, table, -1)
  }

  /** Slot `i + 1` in plain terms: `|s|`, or the least place whose suffix is also how the part after
      `i` begins and that is preceded otherwise than it; any nearer one, `j`, is preceded like it. */
  lemma TableSaysR<T>(s: seq<T>, table: seq<int>, i: int, j: int)
    requires TableR(s, table) && -1 <= i < j < |s|
    ensures |table| == |s| + 1 && i < table[i + 1] <= |s|
    ensures j == table[i + 1] ==> s[j + 1..] == s[i + 1..|s| - j + i] && (i >= 0 ==> s[j] != s[i])
    ensures j < table[i + 1] && s[j + 1..] == s[i + 1..|s| - j + i] ==> i >= 0 && s[j] == s[i]
  {
    assert EntryR(s, (i + 1) - 1, table[i + 1]);
    assert BorderR(s, i, j) <==> s[j + 1..] == s[i + 1..|s| - j + i];
  }

  /** `v` is the least `j` whose suffix begins `s[i + 1..]`, or `|s|` when `i` is the last position. */
  ghost predicate LongestR<T>(s: seq<T>, i: int, v: int) {
    && -1 <= i < v <= |s|
    && (v < |s| ==> BorderR(s, i, v))
    && forall j :: BorderR(s, i, j) ==> v <= j
  }

  /** `j` is `|s|` or borders `s[i + 1..]`, and no longer border is extended by `s[i]`. */
  ghost predicate FallingR<T>(s: seq<T>, i: int, j: int) {
    && 0 <= i < j <= |s|
    && (j < |s| ==> BorderR(s, i, j))
    && forall b :: b < j && BorderR(s, i, b) ==> s[b] != s[i]
  }

  lemma BorderTransitiveR<T>(s: seq<T>, i: int, j: int, b: int)
    requires BorderR(s, i, j) && BorderR(s, j, b)
    ensures BorderR(s, i, b)
  {
    assert s[j + 1..|s| - b + j] == s[j + 1..][..|s| - 1 - b];
    assert s[i + 1..|s| - b + i] == s[i + 1..|s| - j + i][..|s| - 1 - b];
  }

  lemma BorderOfBorderR<T>(s: seq<T>, i: int, j: int, b: int)
    requires BorderR(s, i, j) && BorderR(s, i, b) && j < b
    ensures BorderR(s, j, b)
  {
    assert s[j + 1..|s| - b + j] == s[j + 1..][..|s| - 1 - b];
    assert s[i + 1..|s| - b + i] == s[i + 1..|s| - j + i][..|s| - 1 - b];
  }

  lemma BorderExtendsR<T>(s: seq<T>, i: int, b: int)
    requires 0 <= i < |s|
    ensures b < |s| - 1 ==> (BorderR(s, i - 1, b) <==> BorderR(s, i, b + 1) && s[b + 1] == s[i])
  {
    if i <= b < |s| - 1 {
      assert s[b + 1..] == [s[b + 1]] + s[b + 2..];
      assert s[i..|s| - b + i - 1] == [s[i]] + s[i + 1..|s| - b + i - 1];
    }
  }

  lemma StartFallingR<T>(s: seq<T>, i: int, j: int)
    requires LongestR(s, i, j) && 0 <= i
    ensures FallingR(s, i, j)
  {
  }

  /** Falling back from `j` to its failure value passes over no border `s[i]` could extend. */
  lemma FallBackR<T>(s: seq<T>, i: int, j: int, table: seq<int>)
    requires FallingR(s, i, j) && j < |s| && s[i] != s[j]
    requires FilledR(s, table, i)
    ensures j < table[j + 1] <= |s| && FallingR(s, i, table[j + 1])
  {
    var f := table[j + 1];
    assert EntryR(s, j, f);
    if f < |s| { BorderTransitiveR(s, i, j, f); }
    forall b | b < f && BorderR(s, i, b) ensures s[b] != s[i] {
      if j < b { BorderOfBorderR(s, i, j, b); }
    }
  }

  lemma LongestExtendsR<T>(s: seq<T>, i: int, j: int)
    requires FallingR(s, i, j) && (j < |s| ==> s[j] == s[i])
    ensures LongestR(s, i - 1, j - 1)
  {
    var k := i - 1;
    BorderExtendsR(s, i, j - 1);
    forall b | BorderR(s, k, b) ensures j - 1 <= b {
      BorderExtendsR(s, i, b);
    }
  }

  /** The next slot down: the failure value of the longest border `j` when both continue
      alike, `j` itself when they differ or the needle's start is reached. */
  lemma FillNextR<T>(s: seq<T>, i: int, j: int, table: seq<int>)
    requires LongestR(s, i, j) && j < |s|
    requires FilledR(s, table, i + 1)
    ensures FilledR(s, table[i + 1 := if i >= 0 && s[i] == s[j] then table[j + 1] else j], i)
  {
    assert EntryR(s, (j + 1) - 1, table[j + 1]);
    EntryNextR(s, i, j, table[j + 1]);
    var now := table[i + 1 := if i >= 0 && s[i] == s[j] then table[j + 1] else j];
    forall k | 0 <= k && i + 1 <= k <= |s| ensures EntryR(s, k - 1, now[k]) {
      assert k > i + 1 ==> now[k] == table[k];
    }
  }

  lemma EntryNextR<T>(s: seq<T>, i: int, j: int, f: int)
    requires LongestR(s, i, j) && j < |s| && EntryR(s, j, f)
    ensures EntryR(s, i, if i >= 0 && s[i] == s[j] then f else j)
  {
    if i >= 0 && s[i] == s[j] {
      if f < |s| { BorderTransitiveR(s, i, j, f); }
      forall b | b < f && BorderR(s, i, b) ensures s[b] == s[i] {
        if j < b { BorderOfBorderR(s, i, j, b); }
      }
    }
  }

  /** After `text[j]` the needle's tail `needle[i + 1..]` is matched, and every occurrence
      ends no later than that match; with `i == |needle|` none reaches `j`. */
  ghost predicate ScanningR<T>(text: seq<T>, needle: seq<T>, j: int, i: int) {
    && 0 <= i <= |needle| && -1 <= j < |text| && |needle| - 1 - i <= |text| - 1 - j
    && (i < |needle| ==> text[j + 1..j + |needle| - i] == needle[i + 1..])
    && forall p :: MatchAt(text, needle, p) ==> p <= j - i
  }

  lemma StartScanningR<T>(text: seq<T>, needle: seq<T>)
    requires |needle| > 0
    ensures ScanningR(text, needle, |text| - 1, |needle| - 1)
  {
  }

  lemma OccurrenceIsBorderR<T>(text: seq<T>, needle: seq<T>, j: int, i: int, p: int)
    requires 0 <= i < |needle| && 0 <= j && j + |needle| - i <= |text|
    requires text[j + 1..j + |needle| - i] == needle[i + 1..]
    requires p <= j - i && j < p + |needle| && p <= j && MatchAt(text, needle, p)
    ensures needle[j - p] == text[j]
    ensures p < j - i ==> BorderR(needle, i, j - p)
  {
    var b, m := j - p, |needle|;
    assert text[p..p + m][b] == text[j];
    assert text[j + 1..p + m] == text[p..p + m][b + 1..] == needle[b + 1..];
    assert text[j + 1..p + m] == text[j + 1..j + m - i][..m - 1 - b] == needle[i + 1..][..m - 1 - b];
    assert needle[i + 1..][..m - 1 - b] == needle[i + 1..m - b + i];
  }

  lemma SkipMismatchR<T>(text: seq<T>, needle: seq<T>, j: int, i: int, table: seq<int>)
    requires ScanningR(text, needle, j, i) && i < |needle| && 0 <= j && needle[i] != text[j]
    requires TableR(needle, table)
    ensures i < table[i + 1] <= |needle| && ScanningR(text, needle, j, table[i + 1])
  {
    var f, m := table[i + 1], |needle|;
    assert EntryR(needle, i, f);
    if f < m {
      assert text[j + 1..j + m - f] == text[j + 1..j + m - i][..m - 1 - f];
      assert needle[i + 1..m - f + i] == needle[i + 1..][..m - 1 - f];
    }
    forall p | MatchAt(text, needle, p) ensures p <= j - f {
      if j < p + m {
        OccurrenceIsBorderR(text, needle, j, i, p);
      }
    }
  }

  lemma TakeElementR<T>(text: seq<T>, needle: seq<T>, j: int, i: int)
    requires ScanningR(text, needle, j, i) && 0 <= j
    requires i < |needle| ==> needle[i] == text[j]
    ensures i > 0 ==> ScanningR(text, needle, j - 1, i - 1)
    ensures i == 0 ==> Rightmost(text, needle, j)
  {
    var m := |needle|;
    if i < m {
      assert text[j..j + m - i] == [text[j]] + text[j + 1..j + m - i];
      assert needle[i..] == [needle[i]] + needle[i + 1..];
    }
    if i == 0 {
      assert needle[0..] == needle;
      assert m > 0 ==> MatchAt(text, needle, j);
    }
  }

  lemma NoRoomR<T>(text: seq<T>, needle: seq<T>, j: int, i: int)
    requires ScanningR(text, needle, j, i) && i < |needle| && (j == -1 || j < i)
    ensures Rightmost(text, needle, -1)
  {
  }
}
