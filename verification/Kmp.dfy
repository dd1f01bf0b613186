/** The substring search of `utstring.h`: two table builders, two searchers and the two
    one-time wrappers. A failure table is an array of `|needle| + 1` entries filled in place;
    the ghost result `steps` counts the iterations of the inner and outer loops together. */
module Kmp {
  import opened Borders
  import opened CIntegers
  import opened RightBorders

  /** How much of a haystack of length `n` the forward search looks at. */
  function SearchLimit(n: nat): (r: nat)
    ensures r <= n && (r == n <==> n <= INT_MAX)
  {
    if ToInt32(n) < 0 then 0 else ToInt32(n)
  }

  /** Where `n` look-ups in a table lead from `i`; slot `k + shift` belongs to position `k`. */
  ghost function After(table: seq<int>, shift: int, i: int, n: nat): int {
    if n == 0 then i
    else
      var k := After(table, shift, i, n - 1) + shift;
      if 0 <= k < |table| then table[k] else k
  }

  lemma AfterStart(table: seq<int>, shift: int, i: int)
    ensures After(table, shift, i, 0) == i
  {
  }

  lemma AfterNext(table: seq<int>, shift: int, i: int, n: nat)
    requires 0 <= After(table, shift, i, n) + shift < |table|
    ensures After(table, shift, i, n + 1) == table[After(table, shift, i, n) + shift]
  {
  }

  // ----- left to right -----

  /** The builder's inner loop: fall back until `needle[i]` extends the border. */
  method ShrinkBorder(needle: seq<char>, table: array<int>, i: int, start: int)
    returns (j: int, ghost steps: nat)
    requires Falling(needle, i, start) && table.Length == |needle| + 1
    requires Filled(needle, table[..i + 1])
    ensures Falling(needle, i, j) && (j > -1 ==> needle[i] == needle[j])
    ensures j == After(table[..], 0, start, steps) && steps <= start - j
  {
    j := start;
    steps := 0;
    AfterStart(table[..], 0, start);
    hide After;
    while j > -1 && needle[i] != needle[j]
      invariant Falling(needle, i, j)
      invariant j == After(table[..], 0, start, steps) && steps <= start - j
      decreases j
    {
      FallBack(needle, i, j, table[..i + 1]);
      assert table[j] == table[..i + 1][j];
      AfterNext(table[..], 0, start, steps);
      j := table[j];
      steps := steps + 1;
    }
  }

  /** The builder's last step: the slot of the next position. */
  method StoreEntry(needle: seq<char>, table: array<int>, i: int, j: int)
    requires table.Length == |needle| + 1 && 0 <= j && Longest(needle, i, j)
    requires Filled(needle, table[..i])
    modifies table
    ensures Filled(needle, table[..i + 1])
  {
    ghost var filled := table[..i];
    FillNext(needle, i, j, filled);
    assert table[j] == filled[j];
    if i < |needle| {
      if needle[i] == needle[j] {
        table[i] := table[j];
      } else {
        table[i] := j;
      }
    } else {
      table[i] := j;
    }
    assert table[..i + 1] == filled + [table[i]];
  }

  method BuildTable(needle: seq<char>, table: array<int>) returns (ghost steps: nat)
    requires table.Length == |needle| + 1
    modifies table
    ensures Table(needle, table[..])
    ensures |needle| <= steps <= 2 * |needle|
  {
    var i := 0;
    var j := i - 1;
    table[i] := j;
    ghost var inner: nat;
    steps := 0;
    while i < |needle|
      invariant 0 <= i <= |needle| && (i > 0 ==> j >= 0)
      invariant Longest(needle, i, j)
      invariant Filled(needle, table[..i + 1])
      invariant i <= steps <= 2 * i - 1 - j
    {
      StartFalling(needle, i, j);
      j, inner := ShrinkBorder(needle, table, i, j);
      LongestExtends(needle, i, j);
      i := i + 1;
      j := j + 1;
      steps := steps + inner + 1;
      StoreEntry(needle, table, i, j);
    }
    assert table[..|needle| + 1] == table[..];
  }

  /** What the search sees of the haystack. */
  function Visible(haystack: seq<char>): seq<char> {
    haystack[..SearchLimit(|haystack|)]
  }

  /** What it compares of the needle. */
  function Compared(needle: seq<char>): seq<char> {
    needle[..SearchLimit(|needle|)]
  }

  /** What the search answers. A needle whose cast length is not positive passes for found after
      one character, and of a longer one whose cast is positive only a prefix is looked for. */
  ghost predicate FoundBy(haystack: seq<char>, needle: seq<char>, r: int)
    requires needle != []
  {
    if |haystack| < |needle| then r == -1
    else if Compared(needle) == [] then r == if Visible(haystack) == [] then -1 else if needle[0] == haystack[0] then 0 else 1
    else if r == -1 then forall p :: MatchAt(Visible(haystack), Compared(needle), p) ==> p + |needle| > |haystack|
    else Leftmost(Visible(haystack), Compared(needle), r)
  }

  /** For a needle within `int` that is the leftmost occurrence in what is seen. */
  lemma FoundByIsLeftmost(haystack: seq<char>, needle: seq<char>, r: int)
    requires 0 < |needle| <= INT_MAX
    ensures FoundBy(haystack, needle, r) <==> Leftmost(Visible(haystack), needle, r)
  {
    assert needle[..|needle|] == needle;
  }

  /** Where a search stands: before position `j`, the needle matched up to `i`. */
  ghost predicate StandsAt(haystack: seq<char>, needle: seq<char>, j: int, i: int)
    requires needle != []
  {
    if Compared(needle) == [] then j == 0 && -1 <= i <= 0 && (i == -1 ==> haystack != [] && needle[0] != haystack[0])
    else Scanning(Visible(haystack), Compared(needle), j, i)
  }

  lemma SearchStarts(haystack: seq<char>, needle: seq<char>)
    requires needle != []
    ensures StandsAt(haystack, needle, 0, 0)
  {
    if Compared(needle) != [] { StartScanning(Visible(haystack), Compared(needle)); }
  }

  lemma SearchSkips(haystack: seq<char>, needle: seq<char>, table: seq<int>, j: int, i: int)
    requires needle != [] && Table(needle, table) && StandsAt(haystack, needle, j, i)
    requires 0 <= i < |needle| && 0 <= j < SearchLimit(|haystack|) && needle[i] != haystack[j]
    ensures -1 <= table[i] < i && StandsAt(haystack, needle, j, table[i])
  {
    assert Entry(needle, i, table[i]);
    if Compared(needle) != [] {
      EntryOfPrefix(needle, |Compared(needle)|, i, table[i]);
      SkipMismatch(Visible(haystack), Compared(needle), j, i, table[i]);
    }
  }

  lemma SearchTakes(haystack: seq<char>, needle: seq<char>, j: int, i: int)
    requires needle != [] && StandsAt(haystack, needle, j, i) && |needle| <= |haystack|
    requires -1 <= i < |needle| && 0 <= j < SearchLimit(|haystack|) && (i >= 0 ==> needle[i] == haystack[j])
    ensures if i + 1 >= ToInt32(|needle|) then FoundBy(haystack, needle, j - i)
            else StandsAt(haystack, needle, j + 1, i + 1)
  {
    hide ToInt32;
    if Compared(needle) != [] { TakeElement(Visible(haystack), Compared(needle), j, i); }
  }

  /** The early exit: no occurrence is left that leaves room for the whole needle. */
  lemma SearchEnds(haystack: seq<char>, needle: seq<char>, j: int, i: int)
    requires needle != [] && StandsAt(haystack, needle, j, i) && 0 <= i
    requires j >= ToInt32(|haystack|) || |haystack| - j + i < |needle|
    ensures FoundBy(haystack, needle, -1)
  {
  }

  method FindWithTable(haystack: seq<char>, needle: seq<char>, table: array<int>)
    returns (position: int, ghost steps: nat)
    requires needle != [] && Table(needle, table[..])
    ensures FoundBy(haystack, needle, position)
    ensures |needle| <= INT_MAX ==> Leftmost(Visible(haystack), needle, position)
    ensures steps <= 2 * SearchLimit(|haystack|)
    ensures position >= 0 && |needle| <= INT_MAX ==> position + |needle| <= steps
    ensures position == -1 ==> SearchLimit(|haystack|) <= steps || |haystack| < steps + |needle|
  {
    hide StandsAt, FoundBy, Table, Leftmost, Visible;
    position := -1;
    var i, j := 0, 0;
    steps := 0;
    SearchStarts(haystack, needle);
    while j < ToInt32(|haystack|) && |haystack| - j + i >= |needle|
      invariant 0 <= i <= j <= SearchLimit(|haystack|) && i < |needle| && StandsAt(haystack, needle, j, i)
      invariant position == -1 && j <= steps <= 2 * j - i
    {
      ghost var inner: nat;
      i, inner := FallBackTo(haystack, needle, table, j, i);
      SearchTakes(haystack, needle, j, i);
      i := i + 1;
      j := j + 1;
      steps := steps + inner + 1;
      if i >= ToInt32(|needle|) {
        position := j - i;
        break;
      }
    }
    if position == -1 { SearchEnds(haystack, needle, j, i); }
    if |needle| <= INT_MAX { FoundByIsLeftmost(haystack, needle, position); }
  }

  /** The search's inner loop. */
  method FallBackTo(haystack: seq<char>, needle: seq<char>, table: array<int>, j: int, start: int)
    returns (i: int, ghost steps: nat)
    requires needle != [] && Table(needle, table[..]) && StandsAt(haystack, needle, j, start)
    requires 0 <= start < |needle| && 0 <= j < SearchLimit(|haystack|)
    ensures -1 <= i <= start && StandsAt(haystack, needle, j, i)
    ensures i > -1 ==> needle[i] == haystack[j]
    ensures i == After(table[..], 0, start, steps) && steps <= start - i
  {
    ghost var slots := table[..];
    i, steps := start, 0;
    AfterStart(slots, 0, start);
    hide *;
    while i > -1 && needle[i] != haystack[j]
      invariant -1 <= i <= start && StandsAt(haystack, needle, j, i)
      invariant i == After(slots, 0, start, steps) && steps <= start - i
      decreases i
    {
      i, steps := FallBackOnce(haystack, needle, table, j, i, start, steps);
    }
  }

  /** One round of it. */
  method FallBackOnce(haystack: seq<char>, needle: seq<char>, table: array<int>, j: int, i0: int,
                      ghost start: int, ghost steps0: nat)
    returns (i: int, ghost steps: nat)
    requires needle != [] && Table(needle, table[..]) && StandsAt(haystack, needle, j, i0)
    requires 0 <= i0 <= start < |needle| && 0 <= j < SearchLimit(|haystack|) && needle[i0] != haystack[j]
    requires i0 == After(table[..], 0, start, steps0)
    ensures -1 <= i < i0 && StandsAt(haystack, needle, j, i)
    ensures steps == steps0 + 1 && i == After(table[..], 0, start, steps)
  {
    SearchSkips(haystack, needle, table[..], j, i0);
    AfterNext(table[..], 0, start, steps0);
    hide *;
    i, steps := table[i0], steps0 + 1;
  }

  // ----- right to left -----

  method ShrinkBorderR(needle: seq<char>, table: array<int>, i: int, start: int)
    returns (j: int, ghost steps: nat)
    requires FallingR(needle, i, start)
    requires FilledR(needle, table[..], i)
    ensures FallingR(needle, i, j) && (j < |needle| ==> needle[i] == needle[j])
    ensures j == After(table[..], 1, start, steps) && steps <= j - start
  {
    j := start;
    steps := 0;
    AfterStart(table[..], 1, start);
    hide After;
    while j < |needle| && needle[i] != needle[j]
      invariant FallingR(needle, i, j)
      invariant j == After(table[..], 1, start, steps) && steps <= j - start
      decreases |needle| - j
    {
      FallBackR(needle, i, j, table[..]);
      AfterNext(table[..], 1, start, steps);
      j := table[j + 1];
      steps := steps + 1;
    }
  }

  method StoreEntryR(needle: seq<char>, table: array<int>, i: int, j: int)
    requires table.Length == |needle| + 1 && j < |needle| && LongestR(needle, i, j)
    requires FilledR(needle, table[..], i + 1)
    modifies table
    ensures FilledR(needle, table[..], i)
  {
    ghost var v := if i >= 0 && needle[i] == needle[j] then table[j + 1] else j;
    ghost var filled := table[..][i + 1 := v];
    FillNextR(needle, i, j, table[..]);
    if i >= 0 {
      if needle[i] == needle[j] {
        table[i + 1] := table[j + 1];
      } else {
        table[i + 1] := j;
      }
    } else {
      table[i + 1] := j;
    }
    assert table[..] == filled;
  }

  /** Fills the table from its last slot down. */
  method BuildTableR(needle: seq<char>, table: array<int>) returns (ghost steps: nat)
    requires table.Length == |needle| + 1
    modifies table
    ensures TableR(needle, table[..])
    ensures |needle| <= steps <= 2 * |needle|
  {
    var i := |needle| - 1;
    var j := i + 1;
    table[i + 1] := j;
    ghost var inner: nat;
    steps := 0;
    hide FallingR;
    while i >= 0
      invariant -1 <= i < |needle| && (i < |needle| - 1 ==> j < |needle|)
      invariant LongestR(needle, i, j)
      invariant FilledR(needle, table[..], i)
      invariant |needle| - 1 - i <= steps <= 2 * (|needle| - 1 - i) - (|needle| - j)
    {
      StartFallingR(needle, i, j);
      j, inner := ShrinkBorderR(needle, table, i, j);
      LongestExtendsR(needle, i, j);
      i := i - 1;
      j := j - 1;
      steps := steps + inner + 1;
      StoreEntryR(needle, table, i, j);
    }
  }

  /** The needle's part that its cast length lets the search compare is what the haystack ends in,
      the rest of the needle's length left free. */
  predicate EndsAlike(haystack: seq<char>, needle: seq<char>) {
    |needle| <= |haystack| &&
    forall k :: 0 <= k < ToInt32(|needle|) && k < |needle| ==> haystack[|haystack| - |needle| + k] == needle[k]
  }

  /** What the right-to-left search answers. Positions of the needle beyond its `int` cast are
      never compared. */
  ghost predicate FoundByR(haystack: seq<char>, needle: seq<char>, r: int) {
    && (|needle| <= INT_MAX ==> Rightmost(haystack, needle, r))
    && (|haystack| < |needle| ==> r == -1)
    && (EndsAlike(haystack, needle) ==> r == |haystack| - |needle|)
  }

  /** Where a search stands: after position `j`, the needle matched from `i` on. */
  ghost predicate StandsAtR(haystack: seq<char>, needle: seq<char>, j: int, i: int) {
    && (|needle| <= INT_MAX ==> ScanningR(haystack, needle, j, i))
    && (EndsAlike(haystack, needle) || |haystack| < |needle| ==> j - i == |haystack| - |needle|)
  }

  lemma SearchStartsR(haystack: seq<char>, needle: seq<char>)
    requires needle != []
    ensures StandsAtR(haystack, needle, |haystack| - 1, |needle| - 1)
  {
    StartScanningR(haystack, needle);
  }

  lemma SearchSkipsR(haystack: seq<char>, needle: seq<char>, table: seq<int>, j: int, i: int)
    requires TableR(needle, table) && StandsAtR(haystack, needle, j, i) && |needle| <= |haystack|
    requires 0 <= i < |needle| && 0 <= j < |haystack| && i < ToInt32(|needle|) && needle[i] != haystack[j]
    ensures i < table[i + 1] <= |needle| && StandsAtR(haystack, needle, j, table[i + 1])
  {
    assert EntryR(needle, i, table[i + 1]);
    if |needle| <= INT_MAX { SkipMismatchR(haystack, needle, j, i, table); }
  }

  lemma SearchTakesR(haystack: seq<char>, needle: seq<char>, j: int, i: int)
    requires StandsAtR(haystack, needle, j, i) && |needle| <= |haystack|
    requires 0 <= i <= |needle| && 0 <= j < |haystack| && (i < ToInt32(|needle|) ==> needle[i] == haystack[j])
    ensures if i == 0 then FoundByR(haystack, needle, j) else StandsAtR(haystack, needle, j - 1, i - 1)
  {
    if |needle| <= INT_MAX { TakeElementR(haystack, needle, j, i); }
  }

  lemma SearchEndsR(haystack: seq<char>, needle: seq<char>, j: int, i: int)
    requires StandsAtR(haystack, needle, j, i) && 0 <= i < |needle| && -1 <= j < |haystack|
    requires j < 0 || j < i
    ensures FoundByR(haystack, needle, -1)
  {
    if |needle| <= INT_MAX { NoRoomR(haystack, needle, j, i); }
  }

  method FindWithTableR(haystack: seq<char>, needle: seq<char>, table: array<int>)
    returns (position: int, ghost steps: nat)
    requires needle != [] && TableR(needle, table[..])
    ensures FoundByR(haystack, needle, position)
    ensures steps <= 2 * |haystack|
    ensures |haystack| <= steps + if position >= 0 then position else |needle|
  {
    hide FoundByR, TableR, ScanningR;
    position := -1;
    var j := |haystack| - 1;
    var i := |needle| - 1;
    steps := 0;
    SearchStartsR(haystack, needle);
    while j >= 0 && j >= i
      invariant -1 <= j < |haystack| && 0 <= i < |needle| && position == -1
      invariant StandsAtR(haystack, needle, j, i)
      invariant |haystack| - 1 - j <= steps <= 2 * (|haystack| - 1 - j) - (|needle| - 1 - i)
    {
      ghost var inner: nat;
      i, inner := FallBackToR(haystack, needle, table, j, i);
      SearchTakesR(haystack, needle, j, i);
      i := i - 1;
      j := j - 1;
      steps := steps + inner + 1;
      if i < 0 {
        position := j + 1;
        break;
      }
    }
    if position == -1 { SearchEndsR(haystack, needle, j, i); }
  }

  /** The inner loop of the right-to-left search. */
  method FallBackToR(haystack: seq<char>, needle: seq<char>, table: array<int>, j: int, start: int)
    returns (i: int, ghost steps: nat)
    requires TableR(needle, table[..]) && StandsAtR(haystack, needle, j, start) && |needle| <= |haystack|
    requires 0 <= start < |needle| && 0 <= j < |haystack|
    ensures start <= i <= |needle| && StandsAtR(haystack, needle, j, i)
    ensures i < ToInt32(|needle|) ==> needle[i] == haystack[j]
    ensures i == After(table[..], 1, start, steps) && steps <= i - start
  {
    ghost var slots := table[..];
    i, steps := start, 0;
    AfterStart(slots, 1, start);
    hide *;
    while i < ToInt32(|needle|) && needle[i] != haystack[j]
      invariant start <= i <= |needle| && StandsAtR(haystack, needle, j, i)
      invariant i == After(slots, 1, start, steps) && steps <= i - start
      decreases |needle| - i
    {
      i, steps := FallBackOnceR(haystack, needle, table, j, i, start, steps);
    }
  }

  method FallBackOnceR(haystack: seq<char>, needle: seq<char>, table: array<int>, j: int, i0: int,
                       ghost start: int, ghost steps0: nat)
    returns (i: int, ghost steps: nat)
    requires TableR(needle, table[..]) && StandsAtR(haystack, needle, j, i0) && |needle| <= |haystack|
    requires 0 <= start <= i0 < |needle| && 0 <= j < |haystack| && i0 < ToInt32(|needle|) && needle[i0] != haystack[j]
    requires i0 == After(table[..], 1, start, steps0)
    ensures i0 < i <= |needle| && StandsAtR(haystack, needle, j, i)
    ensures steps == steps0 + 1 && i == After(table[..], 1, start, steps)
  {
    SearchSkipsR(haystack, needle, table[..], j, i0);
    AfterNext(table[..], 1, start, steps0);
    hide *;
    i, steps := table[i0 + 1], steps0 + 1;
  }
}
