/** The in-place bottom-up merge sort that `utlist.h` writes out three times and `uthash.h`
    once. The copies share every step but the list's end: the circular one takes the old head
    as its end mark (`stop`), and the singly linked one leaves `prev` alone (`back` is false). */
module ListSort {
  import opened Elements
  import opened Sorting

  /** The elements whose `prev` the sort may write. */
  ghost function Backward(s: seq<Elem>, back: bool): seq<Elem> {
    if back then s else []
  }

  /** What the sort has linked so far: `out`, with the last `next` still to be written. */
  ghost predicate Linked(out: seq<Elem>, list: Elem?, tail: Elem?, back: bool)
    reads out
  {
    && list == First(out) && tail == Last(out)
    && Distinct(out)
    && (forall k :: 0 <= k < |out| - 1 ==> out[k].next == out[k + 1])
    && (back ==> PrevLinks(out, null))
  }

  /** `s` from index `k` on, as it was linked before the pass: index `k`'s successor. */
  ghost function Successor(s: seq<Elem>, k: nat, stop: Elem?): Elem?
    requires k < |s|
  {
    if k + 1 < |s| then s[k + 1] else stop
  }

  /** The elements of `s` at `a..b` are still linked as before the pass. */
  ghost predicate Ahead(s: seq<Elem>, a: nat, b: nat, stop: Elem?)
    requires b <= |s|
    reads s
  {
    forall k :: a <= k < b ==> s[k].next == Successor(s, k, stop)
  }

  /** None of the elements of `s` at `a..b` is in `out`. */
  ghost predicate Apart(s: seq<Elem>, a: nat, b: nat, out: seq<Elem>)
    requires b <= |s|
  {
    forall k :: a <= k < b ==> s[k] !in out
  }

  /** The next element to read, or null at the end mark. */
  function Step(e: Elem, stop: Elem?): Elem?
    reads e
  {
    if e.next == stop then null else e.next
  }

  ghost function At(s: seq<Elem>, k: nat): Elem? {
    if k < |s| then s[k] else null
  }

  lemma StepIsSuccessor(s: seq<Elem>, a: nat, k: nat, b: nat, stop: Elem?)
    requires Distinct(s) && a <= k < b <= |s| && (stop == null || stop == s[0])
    requires Ahead(s, a, b, stop)
    ensures Step(s[k], stop) == At(s, k + 1)
  {
  }

  /** What is still to be read: the first run at `ip..mid`, and everything from `iq` on. */
  ghost predicate Unread(s: seq<Elem>, ip: nat, mid: nat, iq: nat, stop: Elem?, out: seq<Elem>)
    reads s
  {
    && ip <= mid <= iq <= |s|
    && Ahead(s, ip, mid, stop) && Ahead(s, iq, |s|, stop)
    && Apart(s, ip, mid, out) && Apart(s, iq, |s|, out)
  }

  ghost predicate Within(out: seq<Elem>, s: seq<Elem>) {
    forall k :: 0 <= k < |out| ==> out[k] in s
  }

  lemma WithinTransitive(s: seq<Elem>, t: seq<Elem>, u: seq<Elem>)
    requires Within(t, u)
    ensures Within(s, t) ==> Within(s, u)
  {
  }

  /** Appends `e` to the list being built; what is still to be read stays as it was. */
  method Emit(e: Elem, list: Elem?, tail: Elem?, stop: Elem?, back: bool, ghost out: seq<Elem>,
              ghost s: seq<Elem>, ghost ip: nat, ghost mid: nat, ghost iq: nat)
    returns (newList: Elem, newTail: Elem)
    requires Linked(out, list, tail, back) && e !in out
    requires e in s && Within(out, s)
    requires Unread(s, ip, mid, iq, stop, out) && Apart(s, ip, mid, [e]) && Apart(s, iq, |s|, [e])
    modifies s`next, Backward(s, back)`prev
    ensures Linked(out + [e], newList, newTail, back)
    ensures Unread(s, ip, mid, iq, stop, out + [e]) && Within(out + [e], s)
  {
    newList, newTail := Append(e, list, tail, back, out);
  }

  method Append(e: Elem, list: Elem?, tail: Elem?, back: bool, ghost out: seq<Elem>)
    returns (newList: Elem, newTail: Elem)
    requires Linked(out, list, tail, back) && e !in out
    modifies out`next, (if back then {e} else {})`prev
    ensures Linked(out + [e], newList, newTail, back)
  {
    ghost var n, all := |out|, out + [e];
    assert forall k :: 0 <= k < n ==> all[k] == out[k];
    if tail != null {
      assert tail == out[n - 1] && tail in out;
      tail.next := e;
      newList := list;
    } else {
      newList := e;
    }
    if back {
      e.prev := tail;
      assert PrevLinks(all, null);
    }
    newTail := e;
  }

  /** Steps `width` elements on from `p`: the start of the second run. */
  method SplitRun(p: Elem, width: nat, stop: Elem?, ghost s: seq<Elem>, ghost ip: nat)
    returns (q: Elem?, psize: nat)
    requires Distinct(s) && ip < |s| && p == s[ip] && width > 0
    requires stop == null || stop == s[0]
    requires Ahead(s, ip, |s|, stop)
    ensures psize == Min(width, |s| - ip)
    ensures q == At(s, ip + psize)
  {
    hide Distinct, Ahead;
    q := p;
    psize := 0;
    var i := 0;
    ghost var at: nat := ip;
    while i < width
      invariant 0 <= i <= width && psize == i && at == ip + i && at < |s| && q == s[at]
    {
      psize := psize + 1;
      q := StepOn(q, stop, s, ip, at);
      at := at + 1;
      if q == null {
        break;
      }
      i := i + 1;
    }
  }

  /** One step along what is still to be read. */
  method StepOn(e: Elem, stop: Elem?, ghost s: seq<Elem>, ghost a: nat, ghost k: nat) returns (q: Elem?)
    requires a <= k < |s| && e == s[k]
    requires Distinct(s) && (stop == null || stop == s[0]) && Ahead(s, a, |s|, stop)
    ensures if k + 1 < |s| then q == s[k + 1] else q == null
  {
    StepIsSuccessor(s, a, k, |s|, stop);
    q := Step(e, stop);
  }

  /** What is left to merge: the first run from `ip`, the second run from `iq`. */
  ghost function Remaining(cmp: (Elem, Elem) -> int, s: seq<Elem>, ip: nat, mid: nat, iq: nat, end: nat): seq<Elem>
    requires ip <= mid <= iq <= end <= |s|
  {
    Merge(cmp, s[ip..mid], s[iq..end])
  }

  lemma TakeFirst(cmp: (Elem, Elem) -> int, s: seq<Elem>, ip: nat, mid: nat, iq: nat, end: nat)
    requires ip < mid <= iq <= end <= |s|
    requires iq == end || cmp(s[ip], s[iq]) <= 0
    ensures Remaining(cmp, s, ip, mid, iq, end) == [s[ip]] + Remaining(cmp, s, ip + 1, mid, iq, end)
  {
    assert s[ip..mid][1..] == s[ip + 1..mid];
    if iq == end {
      assert s[iq..end] == [];
      assert s[ip..mid] == [s[ip]] + s[ip + 1..mid];
      MergeNothing(cmp, s[ip..mid]);
      MergeNothing(cmp, s[ip + 1..mid]);
    }
  }

  lemma MergeNothing(cmp: (Elem, Elem) -> int, p: seq<Elem>)
    ensures Merge(cmp, p, []) == p
  {
  }

  lemma TakeSecond(cmp: (Elem, Elem) -> int, s: seq<Elem>, ip: nat, mid: nat, iq: nat, end: nat)
    requires ip <= mid <= iq < end <= |s|
    requires ip == mid || cmp(s[ip], s[iq]) > 0
    ensures Remaining(cmp, s, ip, mid, iq, end) == [s[iq]] + Remaining(cmp, s, ip, mid, iq + 1, end)
  {
    assert s[iq..end][1..] == s[iq + 1..end];
    if ip == mid {
      assert s[iq..end] == [s[iq]] + s[iq + 1..end];
    }
  }

  /** Takes the next element from one of the two runs, which stand at `ip0` and `iq0`. */
  method Choose(cmp: (Elem, Elem) -> int, p0: Elem?, psize0: nat, q0: Elem?, qsize0: nat, stop: Elem?,
                ghost s: seq<Elem>, ghost ip0: nat, ghost mid: nat, ghost iq0: nat, ghost end: nat)
    returns (e: Elem, p: Elem?, psize: nat, q: Elem?, qsize: nat, ghost ip: nat, ghost iq: nat)
    requires Distinct(s) && s != [] && (stop == null || stop == s[0])
    requires ip0 <= mid <= iq0 <= end <= |s| && Ahead(s, ip0, mid, stop) && Ahead(s, iq0, |s|, stop)
    requires psize0 == mid - ip0 && (psize0 > 0 ==> p0 == s[ip0])
    requires end == Min(iq0 + qsize0, |s|) && q0 == At(s, iq0)
    requires psize0 > 0 || (qsize0 > 0 && q0 != null)
    ensures ip0 <= ip <= mid <= iq0 <= iq <= end
    ensures psize == mid - ip && (psize > 0 ==> p == s[ip])
    ensures iq + qsize == iq0 + qsize0 && q == At(s, iq)
    ensures (ip == ip0 + 1 && iq == iq0 && e == s[ip0]) || (ip == ip0 && iq == iq0 + 1 && e == s[iq0])
    ensures Remaining(cmp, s, ip0, mid, iq0, end) == [e] + Remaining(cmp, s, ip, mid, iq, end)
  {
    hide Distinct, Ahead, Remaining, Step;
    p, psize, q, qsize, ip, iq := p0, psize0, q0, qsize0, ip0, iq0;
    if psize == 0 {
      e := q;
      TakeSecond(cmp, s, ip, mid, iq, end);
      StepIsSuccessor(s, iq, iq, |s|, stop);
      q := Step(q, stop);
      qsize := qsize - 1;
      iq := iq + 1;
    } else if qsize == 0 || q == null {
      e := p;
      TakeFirst(cmp, s, ip, mid, iq, end);
      StepIsSuccessor(s, ip, ip, mid, stop);
      p := Step(p, stop);
      psize := psize - 1;
      ip := ip + 1;
    } else if cmp(p, q) <= 0 {
      e := p;
      TakeFirst(cmp, s, ip, mid, iq, end);
      StepIsSuccessor(s, ip, ip, mid, stop);
      p := Step(p, stop);
      psize := psize - 1;
      ip := ip + 1;
    } else {
      e := q;
      TakeSecond(cmp, s, ip, mid, iq, end);
      StepIsSuccessor(s, iq, iq, |s|, stop);
      q := Step(q, stop);
      qsize := qsize - 1;
      iq := iq + 1;
    }
  }

  /** The state between two steps of a merge: the runs stand at `ip` and `iq`, `out` is built. */
  ghost predicate Merging(s: seq<Elem>, ip: nat, mid: nat, iq: nat, stop: Elem?, back: bool,
                          out: seq<Elem>, list: Elem?, tail: Elem?)
    reads s, out
  {
    && Distinct(s) && s != [] && (stop == null || stop == s[0])
    && Unread(s, ip, mid, iq, stop, out)
    && Linked(out, list, tail, back) && Within(out, s)
  }

  method MergeStep(cmp: (Elem, Elem) -> int, p0: Elem?, psize0: nat, q0: Elem?, qsize0: nat,
                   list0: Elem?, tail0: Elem?, stop: Elem?, back: bool, ghost s: seq<Elem>,
                   ghost ip0: nat, ghost mid: nat, ghost iq0: nat, ghost end: nat, ghost out0: seq<Elem>)
    returns (p: Elem?, psize: nat, q: Elem?, qsize: nat, list: Elem?, tail: Elem?,
             ghost ip: nat, ghost iq: nat, ghost out: seq<Elem>)
    requires ip0 <= mid <= iq0 <= end <= |s| && Merging(s, ip0, mid, iq0, stop, back, out0, list0, tail0)
    requires psize0 == mid - ip0 && (psize0 > 0 ==> p0 == s[ip0])
    requires end == Min(iq0 + qsize0, |s|) && q0 == At(s, iq0)
    requires psize0 > 0 || (qsize0 > 0 && q0 != null)
    modifies s`next, Backward(s, back)`prev
    ensures ip0 <= ip <= mid <= iq0 <= iq <= end && psize + qsize < psize0 + qsize0
    ensures psize == mid - ip && (psize > 0 ==> p == s[ip])
    ensures iq + qsize == iq0 + qsize0 && q == At(s, iq)
    ensures Merging(s, ip, mid, iq, stop, back, out, list, tail)
    ensures out + Remaining(cmp, s, ip, mid, iq, end) == out0 + Remaining(cmp, s, ip0, mid, iq0, end)
  {
    var e;
    e, p, psize, q, qsize, ip, iq := Choose(cmp, p0, psize0, q0, qsize0, stop, s, ip0, mid, iq0, end);
    list, tail := Emit(e, list0, tail0, stop, back, out0, s, ip, mid, iq);
    ConcatAssociative(out0, [e], Remaining(cmp, s, ip, mid, iq, end));
    out := out0 + [e];
  }

  /** Merges the run at `p` with the run at `q`, appending to the list being built. */
  method MergeRuns(cmp: (Elem, Elem) -> int, p0: Elem, psize0: nat, q0: Elem?, width: nat,
                   list0: Elem?, tail0: Elem?, stop: Elem?, back: bool,
                   ghost s: seq<Elem>, ghost ip0: nat, ghost mid: nat, ghost out0: seq<Elem>)
    returns (q: Elem?, list: Elem?, tail: Elem?, ghost out: seq<Elem>, ghost end: nat)
    requires ip0 < |s| && p0 == s[ip0] && width > 0
    requires mid == Min(ip0 + width, |s|) && psize0 == mid - ip0 && q0 == At(s, mid)
    requires Merging(s, ip0, mid, mid, stop, back, out0, list0, tail0)
    modifies s`next, Backward(s, back)`prev
    ensures end == Min(ip0 + 2 * width, |s|) && q == At(s, end)
    ensures out == out0 + Remaining(cmp, s, ip0, mid, mid, end)
    ensures Merging(s, end, end, end, stop, back, out, list, tail)
  {
    end := Min(ip0 + 2 * width, |s|);
    ghost var ip: nat, iq: nat := ip0, mid;
    ghost var goal := out0 + Remaining(cmp, s, ip0, mid, mid, end);
    var p: Elem?, psize: nat, qsize: nat := p0, psize0, width;
    q, list, tail, out := q0, list0, tail0, out0;
    while psize > 0 || (qsize > 0 && q != null)
      invariant ip <= mid <= iq <= end
      invariant psize == mid - ip && (psize > 0 ==> p == s[ip])
      invariant qsize == mid + width - iq && q == At(s, iq)
      invariant Merging(s, ip, mid, iq, stop, back, out, list, tail)
      invariant out + Remaining(cmp, s, ip, mid, iq, end) == goal
      decreases psize + qsize
    {
      p, psize, q, qsize, list, tail, ip, iq, out :=
        MergeStep(cmp, p, psize, q, qsize, list, tail, stop, back, s, ip, mid, iq, end, out);
    }
    assert ip == mid && iq == end;
    assert Remaining(cmp, s, ip, mid, iq, end) == [];
  }

  /** How many merges a pass over `n` elements takes. */
  ghost predicate MergeCount(n: nat, width: nat, done: nat, merges: nat) {
    && (merges == 0 ==> done == 0)
    && (merges == 1 ==> done == Min(2 * width, n) && n > 0)
    && (merges >= 2 ==> n > 2 * width)
  }

  lemma PassUnfolds(cmp: (Elem, Elem) -> int, s: seq<Elem>, width: nat, ip: nat, mid: nat, end: nat)
    requires width > 0 && ip < |s| && mid == Min(ip + width, |s|) && end == Min(ip + 2 * width, |s|)
    ensures Pass(cmp, s[ip..], width) == Remaining(cmp, s, ip, mid, mid, end) + Pass(cmp, s[end..], width)
  {
    var t := s[ip..];
    assert t[..Min(width, |t|)] == s[ip..mid];
    assert t[Min(width, |t|)..Min(2 * width, |t|)] == s[mid..end];
    assert t[Min(2 * width, |t|)..] == s[end..];
  }

  /** A pass that has read up to `ip` and made `out` of its `result`. */
  ghost predicate InPass(cmp: (Elem, Elem) -> int, s: seq<Elem>, width: nat, stop: Elem?, back: bool, result: seq<Elem>,
                         p: Elem?, ip: nat, out: seq<Elem>, list: Elem?, tail: Elem?, merges: nat)
    reads s, out
  {
    && width > 0 && ip <= |s| && p == At(s, ip)
    && Merging(s, ip, ip, ip, stop, back, out, list, tail)
    && out + Pass(cmp, s[ip..], width) == result && MergeCount(|s|, width, ip, merges)
  }

  lemma StartPass(cmp: (Elem, Elem) -> int, s: seq<Elem>, width: nat, stop: Elem?, back: bool)
    requires width > 0 && s != [] && Distinct(s) && (stop == null || stop == s[0])
    requires Ahead(s, 0, |s|, stop)
    ensures InPass(cmp, s, width, stop, back, Pass(cmp, s, width), s[0], 0, [], null, null, 0)
  {
    assert s[0..] == s;
  }

  lemma EndPass(cmp: (Elem, Elem) -> int, s: seq<Elem>, width: nat, stop: Elem?, back: bool, result: seq<Elem>,
                ip: nat, out: seq<Elem>, list: Elem?, tail: Elem?, merges: nat)
    requires InPass(cmp, s, width, stop, back, result, null, ip, out, list, tail, merges)
    requires result == Pass(cmp, s, width)
    ensures list != null && tail != null && Linked(result, list, tail, back) && Within(result, s)
    ensures merges <= 1 <==> |s| <= 2 * width
  {
    assert s[|s|..] == [];
    assert out + [] == out;
  }

  /** One pass over the whole list; the last `next` is left to the caller. */
  method SortPass(cmp: (Elem, Elem) -> int, head: Elem, width: nat, stop: Elem?, back: bool,
                  ghost s: seq<Elem>)
    returns (list: Elem, tail: Elem, merges: nat)
    requires width > 0 && s != [] && head == s[0] && Distinct(s)
    requires (stop == null || stop == head) && Ahead(s, 0, |s|, stop)
    modifies s`next, Backward(s, back)`prev
    ensures Linked(Pass(cmp, s, width), list, tail, back)
    ensures Within(Pass(cmp, s, width), s)
    ensures merges <= 1 <==> |s| <= 2 * width
  {
    var p: Elem?, l: Elem?, t: Elem? := head, null, null;
    merges := 0;
    ghost var ip: nat, out: seq<Elem> := 0, [];
    ghost var result := Pass(cmp, s, width);
    StartPass(cmp, s, width, stop, back);
    while p != null
      invariant InPass(cmp, s, width, stop, back, result, p, ip, out, l, t, merges)
      decreases |s| - ip
    {
      p, l, t, ip, out := PassRound(cmp, p, width, l, t, stop, back, s, ip, out, result, merges);
      merges := merges + 1;
    }
    EndPass(cmp, s, width, stop, back, result, ip, out, l, t, merges);
    list, tail := l, t;
  }

  lemma OneMoreMerge(n: nat, width: nat, ip: nat, merges: nat)
    requires width > 0 && ip < n && MergeCount(n, width, ip, merges)
    ensures MergeCount(n, width, Min(ip + 2 * width, n), merges + 1)
  {
  }

  /** One merge of the pass. */
  method PassRound(cmp: (Elem, Elem) -> int, p: Elem, width: nat, list0: Elem?, tail0: Elem?, stop: Elem?, back: bool,
                   ghost s: seq<Elem>, ghost ip: nat, ghost out0: seq<Elem>, ghost result: seq<Elem>, ghost merges: nat)
    returns (q: Elem?, list: Elem?, tail: Elem?, ghost end: nat, ghost out: seq<Elem>)
    requires InPass(cmp, s, width, stop, back, result, p, ip, out0, list0, tail0, merges)
    modifies s`next, Backward(s, back)`prev
    ensures InPass(cmp, s, width, stop, back, result, q, end, out, list, tail, merges + 1) && ip < end <= |s|
  {
    ghost var mid: nat;
    q, list, tail, mid, end, out := PassStep(cmp, p, width, list0, tail0, stop, back, s, ip, out0);
    PassContinues(cmp, s, width, ip, mid, end, out0);
    OneMoreMerge(|s|, width, ip, merges);
  }

  lemma PassContinues(cmp: (Elem, Elem) -> int, s: seq<Elem>, width: nat, ip: nat, mid: nat, end: nat, out: seq<Elem>)
    requires width > 0 && ip < |s| && mid == Min(ip + width, |s|) && end == Min(ip + 2 * width, |s|)
    ensures out + Remaining(cmp, s, ip, mid, mid, end) + Pass(cmp, s[end..], width) == out + Pass(cmp, s[ip..], width)
  {
    PassUnfolds(cmp, s, width, ip, mid, end);
    ConcatAssociative(out, Remaining(cmp, s, ip, mid, mid, end), Pass(cmp, s[end..], width));
  }

  lemma OpenRuns(s: seq<Elem>, ip: nat, mid: nat, stop: Elem?, back: bool, out: seq<Elem>, list: Elem?, tail: Elem?)
    requires Merging(s, ip, ip, ip, stop, back, out, list, tail) && ip <= mid <= |s|
    ensures Merging(s, ip, mid, mid, stop, back, out, list, tail)
  {
  }

  method PassStep(cmp: (Elem, Elem) -> int, p: Elem, width: nat, list0: Elem?, tail0: Elem?,
                  stop: Elem?, back: bool, ghost s: seq<Elem>, ghost ip: nat, ghost out0: seq<Elem>)
    returns (q: Elem?, list: Elem?, tail: Elem?, ghost mid: nat, ghost end: nat, ghost out: seq<Elem>)
    requires width > 0 && ip < |s| && p == s[ip]
    requires Merging(s, ip, ip, ip, stop, back, out0, list0, tail0)
    modifies s`next, Backward(s, back)`prev
    ensures mid == Min(ip + width, |s|) && end == Min(ip + 2 * width, |s|) && q == At(s, end)
    ensures Merging(s, end, end, end, stop, back, out, list, tail)
    ensures out == out0 + Remaining(cmp, s, ip, mid, mid, end)
  {
    var psize;
    q, psize, mid := OpenRun(p, width, list0, tail0, stop, back, s, ip, out0);
    q, list, tail, out, end := MergeRuns(cmp, p, psize, q, width, list0, tail0, stop, back, s, ip, mid, out0);
  }

  method OpenRun(p: Elem, width: nat, ghost list: Elem?, ghost tail: Elem?, stop: Elem?, ghost back: bool,
                 ghost s: seq<Elem>, ghost ip: nat, ghost out: seq<Elem>)
    returns (q: Elem?, psize: nat, ghost mid: nat)
    requires width > 0 && ip < |s| && p == s[ip]
    requires Merging(s, ip, ip, ip, stop, back, out, list, tail)
    ensures mid == Min(ip + width, |s|) && psize == mid - ip && q == At(s, mid)
    ensures Merging(s, ip, mid, mid, stop, back, out, list, tail)
  {
    q, psize := SplitRun(p, width, stop, s, ip);
    mid := ip + psize;
    OpenRuns(s, ip, mid, stop, back, out, list, tail);
  }
}
