/** The ring buffer of `utringbuffer.h`. A pointer to an element is the index of its slot. */
module RingBuffer {
  import opened Options

  // ----- the index maps -----

  /** The fields that place elements in slots: the next free slot, the capacity, and whether
      every slot is in use. */
  datatype Shape = Shape(i: nat, n: nat, f: bool) {
    predicate Valid() {
      i <= n && (i == n ==> n == 0 && !f)
    }

    function Len(): nat {
      if f then n else i
    }

    predicate Empty() {
      i == 0 && !f
    }

    function RealIdx(j: nat): nat
      requires f ==> n > 0
    {
      if f then (j + i) % n else j
    }

    function FakeIdx(j: nat): nat
      requires Valid()
    {
      if f then (j + n - i) % n else j
    }

    function EltPtr(j: int): Option<nat>
      requires Valid()
    {
      if 0 <= j && j < Len() then Some(RealIdx(j)) else None
    }

    function Front(): Option<nat>
      requires Valid()
    {
      EltPtr(0)
    }

    function Back(): Option<nat>
      requires Valid()
    {
      if Empty() then None else EltPtr(Len() - 1)
    }

    function Next(e: Option<nat>): Option<nat>
      requires Valid()
    {
      if e.None? then Front() else EltPtr(FakeIdx(e.value) + 1)
    }

    function Prev(e: Option<nat>): Option<nat>
      requires Valid()
    {
      if e.None? then Back() else EltPtr(FakeIdx(e.value) - 1)
    }
  }

  lemma SmallMod(x: nat, n: nat)
    requires 0 < n && x < 2 * n
    ensures x % n == if x < n then x else x - n
  {
    if x >= n { assert x % n == (x - n) % n; }
  }

  /** The two index maps undo each other and stay within the elements. */
  lemma IndexMapsInverse(s: Shape, j: nat)
    requires s.Valid() && j < s.Len()
    ensures s.RealIdx(j) < s.Len() && s.FakeIdx(j) < s.Len()
    ensures s.FakeIdx(s.RealIdx(j)) == j && s.RealIdx(s.FakeIdx(j)) == j
  {
    if s.f {
      SmallMod(j + s.i, s.n);
      SmallMod(j + s.n - s.i, s.n);
      SmallMod(s.RealIdx(j) + s.n - s.i, s.n);
      SmallMod(s.FakeIdx(j) + s.i, s.n);
    }
  }

  function RealIdx32(i: nat, j: nat, n: nat): nat
    requires n > 0
  {
    (j + i) % 0x1_0000_0000 % n
  }

  predicate IndexRight(n: nat)
    requires n > 0
  {
    forall i, j :: 0 <= i < n && 0 <= j < n ==> RealIdx32(i, j, n) == (j + i) % n
  }

  /** Computed in 32 bits, as it is for an `unsigned` index, the real index is right for every
      position exactly when the capacity is at most 2^31. */
  lemma UnsignedIndexIff(n: nat)
    requires 0 < n < 0x1_0000_0000
    ensures IndexRight(n) <==> n <= 0x8000_0000
  {
    if n <= 0x8000_0000 {
      forall i, j | 0 <= i < n && 0 <= j < n ensures RealIdx32(i, j, n) == (j + i) % n {
        SmallMod(j + i, 0x1_0000_0000);
      }
    } else {
      LastIndexWrong(n);
    }
  }

  lemma LastIndexWrong(n: nat)
    requires 0x8000_0000 < n < 0x1_0000_0000
    ensures RealIdx32(n - 1, n - 1, n) != (n - 1 + (n - 1)) % n
  {
    SmallMod(2 * n - 2, n);
    SmallMod(2 * n - 2, 0x1_0000_0000);
    SmallMod(2 * n - 2 - 0x1_0000_0000, n);
  }

  /** The element pointer reached by so many steps of `next` or `prev` from NULL. */
  function Steps(s: Shape, forward: bool, k: nat): Option<nat>
    requires s.Valid()
  {
    if k == 0 then None
    else if forward then s.Next(Steps(s, forward, k - 1)) else s.Prev(Steps(s, forward, k - 1))
  }

  lemma StepToNeighbour(s: Shape, j: nat)
    requires s.Valid() && j < s.Len()
    ensures s.Next(Some(s.RealIdx(j))) == if j + 1 < s.Len() then Some(s.RealIdx(j + 1)) else None
    ensures s.Prev(Some(s.RealIdx(j))) == if j > 0 then Some(s.RealIdx(j - 1)) else None
  {
    IndexMapsInverse(s, j);
  }

  /** Iteration by `next` visits the elements in order, by `prev` in reverse order, and each
      comes back to NULL after all of them. */
  lemma {:induction false} StepsVisit(s: Shape, forward: bool, k: nat)
    requires s.Valid() && k < s.Len()
    ensures Steps(s, forward, k + 1) == Some(s.RealIdx(if forward then k else s.Len() - 1 - k))
    ensures k + 1 == s.Len() ==> Steps(s, forward, k + 2) == None
  {
    if k > 0 {
      StepsVisit(s, forward, k - 1);
      StepToNeighbour(s, if forward then k - 1 else s.Len() - k);
    }
    StepToNeighbour(s, if forward then k else s.Len() - 1 - k);
  }

  /** In an empty buffer there is nothing to step to. */
  lemma EmptyStays(s: Shape, forward: bool, k: nat)
    requires s.Valid() && s.Len() == 0
    ensures Steps(s, forward, k) == None
  {
  }

  /** Each slot in use is visited by exactly one of the steps. */
  lemma EachVisitedOnce(s: Shape, slot: nat, k: nat)
    requires s.Valid() && slot < s.Len() && k < s.Len()
    ensures Steps(s, true, k + 1) == Some(slot) <==> k == s.FakeIdx(slot)
  {
    StepsVisit(s, true, k);
    IndexMapsInverse(s, slot);
    IndexMapsInverse(s, k);
  }

  // ----- the buffer -----

  function LastOf<T>(s: seq<T>, n: nat): (r: seq<T>)
    ensures |r| == if |s| < n then |s| else n
  {
    if |s| <= n then s else s[|s| - n..]
  }

  lemma LastOfIsTail<T>(s: seq<T>, n: nat)
    ensures LastOf(s, n) == s[|s| - |LastOf(s, n)|..]
  {
  }

  /** The elements in slots `d`, oldest first. */
  ghost function Ring<T>(d: seq<T>, s: Shape): (r: seq<T>)
    requires s.Valid() && |d| == s.n
    ensures |r| == s.Len()
  {
    if s.f then d[s.i..] + d[..s.i] else d[..s.i]
  }

  function Pushed(s: Shape): (r: Shape)
    requires s.Valid() && s.n > 0
    ensures r.Valid()
  {
    if s.i + 1 == s.n then Shape(0, s.n, true) else Shape(s.i + 1, s.n, s.f)
  }

  lemma RingPush<T>(d: seq<T>, s: Shape, p: T)
    requires s.Valid() && |d| == s.n && s.n > 0
    ensures Ring(d[s.i := p], Pushed(s)) == LastOf(Ring(d, s) + [p], s.n)
    ensures Ring(d[s.i := p], Pushed(s)) == (if |Ring(d, s)| == s.n then Ring(d, s)[1..] else Ring(d, s)) + [p]
    ensures s.f ==> Ring(d, s)[0] == d[s.i]
    ensures Ring(d, s) + [p] == (if s.f then [Ring(d, s)[0]] else []) + Ring(d[s.i := p], Pushed(s))
  {
    var all := Ring(d, s) + [p];
    if s.f {
      assert LastOf(all, s.n) == all[1..];
      FullRingPush(d, s.i, p);
    }
  }

  /** In a full buffer the new element takes the place of the oldest. */
  lemma FullRingPush<T>(d: seq<T>, i: nat, p: T)
    requires i < |d|
    ensures (d[i..] + d[..i])[0] == d[i]
    ensures d[i..] + d[..i] + [p] == [d[i]] + (d[i + 1..] + d[..i] + [p])
    ensures d[i := p][i + 1..] + d[i := p][..i + 1] == d[i + 1..] + d[..i] + [p]
  {
    assert d[i..] == [d[i]] + d[i + 1..];
  }

  /** Position `j` is found where the real index says. */
  lemma RingAt<T>(d: seq<T>, s: Shape, j: nat)
    requires s.Valid() && |d| == s.n && j < s.Len()
    ensures s.RealIdx(j) < s.n && d[s.RealIdx(j)] == Ring(d, s)[j]
  {
    if s.f {
      SmallMod(j + s.i, s.n);
    }
  }

  lemma LastOfLonger<T>(was: seq<T>, p: T, n: nat)
    requires n > 0
    ensures LastOf(LastOf(was, n) + [p], n) == LastOf(was + [p], n)
  {
  }

  class RingBuffer<T> {
    var i: nat
    const n: nat
    var f: bool
    const d: array<T>
    /** The elements the destructor has been called on. */
    var destroyed: seq<T>
    /** What has been pushed, in all and since the last clear. */
    ghost var history: seq<T>
    ghost var recent: seq<T>

    function ShapeOf(): Shape
      reads this
    {
      Shape(i, n, f)
    }

    /** The elements, oldest first. */
    ghost function Contents(): (r: seq<T>)
      requires ShapeOf().Valid() && d.Length == n
      reads this, d
    {
      Ring(d[..], ShapeOf())
    }

    /** The buffer reads as the last `n` pushes since it was cleared, and every element ever
        pushed has been destroyed, in order, or is in the buffer. */
    ghost predicate Valid()
      reads this, d
    {
      && d.Length == n && ShapeOf().Valid()
      && Contents() == LastOf(recent, n)
      && (f <==> n > 0 && |recent| >= n)
      && history == destroyed + Contents()
    }

    constructor (n: nat, blank: T)
      ensures Valid() && this.n == n && fresh(d) && history == [] && recent == [] && destroyed == []
    {
      i, f := 0, false;
      this.n := n;
      d := new T[n](_ => blank);
      history, recent, destroyed := [], [], [];
    }

    /** Overwrites the oldest element once the buffer is full. A buffer of capacity 0 has no
        slot to write. */
    method PushBack(p: T)
      requires Valid() && n > 0
      modifies this, d
      ensures Valid() && history == old(history) + [p] && recent == old(recent) + [p]
      ensures Contents() == (if |old(Contents())| == n then old(Contents())[1..] else old(Contents())) + [p]
      ensures destroyed == old(destroyed) + if old(f) then [old(Contents())[0]] else []
    {
      RingPush(d[..], ShapeOf(), p);
      LastOfLonger(recent, p, n);
      HistoryGrows(destroyed, Contents(), p, if f then [Contents()[0]] else [], LastOf(Contents() + [p], n));
      if f {
        destroyed := destroyed + [d[i]];
      }
      Store(p);
      history := history + [p];
      recent := recent + [p];
    }

    /** Writes the slot and moves on. */
    method Store(p: T)
      requires d.Length == n > 0 && ShapeOf().Valid()
      modifies this`i, this`f, d
      ensures d[..] == old(d[..])[old(i) := p] && ShapeOf() == Pushed(old(ShapeOf()))
    {
      d[i] := p;
      i := i + 1;
      if i == n {
        i := 0;
        f := true;
      }
    }

    static lemma HistoryGrows(destroyed: seq<T>, before: seq<T>, p: T, gone: seq<T>, after: seq<T>)
      requires before + [p] == gone + after
      ensures destroyed + before + [p] == destroyed + gone + after
    {
      assert destroyed + before + [p] == destroyed + (before + [p]);
    }

    /** `utringbuffer_eltptr`, followed by reading the element. */
    method Elt(j: int) returns (e: Option<T>)
      requires Valid()
      ensures e == if 0 <= j < |Contents()| then Some(Contents()[j]) else None
    {
      var slot := ShapeOf().EltPtr(j);
      if slot.None? {
        return None;
      }
      RingAt(d[..], ShapeOf(), j);
      e := Some(d[slot.value]);
    }

    /** Destroys the elements, oldest first. */
    method Clear()
      requires Valid()
      modifies this
      ensures Valid() && Contents() == [] && recent == [] && history == old(history)
      ensures destroyed == old(history)
    {
      var j, len := 0, if f then n else i;
      ghost var all := Contents();
      while j < len
        invariant 0 <= j <= len == |all| && destroyed == old(destroyed) + all[..j]
        invariant d[..] == old(d[..]) && ShapeOf() == old(ShapeOf()) && history == old(history)
      {
        var slot := ShapeOf().EltPtr(j);
        RingAt(d[..], ShapeOf(), j);
        destroyed := destroyed + [d[slot.value]];
        j := j + 1;
      }
      i, f := 0, false;
      recent := [];
    }
  }
}
