/** What the hash table of `uthash.h` is, without its pointers: items in application order,
    split into one chain per bucket, and what doubling the buckets does to the chains. */
module HashSpec {
  import opened BitMath
  import opened Elements
  import opened Sequences

  type HashFn = string -> nat

  /** The bucket of a key among `n` buckets. */
  function Home(hash: HashFn, key: string, n: nat): (b: nat)
    requires n > 0
    ensures b < n
  {
    Remainder(hash(key), n)
  }

  lemma HomeIsMod(hash: HashFn, key: string, n: nat)
    requires n > 0
    ensures Home(hash, key, n) == hash(key) % n
  {
    RemainderIsMod(hash(key), n);
  }

  /** Every item is in the chain of its own bucket, and nothing else is in any chain. */
  ghost predicate Partitioned(hash: HashFn, items: seq<Elem>, chains: seq<seq<Elem>>) {
    && |chains| > 0
    && AllHoused(hash, items, chains)
    && NoStrays(hash, items, chains)
    && AllDistinct(chains)
  }

  ghost predicate AllDistinct(chains: seq<seq<Elem>>) {
    forall b :: 0 <= b < |chains| ==> Distinct(chains[b])
  }

  ghost predicate AllHoused(hash: HashFn, items: seq<Elem>, chains: seq<seq<Elem>>)
    requires |chains| > 0
  {
    forall e {:trigger Home(hash, e.key, |chains|)} :: e in items ==> e in chains[Home(hash, e.key, |chains|)]
  }

  ghost predicate NoStrays(hash: HashFn, items: seq<Elem>, chains: seq<seq<Elem>>)
    requires |chains| > 0
  {
    forall b, e :: 0 <= b < |chains| && e in chains[b] ==> e in items && Home(hash, e.key, |chains|) == b
  }

  ghost predicate UniqueKeys(items: seq<Elem>) {
    forall i, j :: 0 <= i < j < |items| ==> items[i].key != items[j].key
  }

  /** Every chained element is in the chain of its own bucket. */
  ghost predicate AtHome(hash: HashFn, chains: seq<seq<Elem>>) {
    |chains| > 0 && forall b, e :: 0 <= b < |chains| && e in chains[b] ==> Home(hash, e.key, |chains|) == b
  }

  /** Chains of different buckets share nothing. */
  lemma ChainsApart(hash: HashFn, chains: seq<seq<Elem>>, o: nat, b: nat)
    requires AtHome(hash, chains) && o < |chains| && b < |chains| && o != b
    ensures forall k :: 0 <= k < |chains[o]| ==> chains[o][k] !in chains[b] && Home(hash, chains[o][k].key, |chains|) == o
  {
    forall k | 0 <= k < |chains[o]|
      ensures chains[o][k] !in chains[b] && Home(hash, chains[o][k].key, |chains|) == o
    {
      HomeOf(hash, chains, o, chains[o][k]);
      HomeOf(hash, chains, b, chains[o][k]);
    }
  }

  lemma HomeOf(hash: HashFn, chains: seq<seq<Elem>>, b: nat, e: Elem)
    requires AtHome(hash, chains) && b < |chains|
    ensures e in chains[b] ==> Home(hash, e.key, |chains|) == b
  {
  }

  /** Everything in the chains is among `items`. */
  ghost predicate Covered(chains: seq<seq<Elem>>, items: seq<Elem>) {
    forall b, k :: 0 <= b < |chains| && 0 <= k < |chains[b]| ==> chains[b][k] in items
  }

  lemma RemoveAtMembers(s: seq<Elem>, k: nat, e: Elem)
    requires Distinct(s) && k < |s|
    ensures e in RemoveAt(s, k) <==> e in s && e != s[k]
  {
    if e in s {
      var i :| 0 <= i < |s| && s[i] == e;
      if i < k { assert RemoveAt(s, k)[i] == e; }
      if i > k { assert RemoveAt(s, k)[i - 1] == e; }
    }
  }

  /** A new item pushed on the front of its bucket's chain. */
  lemma PartitionAfterAdd(hash: HashFn, items: seq<Elem>, after: seq<Elem>, chains: seq<seq<Elem>>, e: Elem)
    requires Partitioned(hash, items, chains) && e !in items
    requires forall x :: x in after <==> x in items || x == e
    ensures var b := Home(hash, e.key, |chains|);
      e !in chains[b] && Partitioned(hash, after, chains[b := [e] + chains[b]])
  {
  }

  /** An item taken out of its bucket's chain. */
  lemma PartitionAfterDelete(hash: HashFn, items: seq<Elem>, after: seq<Elem>, chains: seq<seq<Elem>>, b: nat, k: nat)
    requires Partitioned(hash, items, chains) && b < |chains| && k < |chains[b]|
    requires forall x :: x in after <==> x in items && x != chains[b][k]
    ensures Partitioned(hash, after, chains[b := RemoveAt(chains[b], k)])
  {
    var now := chains[b := RemoveAt(chains[b], k)];
    assert Distinct(RemoveAt(chains[b], k));
    assert chains[b][k] in chains[b];
    forall x | x in after ensures x in now[Home(hash, x.key, |now|)] {
      RemoveAtMembers(chains[b], k, x);
    }
    forall o, x | 0 <= o < |now| && x in now[o] ensures x in after && Home(hash, x.key, |now|) == o {
      RemoveAtMembers(chains[b], k, x);
      HomeOf(hash, chains, o, x);
      HomeOf(hash, chains, b, chains[b][k]);
    }
  }

  // ----- counting -----

  /** How far a chain of `count` items exceeds the ideal length. */
  function Over(count: nat, ideal: nat): nat {
    if count > ideal then count - ideal else 0
  }

  /** The items of the first `n` chains that lie beyond the ideal length; all of them for 0. */
  function TotalOver(chains: seq<seq<Elem>>, ideal: nat, n: nat): nat
    requires n <= |chains|
  {
    if n == 0 then 0 else TotalOver(chains, ideal, n - 1) + Over(|chains[n - 1]|, ideal)
  }

  lemma {:induction false} TotalOverUpdate(chains: seq<seq<Elem>>, ideal: nat, n: nat, b: nat, c: seq<Elem>)
    requires n <= |chains| && b < |chains|
    ensures TotalOver(chains[b := c], ideal, n)
         == TotalOver(chains, ideal, n) + if b < n then Over(|c|, ideal) - Over(|chains[b]|, ideal) else 0
  {
    if n > 0 { TotalOverUpdate(chains, ideal, n - 1, b, c); }
  }

  lemma {:induction false} TotalOverEmpty(chains: seq<seq<Elem>>, ideal: nat, n: nat)
    requires n <= |chains| && forall b :: 0 <= b < n ==> chains[b] == []
    ensures TotalOver(chains, ideal, n) == 0
  {
    if n > 0 { TotalOverEmpty(chains, ideal, n - 1); }
  }

  /** The places in the first `n` chains that lie beyond the ideal length. */
  ghost function PlacesBeyond(chains: seq<seq<Elem>>, ideal: nat, n: nat): set<(nat, nat)>
    requires n <= |chains|
  {
    set b, j | 0 <= b < n && ideal <= j < |chains[b]| :: (b, j)
  }

  ghost function RowBeyond(b: nat, ideal: nat, count: nat): set<(nat, nat)> {
    set j | ideal <= j < count :: (b, j)
  }

  lemma {:induction false} RowSize(b: nat, ideal: nat, count: nat)
    ensures |RowBeyond(b, ideal, count)| == Over(count, ideal)
    decreases count
  {
    if count > ideal {
      RowSize(b, ideal, count - 1);
      assert RowBeyond(b, ideal, count) == RowBeyond(b, ideal, count - 1) + {(b, count - 1)};
    } else {
      assert RowBeyond(b, ideal, count) == {};
    }
  }

  /** The sum over the chains counts those places. */
  lemma {:induction false} TotalOverCounts(chains: seq<seq<Elem>>, ideal: nat, n: nat)
    requires n <= |chains|
    ensures TotalOver(chains, ideal, n) == |PlacesBeyond(chains, ideal, n)|
  {
    if n == 0 {
      assert PlacesBeyond(chains, ideal, n) == {};
    } else {
      TotalOverCounts(chains, ideal, n - 1);
      RowSize(n - 1, ideal, |chains[n - 1]|);
      assert PlacesBeyond(chains, ideal, n)
          == PlacesBeyond(chains, ideal, n - 1) + RowBeyond(n - 1, ideal, |chains[n - 1]|);
    }
  }

  ghost function Elems(s: seq<Elem>): set<Elem> {
    set e | e in s
  }

  ghost function Members(chains: seq<seq<Elem>>, n: nat): set<Elem>
    requires n <= |chains|
  {
    if n == 0 then {} else Members(chains, n - 1) + Elems(chains[n - 1])
  }

  lemma {:induction false} InMembers(chains: seq<seq<Elem>>, n: nat, e: Elem)
    requires n <= |chains|
    ensures e in Members(chains, n) <==> exists b :: 0 <= b < n && e in chains[b]
  {
    if n > 0 { InMembers(chains, n - 1, e); }
  }

  lemma {:induction false} DistinctSize(s: seq<Elem>)
    requires Distinct(s)
    ensures |Elems(s)| == |s|
  {
    if s != [] {
      var n := |s| - 1;
      DistinctSize(s[..n]);
      assert Elems(s) == Elems(s[..n]) + {s[n]};
    }
  }

  lemma DisjointSize(a: set<Elem>, b: set<Elem>)
    requires a !! b
    ensures |a + b| == |a| + |b|
  {
  }

  lemma MemberHome(hash: HashFn, items: seq<Elem>, chains: seq<seq<Elem>>, n: nat, e: Elem)
    requires Partitioned(hash, items, chains) && n <= |chains|
    ensures e in Members(chains, n) <==> e in items && Home(hash, e.key, |chains|) < n
  {
    InMembers(chains, n, e);
    if e in items {
      var b := Home(hash, e.key, |chains|);
      assert e in chains[b];
    }
  }

  lemma ChainIsNew(hash: HashFn, items: seq<Elem>, chains: seq<seq<Elem>>, n: nat)
    requires Partitioned(hash, items, chains) && n < |chains|
    ensures Members(chains, n) !! Elems(chains[n])
  {
    forall e | e in Members(chains, n) ensures e !in chains[n] {
      MemberHome(hash, items, chains, n, e);
    }
  }

  lemma {:induction false} MembersSize(hash: HashFn, items: seq<Elem>, chains: seq<seq<Elem>>, n: nat)
    requires Partitioned(hash, items, chains) && n <= |chains|
    ensures |Members(chains, n)| == TotalOver(chains, 0, n)
  {
    if n > 0 {
      MembersSize(hash, items, chains, n - 1);
      DistinctSize(chains[n - 1]);
      ChainIsNew(hash, items, chains, n - 1);
      DisjointSize(Members(chains, n - 1), Elems(chains[n - 1]));
    }
  }

  lemma {:induction false} MembersAreItems(hash: HashFn, items: seq<Elem>, chains: seq<seq<Elem>>, n: nat)
    requires Partitioned(hash, items, chains) && n <= |chains|
    ensures Members(chains, n) <= Elems(items)
  {
    if n > 0 { MembersAreItems(hash, items, chains, n - 1); }
  }

  lemma AllMembers(hash: HashFn, items: seq<Elem>, chains: seq<seq<Elem>>)
    requires Partitioned(hash, items, chains)
    ensures Members(chains, |chains|) == Elems(items)
  {
    MembersAreItems(hash, items, chains, |chains|);
    forall e | e in items ensures e in Members(chains, |chains|) {
      MemberHome(hash, items, chains, |chains|, e);
    }
  }

  /** The bucket counts add up to the number of items. */
  lemma CountsAddUp(hash: HashFn, items: seq<Elem>, chains: seq<seq<Elem>>)
    requires Partitioned(hash, items, chains) && Distinct(items)
    ensures TotalOver(chains, 0, |chains|) == |items|
  {
    AllMembers(hash, items, chains);
    MembersSize(hash, items, chains, |chains|);
    DistinctSize(items);
  }

  // ----- doubling -----

  /** The items among the first `k` of a chain that belong to bucket `b` of `n`, each pushed
      to the front as it is met. */
  ghost function Scatter(hash: HashFn, chain: seq<Elem>, k: nat, b: nat, n: nat): seq<Elem>
    requires k <= |chain| && n > 0
  {
    if k == 0 then []
    else if Home(hash, chain[k - 1].key, n) == b then [chain[k - 1]] + Scatter(hash, chain, k - 1, b, n)
    else Scatter(hash, chain, k - 1, b, n)
  }

  lemma {:induction false} ScatterMembers(hash: HashFn, chain: seq<Elem>, k: nat, b: nat, n: nat, e: Elem)
    requires k <= |chain| && n > 0
    ensures e in Scatter(hash, chain, k, b, n) <==> e in chain[..k] && Home(hash, e.key, n) == b
  {
    if k > 0 {
      ScatterMembers(hash, chain, k - 1, b, n, e);
      assert chain[..k] == chain[..k - 1] + [chain[k - 1]];
    }
  }

  lemma {:induction false} ScatterDistinct(hash: HashFn, chain: seq<Elem>, k: nat, b: nat, n: nat)
    requires k <= |chain| && n > 0 && Distinct(chain)
    ensures Distinct(Scatter(hash, chain, k, b, n))
  {
    if k > 0 {
      ScatterDistinct(hash, chain, k - 1, b, n);
      ScatterMembers(hash, chain, k - 1, b, n, chain[k - 1]);
    }
  }

  /** Each old bucket `b` feeds the new buckets `b` and `b + n`, and no others. */
  lemma HomeAfterDoubling(hash: HashFn, key: string, n: nat)
    requires n > 0
    ensures Home(hash, key, 2 * n) == Home(hash, key, n) || Home(hash, key, 2 * n) == Home(hash, key, n) + n
  {
    RemainderDoubled(hash(key), n);
  }

  /** The old bucket that feeds new bucket `b`. */
  function OldBucket(b: nat, n: nat): nat {
    if b < n then b else b - n
  }

  /** `grown` is what `HASH_EXPAND_BUCKETS` makes of `chains`. */
  ghost predicate Doubled(hash: HashFn, chains: seq<seq<Elem>>, grown: seq<seq<Elem>>) {
    && |grown| == 2 * |chains| && |chains| > 0
    && forall b {:trigger FedFrom(hash, chains[OldBucket(b, |chains|)], b, |grown|)} :: 0 <= b < |grown| ==>
         grown[b] == FedFrom(hash, chains[OldBucket(b, |chains|)], b, |grown|)
  }

  ghost function FedFrom(hash: HashFn, chain: seq<Elem>, b: nat, n: nat): seq<Elem>
    requires n > 0
  {
    Scatter(hash, chain, |chain|, b, n)
  }

  /** How much of old chain `o` has been moved when chain `i` is being read at `k`. */
  function Moved(o: nat, i: nat, k: nat, length: nat): nat {
    if o < i then length else if o == i then k else 0
  }

  /** The new chains when old chains before `i`, and `k` items of chain `i`, have been moved. */
  ghost predicate Fed(hash: HashFn, chains: seq<seq<Elem>>, grown: seq<seq<Elem>>, i: nat, k: nat) {
    && |chains| > 0 && |grown| == 2 * |chains| && i <= |chains| && (i < |chains| ==> k <= |chains[i]|)
    && forall b :: 0 <= b < |grown| ==> FedChain(hash, chains[OldBucket(b, |chains|)], OldBucket(b, |chains|), i, k, b, |grown|, grown[b])
  }

  ghost predicate FedChain(hash: HashFn, chain: seq<Elem>, o: nat, i: nat, k: nat, b: nat, n: nat, grown: seq<Elem>) {
    n > 0 && Moved(o, i, k, |chain|) <= |chain| && grown == Scatter(hash, chain, Moved(o, i, k, |chain|), b, n)
  }

  lemma FedStart(hash: HashFn, chains: seq<seq<Elem>>, grown: seq<seq<Elem>>)
    requires |chains| > 0 && |grown| == 2 * |chains| && forall b :: 0 <= b < |grown| ==> grown[b] == []
    ensures Fed(hash, chains, grown, 0, 0)
  {
  }

  /** Moving on to the next old chain. */
  lemma FedNext(hash: HashFn, chains: seq<seq<Elem>>, grown: seq<seq<Elem>>, i: nat)
    requires i < |chains| && Fed(hash, chains, grown, i, |chains[i]|)
    ensures Fed(hash, chains, grown, i + 1, 0)
  {
    forall b | 0 <= b < |grown|
      ensures FedChain(hash, chains[OldBucket(b, |chains|)], OldBucket(b, |chains|), i + 1, 0, b, |grown|, grown[b])
    {
      assert FedChain(hash, chains[OldBucket(b, |chains|)], OldBucket(b, |chains|), i, |chains[i]|, b, |grown|, grown[b]);
    }
  }

  lemma FedEnd(hash: HashFn, chains: seq<seq<Elem>>, grown: seq<seq<Elem>>)
    requires Fed(hash, chains, grown, |chains|, 0)
    ensures Doubled(hash, chains, grown)
  {
    forall b | 0 <= b < |grown| ensures grown[b] == FedFrom(hash, chains[OldBucket(b, |chains|)], b, |grown|) {
      assert FedChain(hash, chains[OldBucket(b, |chains|)], OldBucket(b, |chains|), |chains|, 0, b, |grown|, grown[b]);
    }
  }

  /** Moving one item to the front of its new chain. */
  lemma FedStep(hash: HashFn, chains: seq<seq<Elem>>, grown: seq<seq<Elem>>, i: nat, k: nat)
    requires AtHome(hash, chains) && i < |chains| && k < |chains[i]| && Fed(hash, chains, grown, i, k)
    ensures var e := chains[i][k];
      var b := Home(hash, e.key, |grown|);
      OldBucket(b, |chains|) == i && Fed(hash, chains, grown[b := [e] + grown[b]], i, k + 1)
  {
    var e := chains[i][k];
    var b := Home(hash, e.key, |grown|);
    assert e in chains[i];
    HomeOf(hash, chains, i, e);
    HomeAfterDoubling(hash, e.key, |chains|);
    var now := grown[b := [e] + grown[b]];
    forall c | 0 <= c < |now|
      ensures FedChain(hash, chains[OldBucket(c, |chains|)], OldBucket(c, |chains|), i, k + 1, c, |now|, now[c])
    {
      assert FedChain(hash, chains[OldBucket(c, |chains|)], OldBucket(c, |chains|), i, k, c, |grown|, grown[c]);
    }
  }

  /** While items are being moved the new chains are distinct and at home, and hold nothing
      that is still to be moved. */
  lemma FedMembers(hash: HashFn, chains: seq<seq<Elem>>, grown: seq<seq<Elem>>, i: nat, k: nat, b: nat, e: Elem)
    requires Fed(hash, chains, grown, i, k) && b < |grown|
    ensures var o := OldBucket(b, |chains|);
      Moved(o, i, k, |chains[o]|) <= |chains[o]| &&
      (e in grown[b] <==> e in chains[o][..Moved(o, i, k, |chains[o]|)] && Home(hash, e.key, |grown|) == b)
  {
    var o := OldBucket(b, |chains|);
    assert FedChain(hash, chains[o], o, i, k, b, |grown|, grown[b]);
    ScatterMembers(hash, chains[o], Moved(o, i, k, |chains[o]|), b, |grown|, e);
  }

  lemma FedTidy(hash: HashFn, chains: seq<seq<Elem>>, grown: seq<seq<Elem>>, i: nat, k: nat)
    requires Fed(hash, chains, grown, i, k) && AllDistinct(chains)
    ensures AtHome(hash, grown) && AllDistinct(grown)
  {
    forall b, e | 0 <= b < |grown| && e in grown[b] ensures Home(hash, e.key, |grown|) == b {
      FedMembers(hash, chains, grown, i, k, b, e);
    }
    forall b | 0 <= b < |grown| ensures Distinct(grown[b]) {
      var o := OldBucket(b, |chains|);
      assert FedChain(hash, chains[o], o, i, k, b, |grown|, grown[b]);
      ScatterDistinct(hash, chains[o], Moved(o, i, k, |chains[o]|), b, |grown|);
    }
  }

  /** An item not yet moved is in no new chain. */
  lemma NotYetMoved(hash: HashFn, chains: seq<seq<Elem>>, grown: seq<seq<Elem>>, i: nat, k: nat, b: nat)
    requires Fed(hash, chains, grown, i, k) && i < |chains| && k < |chains[i]| && b < |grown|
    requires OldBucket(b, |chains|) == i && Distinct(chains[i])
    ensures chains[i][k] !in grown[b]
  {
    FedMembers(hash, chains, grown, i, k, b, chains[i][k]);
  }

  lemma GrownMembers(hash: HashFn, chains: seq<seq<Elem>>, grown: seq<seq<Elem>>, b: nat, e: Elem)
    requires Doubled(hash, chains, grown) && b < |grown|
    ensures e in grown[b] <==> e in chains[OldBucket(b, |chains|)] && Home(hash, e.key, |grown|) == b
  {
    var chain := chains[OldBucket(b, |chains|)];
    assert grown[b] == FedFrom(hash, chain, b, |grown|);
    ScatterMembers(hash, chain, |chain|, b, |grown|, e);
    assert chain[..|chain|] == chain;
  }

  /** Each new chain has its items in the reverse of the order they had. */
  lemma GrownReversed(hash: HashFn, chains: seq<seq<Elem>>, grown: seq<seq<Elem>>, b: nat, i: nat, j: nat, x: nat, y: nat)
    requires Doubled(hash, chains, grown) && AllDistinct(chains) && b < |grown| && i < j < |grown[b]|
    requires var chain := chains[OldBucket(b, |chains|)];
      x < |chain| && y < |chain| && grown[b][i] == chain[x] && grown[b][j] == chain[y]
    ensures x > y
  {
    var chain := chains[OldBucket(b, |chains|)];
    assert grown[b] == FedFrom(hash, chain, b, |grown|);
    ScatterReverses(hash, chain, |chain|, b, |grown|, i, j, x, y);
  }

  lemma {:induction false} ScatterReverses(hash: HashFn, chain: seq<Elem>, k: nat, b: nat, n: nat,
                                           i: nat, j: nat, x: nat, y: nat)
    requires k <= |chain| && n > 0 && Distinct(chain) && i < j < |Scatter(hash, chain, k, b, n)|
    requires x < |chain| && y < |chain|
    requires Scatter(hash, chain, k, b, n)[i] == chain[x] && Scatter(hash, chain, k, b, n)[j] == chain[y]
    ensures x > y
  {
    if k > 0 {
      var rest := Scatter(hash, chain, k - 1, b, n);
      if Home(hash, chain[k - 1].key, n) != b {
        ScatterReverses(hash, chain, k - 1, b, n, i, j, x, y);
      } else if i > 0 {
        ScatterReverses(hash, chain, k - 1, b, n, i - 1, j - 1, x, y);
      } else {
        assert x == k - 1 && rest[j - 1] in rest;
        ScatterMembers(hash, chain, k - 1, b, n, chain[y]);
      }
    }
  }

  lemma GrownHoused(hash: HashFn, items: seq<Elem>, chains: seq<seq<Elem>>, grown: seq<seq<Elem>>, e: Elem)
    requires Partitioned(hash, items, chains) && Doubled(hash, chains, grown) && e in items
    ensures e in grown[Home(hash, e.key, |grown|)]
  {
    var b := Home(hash, e.key, |grown|);
    HomeAfterDoubling(hash, e.key, |chains|);
    assert OldBucket(b, |chains|) == Home(hash, e.key, |chains|);
    GrownMembers(hash, chains, grown, b, e);
  }

  lemma GrownDistinct(hash: HashFn, chains: seq<seq<Elem>>, grown: seq<seq<Elem>>, b: nat)
    requires Doubled(hash, chains, grown) && b < |grown|
    requires AllDistinct(chains)
    ensures Distinct(grown[b])
  {
    var chain := chains[OldBucket(b, |chains|)];
    assert grown[b] == FedFrom(hash, chain, b, |grown|);
    ScatterDistinct(hash, chain, |chain|, b, |grown|);
  }

  lemma GrownAllHoused(hash: HashFn, items: seq<Elem>, chains: seq<seq<Elem>>, grown: seq<seq<Elem>>)
    requires Partitioned(hash, items, chains) && Doubled(hash, chains, grown)
    ensures AllHoused(hash, items, grown)
  {
    forall e | e in items ensures e in grown[Home(hash, e.key, |grown|)] {
      GrownHoused(hash, items, chains, grown, e);
    }
  }

  lemma GrownNoStrays(hash: HashFn, items: seq<Elem>, chains: seq<seq<Elem>>, grown: seq<seq<Elem>>)
    requires Partitioned(hash, items, chains) && Doubled(hash, chains, grown)
    ensures NoStrays(hash, items, grown)
  {
    forall b, e | 0 <= b < |grown| && e in grown[b]
      ensures e in items && Home(hash, e.key, |grown|) == b
    {
      GrownMembers(hash, chains, grown, b, e);
      assert e in chains[OldBucket(b, |chains|)];
    }
  }

  /** Doubling moves every item to the bucket it now belongs to and loses none. */
  lemma DoublingKeepsPartition(hash: HashFn, items: seq<Elem>, chains: seq<seq<Elem>>, grown: seq<seq<Elem>>)
    requires Partitioned(hash, items, chains) && Doubled(hash, chains, grown)
    ensures Partitioned(hash, items, grown)
  {
    GrownAllHoused(hash, items, chains, grown);
    GrownNoStrays(hash, items, chains, grown);
    forall b | 0 <= b < |grown| ensures Distinct(grown[b]) {
      GrownDistinct(hash, chains, grown, b);
    }
  }

  // ----- the expansion threshold -----

  const HASH_BKT_CAPACITY_THRESH := 10

  predicate AtThreshold(count: nat, mult: nat) {
    count >= (mult + 1) * HASH_BKT_CAPACITY_THRESH
  }

  /** `expand_mult` of a fresh bucket after `count` items have been moved into it. */
  function MultAfter(count: nat, ideal: nat): nat {
    if count <= ideal then 0
    else
      var m := MultAfter(count - 1, ideal);
      if count > Times(m, ideal) then m + 1 else m
  }

  lemma OneMoreOrLess(m: nat, a: nat)
    ensures (m + 1) * a == m * a + a && (m - 1) * a == m * a - a
  {
  }

  lemma {:induction false} MultBounds(count: nat, ideal: nat)
    requires ideal > 0
    ensures MultAfter(count, ideal) == 0 <==> count <= ideal
    ensures count > ideal ==>
      (MultAfter(count, ideal) - 1) * ideal < count <= MultAfter(count, ideal) * ideal + 1
  {
    if count > ideal {
      var m := MultAfter(count - 1, ideal);
      MultBounds(count - 1, ideal);
      TimesIsProduct(m, ideal);
      OneMoreOrLess(m, ideal);
    }
  }

  /** It grows by at most one for each item beyond the ideal length, and lags behind that only when
      it needs to grow no more. */
  lemma {:induction false} MultGrows(count: nat, ideal: nat)
    requires ideal > 0 && count > ideal
    ensures var m := MultAfter(count, ideal); m <= count - ideal && (m == count - ideal || count <= m * ideal)
  {
    if count > ideal + 1 {
      var m := MultAfter(count - 1, ideal);
      MultGrows(count - 1, ideal);
      TimesIsProduct(m, ideal);
      OneMoreOrLess(m, ideal);
    } else {
      assert MultAfter(ideal, ideal) == 0;
    }
  }

  /** So it is one for each item beyond the ideal length, but no more than the ideal lengths it takes
      to make up the count. */
  lemma MultIs(count: nat, ideal: nat)
    requires ideal > 0 && count > ideal
    ensures MultAfter(count, ideal) ==
            if count - ideal < Ceiling(count, ideal) then count - ideal else Ceiling(count, ideal)
  {
    var m, c := MultAfter(count, ideal), Ceiling(count, ideal);
    MultBounds(count, ideal);
    MultGrows(count, ideal);
    CeilingBounds(count, ideal);
    OneMoreOrLess(c, ideal);
    MulOrder(m - 1, c, ideal);
    if count <= m * ideal { MulOrder(c - 1, m, ideal); }
  }

  lemma MulOrder(a: int, b: int, d: nat)
    requires d > 0 && a * d < b * d
    ensures a < b
  {
    if a >= b { MulGrows(d, a - b + 1); }
    assert (a - b + 1) * d == a * d - b * d + d;
  }

  /** Below the threshold of 10, no count reaches what its fresh multiplier allows. */
  lemma CountSettles(count: nat, ideal: nat)
    requires 0 < ideal < HASH_BKT_CAPACITY_THRESH
    ensures !AtThreshold(count, MultAfter(count, ideal))
  {
    var m := MultAfter(count, ideal);
    MultBounds(count, ideal);
    if count > ideal { MulMonotone(m, ideal, 9); }
  }

  function Sum(counts: seq<nat>): nat {
    if counts == [] then 0 else Sum(counts[..|counts| - 1]) + counts[|counts| - 1]
  }

  /** No bucket with one of these counts is due for an expansion right after one. */
  ghost predicate NoneDue(counts: seq<nat>, ideal: nat) {
    forall b :: 0 <= b < |counts| ==> !AtThreshold(counts[b], MultAfter(counts[b], ideal))
  }

  /** A fact about counts, whether or not a table comes to have them: of all the counts for `n`
      buckets with this ideal chain length none makes a bucket, with the multiplier an expansion
      gives it, due for another expansion exactly when the ideal length is below the threshold.
      From the threshold on, even counts make every bucket due. */
  lemma ExpansionSettlesIff(n: nat, ideal: nat)
    requires n > 0 && ideal > 0
    ensures (forall counts :: |counts| == n && Ceiling(Sum(counts), n) == ideal ==> NoneDue(counts, ideal))
       <==> ideal < 10
  {
    if ideal < HASH_BKT_CAPACITY_THRESH {
      forall counts: seq<nat> | |counts| == n && Ceiling(Sum(counts), n) == ideal ensures NoneDue(counts, ideal) {
        forall b | 0 <= b < n ensures !AtThreshold(counts[b], MultAfter(counts[b], ideal)) {
          CountSettles(counts[b], ideal);
        }
      }
    } else {
      var even := Even(n, ideal);
      CeilingFromRemainder(Sum(even), n, ideal, 0);
      assert even[0] == ideal && MultAfter(ideal, ideal) == 0 && AtThreshold(ideal, 0);
      assert !NoneDue(even, ideal);
    }
  }

  function Even(n: nat, each: nat): (counts: seq<nat>)
    ensures |counts| == n && Sum(counts) == n * each && forall b :: 0 <= b < n ==> counts[b] == each
  {
    if n == 0 then []
    else
      var fewer := Even(n - 1, each);
      assert (fewer + [each])[..n - 1] == fewer && n * each == (n - 1) * each + each;
      fewer + [each]
  }

  lemma MulMonotone(m: nat, a: nat, b: nat)
    requires a <= b
    ensures m * a <= m * b
  {
  }
}
