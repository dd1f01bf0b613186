/** The bucket array of `uthash.h`: chains linked through `hhNext` and `hhPrev`. */
module HashChains {
  import opened BitMath
  import opened Elements
  import opened HashSpec
  import opened Sequences

  datatype Bucket = Bucket(head: Elem?, count: nat, expandMult: nat)

  /** The chain hanging off `head` is `chain`, linked both ways. */
  ghost predicate Chained(head: Elem?, chain: seq<Elem>)
    reads chain`hhNext, chain`hhPrev
  {
    && head == First(chain)
    && (chain != [] ==> chain[|chain| - 1].hhNext == null && chain[0].hhPrev == null)
    && (forall k :: 0 <= k < |chain| - 1 ==> chain[k].hhNext == chain[k + 1])
    && forall k :: 0 < k < |chain| ==> chain[k].hhPrev == chain[k - 1]
  }

  ghost predicate BucketOk(bucket: Bucket, chain: seq<Elem>)
    reads chain`hhNext, chain`hhPrev
  {
    bucket.count == |chain| && Chained(bucket.head, chain)
  }

  ghost predicate ForwardChain(head: Elem?, chain: seq<Elem>)
    reads chain
  {
    && head == First(chain)
    && (chain != [] ==> chain[|chain| - 1].hhNext == null)
    && forall k {:trigger chain[k].hhNext} :: 0 <= k < |chain| - 1 ==> chain[k].hhNext == chain[k + 1]
  }

  ghost predicate BackLinked(chain: seq<Elem>, n: nat)
    requires n <= |chain|
    reads chain
  {
    forall k {:trigger chain[k].hhPrev} :: 0 <= k < n ==> chain[k].hhPrev == if k > 0 then chain[k - 1] else null
  }

  ghost predicate BucketConsistent(bucket: Bucket, chain: seq<Elem>)
    reads chain
  {
    bucket.count == |chain| && BackLinked(chain, |chain|)
  }

  /** Every bucket holds its chain, and the chain's length as its count. */
  ghost predicate BucketsOk(buckets: array<Bucket>, chains: seq<seq<Elem>>, items: seq<Elem>)
    reads buckets, items`hhNext, items`hhPrev
  {
    && buckets.Length == |chains| && Covered(chains, items)
    && forall b {:trigger BucketOk(buckets[b], chains[b])} :: 0 <= b < |chains| ==> BucketOk(buckets[b], chains[b])
  }

  /** The chains of the other buckets are as they were when no link of their items has changed. */
  twostate lemma OthersKept(chains: seq<seq<Elem>>, new buckets: array<Bucket>, new b: nat, new hash: HashFn)
    requires old(allocated(buckets)) && buckets.Length == |chains| && AtHome(hash, chains) && b < |chains|
    requires forall o {:trigger old(BucketOk(buckets[o], chains[o]))} :: 0 <= o < |chains| ==>
      old(BucketOk(buckets[o], chains[o]))
    requires forall o :: 0 <= o < |chains| && o != b ==> buckets[o] == old(buckets[o])
    requires forall o, k :: 0 <= o < |chains| && 0 <= k < |chains[o]| && Home(hash, chains[o][k].key, |chains|) != b ==>
      chains[o][k].hhNext == old(chains[o][k].hhNext) && chains[o][k].hhPrev == old(chains[o][k].hhPrev)
    ensures forall o {:trigger BucketOk(buckets[o], chains[o])} :: 0 <= o < |chains| && o != b ==>
      BucketOk(buckets[o], chains[o])
  {
    forall o | 0 <= o < |chains| && o != b ensures BucketOk(buckets[o], chains[o]) {
      assert old(BucketOk(buckets[o], chains[o]));
      ChainsApart(hash, chains, o, b);
    }
  }

  /** A bucket brought in step with its new chain, next to others that are in step already. */
  lemma InStep(buckets: array<Bucket>, chains: seq<seq<Elem>>, b: nat, chain: seq<Elem>, items: seq<Elem>)
    requires buckets.Length == |chains| && b < |chains| && Covered(chains, items)
    requires forall o {:trigger BucketOk(buckets[o], chains[o])} :: 0 <= o < |chains| && o != b ==>
      BucketOk(buckets[o], chains[o])
    requires BucketOk(buckets[b], chain) && forall k :: 0 <= k < |chain| ==> chain[k] in items
    ensures BucketsOk(buckets, chains[b := chain], items)
  {
  }

  /** Pushing `e` on the front of a chain, as the add and the expansion both do. */
  method PushFront(buckets: array<Bucket>, b: nat, e: Elem, ghost hash: HashFn,
                   ghost chains: seq<seq<Elem>>, ghost items: seq<Elem>)
    requires BucketsOk(buckets, chains, items) && AtHome(hash, chains) && AllDistinct(chains)
    requires b < |chains| && Home(hash, e.key, |chains|) == b && e !in chains[b] && e in items
    modifies buckets, e`hhNext, e`hhPrev, chains[b]`hhPrev
    ensures BucketsOk(buckets, chains[b := [e] + chains[b]], items)
    ensures forall o :: 0 <= o < buckets.Length && o != b ==> buckets[o] == old(buckets[o])
    ensures buckets[b].count == |chains[b]| + 1 && buckets[b].expandMult == old(buckets[b].expandMult)
  {
    ghost var chain, now := chains[b], [e] + chains[b];
    var bucket := buckets[b];
    assert BucketOk(buckets[b], chain);
    e.hhNext := bucket.head;
    e.hhPrev := null;
    if bucket.head != null {
      assert bucket.head == chain[0] && chain[0] in chain;
      bucket.head.hhPrev := e;
    }
    buckets[b] := bucket.(head := e, count := bucket.count + 1);
    assert Chained(e, now) by {
      assert forall k :: 0 < k < |now| ==> now[k] == chain[k - 1];
      assert forall k :: 0 <= k < |chain| - 1 ==> chain[k].hhNext == chain[k + 1];
    }
    OthersKept(chains, buckets, b, hash);
    InStep(buckets, chains, b, now, items);
  }

  /** `HASH_TO_BKT`: the mask picks the bucket. */
  function ToBucket(hashv: nat, buckets: nat): nat
    requires buckets > 0
  {
    BitAnd(hashv, buckets - 1)
  }

  lemma ToBucketIsHome(hash: HashFn, key: string, k: nat)
    ensures ToBucket(hash(key), Pow2(k)) == Home(hash, key, Pow2(k))
  {
    MaskIsMod(hash(key), k);
    RemainderIsMod(hash(key), Pow2(k));
  }

  /** Walks a chain for the item with the given key. */
  method FindInBucket(head: Elem?, key: string, hashval: nat, ghost hash: HashFn, ghost chain: seq<Elem>)
    returns (out: Elem?)
    requires Chained(head, chain) && hashval == hash(key)
    requires forall k :: 0 <= k < |chain| ==> chain[k].hashv == hash(chain[k].key)
    ensures out == null ==> forall k :: 0 <= k < |chain| ==> chain[k].key != key
    ensures out != null ==> out in chain && out.key == key
  {
    out := head;
    ghost var i := 0;
    while out != null
      invariant 0 <= i <= |chain| && out == if i < |chain| then chain[i] else null
      invariant forall k :: 0 <= k < i ==> chain[k].key != key
      decreases |chain| - i
    {
      if out.hashv == hashval && |out.key| == |key| {
        if out.key == key {
          break;
        }
      }
      out := out.hhNext;
      i := i + 1;
    }
  }

  /** Takes `e`, the item at `k` of its chain, out of its bucket. */
  method DeleteInBucket(buckets: array<Bucket>, b: nat, e: Elem, ghost k: nat, ghost hash: HashFn,
                        ghost chains: seq<seq<Elem>>, ghost items: seq<Elem>)
    requires BucketsOk(buckets, chains, items) && AtHome(hash, chains) && AllDistinct(chains)
    requires b < |chains| && k < |chains[b]| && e == chains[b][k]
    modifies buckets, chains[b]`hhNext, chains[b]`hhPrev
    ensures BucketsOk(buckets, chains[b := RemoveAt(chains[b], k)], items)
    ensures forall o :: 0 <= o < buckets.Length && o != b ==> buckets[o] == old(buckets[o])
    ensures buckets[b].count == |chains[b]| - 1 && buckets[b].expandMult == old(buckets[b].expandMult)
  {
    ghost var chain := chains[b];
    assert BucketOk(buckets[b], chain);
    var bucket := buckets[b].(count := buckets[b].count - 1);
    if bucket.head == e {
      bucket := bucket.(head := e.hhNext);
    }
    Unchain(e, k, chain);
    buckets[b] := bucket;
    OthersKept(chains, buckets, b, hash);
    InStep(buckets, chains, b, RemoveAt(chain, k), items);
  }

  /** The neighbours of `e` in its chain are linked to each other. */
  method Unchain(e: Elem, ghost k: nat, ghost chain: seq<Elem>)
    requires Chained(First(chain), chain) && Distinct(chain) && k < |chain| && e == chain[k]
    modifies chain`hhNext, chain`hhPrev
    ensures Chained(First(RemoveAt(chain, k)), RemoveAt(chain, k)) && e.hhNext == old(e.hhNext)
  {
    if e.hhPrev != null {
      assert e.hhPrev == chain[k - 1];
      e.hhPrev.hhNext := e.hhNext;
    }
    if e.hhNext != null {
      assert e.hhNext == chain[k + 1];
      e.hhNext.hhPrev := e.hhPrev;
    }
    Unlinked(chain, k, RemoveAt(chain, k));
  }

  lemma Unlinked(chain: seq<Elem>, k: nat, now: seq<Elem>)
    requires k < |chain| && now == RemoveAt(chain, k)
    ensures forall j :: 0 <= j < |now| ==> now[j] == chain[if j < k then j else j + 1]
  {
  }

  // ----- expansion -----

  ghost predicate MultOk(bucket: Bucket, chain: seq<Elem>, ideal: nat) {
    bucket.expandMult == MultAfter(|chain|, ideal)
  }

  /** The multipliers and the count of nonideal items, as they stand for `chains`. */
  ghost predicate CountersOk(buckets: seq<Bucket>, chains: seq<seq<Elem>>, ideal: nat, nonideal: nat) {
    && |buckets| == |chains|
    && (forall b {:trigger MultOk(buckets[b], chains[b], ideal)} :: 0 <= b < |chains| ==> MultOk(buckets[b], chains[b], ideal))
    && nonideal == TotalOver(chains, ideal, |chains|)
  }

  /** The bucket is due for an expansion. */
  predicate Due(bucket: Bucket) {
    AtThreshold(bucket.count, bucket.expandMult)
  }

  /** When an expansion ends with an ideal chain length below the threshold, no bucket of the new
      table is due for another one. */
  lemma NoneDueAfterExpansion(buckets: seq<Bucket>, chains: seq<seq<Elem>>, ideal: nat, nonideal: nat)
    requires CountersOk(buckets, chains, ideal, nonideal) && 0 < ideal < HASH_BKT_CAPACITY_THRESH
    requires forall b :: 0 <= b < |chains| ==> buckets[b].count == |chains[b]|
    ensures forall b :: 0 <= b < |buckets| ==> !Due(buckets[b])
  {
    forall b | 0 <= b < |buckets| ensures !Due(buckets[b]) {
      assert MultOk(buckets[b], chains[b], ideal);
      CountSettles(|chains[b]|, ideal);
    }
  }

  ghost predicate HashvOk(hash: HashFn, items: seq<Elem>)
    reads items`hashv
  {
    forall k :: 0 <= k < |items| ==> items[k].hashv == hash(items[k].key)
  }

  /** The items of a chain from `k` on are still linked forwards. */
  ghost predicate ForwardFrom(chain: seq<Elem>, k: nat)
    reads chain
  {
    forall j :: k <= j < |chain| ==> chain[j].hhNext == if j + 1 < |chain| then chain[j + 1] else null
  }

  /** What the expansion has yet to read: chain `i` from `k` on, and all later chains. */
  ghost predicate Unmoved(chains: seq<seq<Elem>>, i: nat, k: nat, items: seq<Elem>)
    reads items
  {
    && Covered(chains, items)
    && forall o :: i <= o < |chains| ==> ForwardFrom(chains[o], if o == i then k else 0)
  }

  /** One item of an old chain goes to the front of its new one; `nonideal` and the new
      bucket's multiplier are brought up to date. */
  method MoveItem(buckets: array<Bucket>, e: Elem, ideal: nat, nonideal0: nat, ghost log2: nat,
                  ghost hash: HashFn, ghost chains: seq<seq<Elem>>, ghost items: seq<Elem>)
    returns (nonideal: nat)
    requires BucketsOk(buckets, chains, items) && AtHome(hash, chains) && AllDistinct(chains)
    requires |chains| == Pow2(log2) && e in items && e.hashv == hash(e.key)
    requires e !in chains[Home(hash, e.key, |chains|)]
    requires CountersOk(buckets[..], chains, ideal, nonideal0)
    modifies buckets, e`hhNext, e`hhPrev, chains[Home(hash, e.key, |chains|)]`hhPrev
    ensures var b := Home(hash, e.key, |chains|);
      var now := chains[b := [e] + chains[b]];
      BucketsOk(buckets, now, items) && CountersOk(buckets[..], now, ideal, nonideal)
  {
    ToBucketIsHome(hash, e.key, log2);
    var b := ToBucket(e.hashv, buckets.Length);
    nonideal := nonideal0;
    assert BucketOk(buckets[b], chains[b]);
    ghost var before := buckets[..];
    assert MultOk(before[b], chains[b], ideal);
    TimesIsProduct(buckets[b].expandMult, ideal);
    if buckets[b].count + 1 > ideal {
      nonideal := nonideal + 1;
      if buckets[b].count + 1 > buckets[b].expandMult * ideal {
        buckets[b] := buckets[b].(expandMult := buckets[b].expandMult + 1);
      }
    }
    assert buckets[..] == before[b := buckets[b]];
    StillOk(buckets, before, b, chains, items);
    PushFront(buckets, b, e, hash, chains, items);
    CountersAfterPush(before, buckets[..], chains, b, e, ideal, nonideal0, nonideal);
  }

  /** Only the multiplier of one bucket has changed. */
  lemma StillOk(buckets: array<Bucket>, before: seq<Bucket>, b: nat, chains: seq<seq<Elem>>, items: seq<Elem>)
    requires b < |before| == |chains| == buckets.Length && Covered(chains, items)
    requires forall o :: 0 <= o < |chains| ==> BucketOk(before[o], chains[o])
    requires buckets[..] == before[b := buckets[..][b].(head := before[b].head, count := before[b].count)]
    ensures BucketsOk(buckets, chains, items)
  {
    forall o | 0 <= o < |chains| ensures BucketOk(buckets[o], chains[o]) {
      assert buckets[o] == buckets[..][o];
      assert BucketOk(before[o], chains[o]);
    }
  }

  lemma CountersAfterPush(before: seq<Bucket>, after: seq<Bucket>, chains: seq<seq<Elem>>, b: nat, e: Elem,
                          ideal: nat, nonideal0: nat, nonideal: nat)
    requires CountersOk(before, chains, ideal, nonideal0) && b < |chains| == |after|
    requires forall o :: 0 <= o < |chains| && o != b ==> after[o] == before[o]
    requires nonideal == if |chains[b]| + 1 > ideal then nonideal0 + 1 else nonideal0
    requires after[b].expandMult == MultAfter(|chains[b]| + 1, ideal)
    ensures CountersOk(after, chains[b := [e] + chains[b]], ideal, nonideal)
  {
    ghost var now := chains[b := [e] + chains[b]];
    TotalOverUpdate(chains, ideal, |chains|, b, [e] + chains[b]);
    forall o | 0 <= o < |now| ensures MultOk(after[o], now[o], ideal) {
      assert o != b ==> MultOk(before[o], chains[o], ideal);
    }
  }

  /** The state of an expansion that has moved the old chains before `i` and `k` items of `i`. */
  ghost predicate Expanding(hash: HashFn, log2: nat, chains: seq<seq<Elem>>, items: seq<Elem>, i: nat, k: nat,
                            buckets: array<Bucket>, grown: seq<seq<Elem>>, ideal: nat, nonideal: nat)
    reads buckets, items
  {
    && Fed(hash, chains, grown, i, k) && |grown| == Pow2(log2)
    && BucketsOk(buckets, grown, items) && CountersOk(buckets[..], grown, ideal, nonideal)
    && AtHome(hash, chains) && AllDistinct(chains)
    && Unmoved(chains, i, k, items) && HashvOk(hash, items)
  }

  /** Moves the item at `k` of old chain `i`. */
  method MoveNext(buckets: array<Bucket>, e: Elem, ideal: nat, nonideal0: nat, ghost log2: nat, ghost hash: HashFn,
                  ghost chains: seq<seq<Elem>>, ghost items: seq<Elem>, ghost i: nat, ghost k: nat,
                  ghost grown0: seq<seq<Elem>>)
    returns (nonideal: nat, ghost grown: seq<seq<Elem>>)
    requires Expanding(hash, log2, chains, items, i, k, buckets, grown0, ideal, nonideal0)
    requires i < |chains| && k < |chains[i]| && e == chains[i][k]
    modifies buckets, items`hhNext, items`hhPrev
    ensures Expanding(hash, log2, chains, items, i, k + 1, buckets, grown, ideal, nonideal)
  {
    ghost var b := Home(hash, e.key, |grown0|);
    FedTidy(hash, chains, grown0, i, k);
    FedStep(hash, chains, grown0, i, k);
    NotYetMoved(hash, chains, grown0, i, k, b);
    grown := grown0[b := [e] + grown0[b]];
    assert Covered(chains, items);
    nonideal := MoveItem(buckets, e, ideal, nonideal0, log2, hash, grown0, items);
    forall o | i <= o < |chains| ensures ForwardFrom(chains[o], if o == i then k + 1 else 0) {
      assert old(ForwardFrom(chains[o], if o == i then k else 0));
      if o != i { ChainsApart(hash, chains, o, i); }
    }
  }

  /** Moves all of old chain `i`, reading each successor before its item is relinked. */
  method MoveChain(buckets: array<Bucket>, head: Elem?, ideal: nat, nonideal0: nat, ghost log2: nat,
                   ghost hash: HashFn, ghost chains: seq<seq<Elem>>, ghost items: seq<Elem>, ghost i: nat,
                   ghost grown0: seq<seq<Elem>>)
    returns (nonideal: nat, ghost grown: seq<seq<Elem>>)
    requires Expanding(hash, log2, chains, items, i, 0, buckets, grown0, ideal, nonideal0)
    requires i < |chains| && head == First(chains[i])
    modifies buckets, items`hhNext, items`hhPrev
    ensures Expanding(hash, log2, chains, items, i + 1, 0, buckets, grown, ideal, nonideal)
  {
    nonideal, grown := nonideal0, grown0;
    var thh := head;
    ghost var k: nat := 0;
    while thh != null
      invariant k <= |chains[i]| && thh == if k < |chains[i]| then chains[i][k] else null
      invariant Expanding(hash, log2, chains, items, i, k, buckets, grown, ideal, nonideal)
      decreases |chains[i]| - k
    {
      NextInChain(hash, log2, chains, items, i, k, buckets, grown, ideal, nonideal);
      var nxt := thh.hhNext;
      nonideal, grown := MoveNext(buckets, thh, ideal, nonideal, log2, hash, chains, items, i, k, grown);
      thh := nxt;
      k := k + 1;
    }
    NextChain(hash, log2, chains, items, i, buckets, grown, ideal, nonideal);
  }

  lemma NextInChain(hash: HashFn, log2: nat, chains: seq<seq<Elem>>, items: seq<Elem>, i: nat, k: nat,
                    buckets: array<Bucket>, grown: seq<seq<Elem>>, ideal: nat, nonideal: nat)
    requires i < |chains| && k < |chains[i]|
    requires Expanding(hash, log2, chains, items, i, k, buckets, grown, ideal, nonideal)
    ensures chains[i][k].hhNext == if k + 1 < |chains[i]| then chains[i][k + 1] else null
  {
    assert ForwardFrom(chains[i], k);
  }

  lemma NextChain(hash: HashFn, log2: nat, chains: seq<seq<Elem>>, items: seq<Elem>, i: nat,
                  buckets: array<Bucket>, grown: seq<seq<Elem>>, ideal: nat, nonideal: nat)
    requires i < |chains|
    requires Expanding(hash, log2, chains, items, i, |chains[i]|, buckets, grown, ideal, nonideal)
    ensures Expanding(hash, log2, chains, items, i + 1, 0, buckets, grown, ideal, nonideal)
  {
    FedNext(hash, chains, grown, i);
  }

  lemma StartExpanding(hash: HashFn, log2: nat, chains: seq<seq<Elem>>, items: seq<Elem>, oldBuckets: array<Bucket>,
                       buckets: array<Bucket>, grown: seq<seq<Elem>>, ideal: nat)
    requires BucketsOk(oldBuckets, chains, items) && AtHome(hash, chains) && AllDistinct(chains)
    requires HashvOk(hash, items) && |chains| == Pow2(log2)
    requires |grown| == 2 * |chains| == buckets.Length && forall b :: 0 <= b < |grown| ==> grown[b] == []
    requires forall b :: 0 <= b < buckets.Length ==> buckets[b] == Bucket(null, 0, 0)
    ensures Expanding(hash, log2 + 1, chains, items, 0, 0, buckets, grown, ideal, 0)
  {
    FedStart(hash, chains, grown);
    TotalOverEmpty(grown, ideal, |grown|);
    forall o | 0 <= o < |chains| ensures ForwardFrom(chains[o], 0) {
      assert BucketOk(oldBuckets[o], chains[o]);
    }
  }

  /** The bucket heads are the first items of the chains. */
  ghost predicate HeadsAre(buckets: seq<Bucket>, chains: seq<seq<Elem>>) {
    |buckets| == |chains| && forall b :: 0 <= b < |chains| ==> buckets[b].head == First(chains[b])
  }

  lemma HeadsOf(buckets: array<Bucket>, chains: seq<seq<Elem>>, items: seq<Elem>)
    requires BucketsOk(buckets, chains, items)
    ensures HeadsAre(buckets[..], chains)
  {
    assert forall b :: 0 <= b < |chains| ==> BucketOk(buckets[b], chains[b]);
  }

  method MoveAll(buckets: array<Bucket>, newBuckets: array<Bucket>, ideal: nat, ghost log2: nat, ghost hash: HashFn,
                 ghost chains: seq<seq<Elem>>, ghost items: seq<Elem>, ghost grown0: seq<seq<Elem>>)
    returns (nonideal: nat, ghost grown: seq<seq<Elem>>)
    requires HeadsAre(buckets[..], chains) && buckets != newBuckets
    requires Expanding(hash, log2, chains, items, 0, 0, newBuckets, grown0, ideal, 0)
    modifies newBuckets, items`hhNext, items`hhPrev
    ensures Expanded(hash, chains, items, newBuckets, grown, ideal, nonideal)
  {
    ghost var heads := buckets[..];
    nonideal, grown := 0, grown0;
    var bkt: nat := 0;
    while bkt < buckets.Length
      invariant bkt <= buckets.Length && buckets[..] == heads
      invariant Expanding(hash, log2, chains, items, bkt, 0, newBuckets, grown, ideal, nonideal)
    {
      assert buckets[bkt] == heads[bkt];
      nonideal, grown := MoveChain(newBuckets, buckets[bkt].head, ideal, nonideal, log2, hash, chains, items, bkt, grown);
      bkt := bkt + 1;
    }
    DoneExpanding(hash, log2, chains, items, newBuckets, grown, ideal, nonideal);
  }

  lemma DoneExpanding(hash: HashFn, log2: nat, chains: seq<seq<Elem>>, items: seq<Elem>,
                      buckets: array<Bucket>, grown: seq<seq<Elem>>, ideal: nat, nonideal: nat)
    requires Expanding(hash, log2, chains, items, |chains|, 0, buckets, grown, ideal, nonideal)
    ensures Expanded(hash, chains, items, buckets, grown, ideal, nonideal)
  {
    FedEnd(hash, chains, grown);
  }

  /** The outcome of an expansion: the chains are redistributed, the new buckets hold them,
      and multipliers and the count of nonideal items match. */
  ghost predicate Expanded(hash: HashFn, chains: seq<seq<Elem>>, items: seq<Elem>, buckets: array<Bucket>,
                           grown: seq<seq<Elem>>, ideal: nat, nonideal: nat)
    reads buckets, items
  {
    && Doubled(hash, chains, grown)
    && BucketsOk(buckets, grown, items)
    && CountersOk(buckets[..], grown, ideal, nonideal)
  }

  /** `HASH_EXPAND_BUCKETS`: twice the buckets, every item moved to its new one. */
  method ExpandBuckets(buckets: array<Bucket>, numItems: nat, log2: nat, ghost hash: HashFn,
                       ghost chains: seq<seq<Elem>>, ghost items: seq<Elem>)
    returns (newBuckets: array<Bucket>, ideal: nat, nonideal: nat, ghost grown: seq<seq<Elem>>)
    requires BucketsOk(buckets, chains, items) && AtHome(hash, chains) && AllDistinct(chains)
    requires HashvOk(hash, items) && |chains| == Pow2(log2) && numItems > 0
    modifies items`hhNext, items`hhPrev
    ensures fresh(newBuckets)
    ensures Expanded(hash, chains, items, newBuckets, grown, ideal, nonideal)
    ensures ideal == Ceiling(numItems, 2 * |chains|)
  {
    newBuckets := new Bucket[2 * buckets.Length](_ => Bucket(null, 0, 0));
    ideal := ShiftRight(numItems, log2 + 1)
           + if BitAnd(numItems, buckets.Length * 2 - 1) != 0 then 1 else 0;
    ShiftAndMaskIsCeiling(numItems, log2 + 1);
    grown := seq(2 * |chains|, _ => []);
    StartExpanding(hash, log2, chains, items, buckets, newBuckets, grown, ideal);
    HeadsOf(buckets, chains, items);
    nonideal, grown := MoveAll(buckets, newBuckets, ideal, log2 + 1, hash, chains, items, grown);
  }
}
