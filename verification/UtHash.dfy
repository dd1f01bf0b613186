/** The hash table of `uthash.h`: every item is at once in the application-ordered list that
    starts at `head` and in the chain of its bucket. The ghost fields `items` and `chains`
    name the two orders; `Valid` is the integrity that `HASH_FSCK` walks the table for. */
module UtHash {
  import opened BitMath
  import opened Elements
  import opened HashChains
  import opened HashSpec
  import opened InOrder
  import opened Links
  import opened ListSort
  import opened Sequences
  import opened Sorting

  const HASH_INITIAL_NUM_BUCKETS := 32
  const HASH_INITIAL_NUM_BUCKETS_LOG2 := 5

  /** The application-ordered list, linked both ways between NULLs. */
  ghost predicate ListOk(head: Elem?, tail: Elem?, items: seq<Elem>)
    reads items`next, items`prev
  {
    && head == First(items) && tail == Last(items)
    && Distinct(items) && NextLinks(items, null) && PrevLinks(items, null)
  }

  /** No item has the key of `e`. */
  ghost predicate NewKey(all: seq<Elem>, e: Elem) {
    forall k :: 0 <= k < |all| ==> all[k].key != e.key
  }

  lemma InsertedMembers(all: seq<Elem>, e: Elem, k: nat)
    requires k <= |all|
    ensures forall x :: x in InsertAt(all, k, e) <==> x in all || x == e
  {
    var after := InsertAt(all, k, e);
    Inserted(all, k, e);
    forall x | x in after ensures x in all || x == e {
      var j :| 0 <= j < |after| && after[j] == x;
      assert x == if j < k then all[j] else if j == k then e else all[j - 1];
    }
    forall x | x in all || x == e ensures x in after {
      if x in all {
        var j :| 0 <= j < |all| && all[j] == x;
        assert after[if j < k then j else j + 1] == x;
      }
    }
  }

  lemma InsertedUnique(all: seq<Elem>, e: Elem, k: nat)
    requires UniqueKeys(all) && NewKey(all, e) && k <= |all|
    ensures UniqueKeys(InsertAt(all, k, e)) && e !in all
  {
    Inserted(all, k, e);
  }

  lemma UniqueDistinct(all: seq<Elem>)
    requires UniqueKeys(all)
    ensures Distinct(all)
  {
  }

  class HashTable {
    const hash: HashFn
    var head: Elem?
    var tail: Elem?
    var buckets: array<Bucket>
    var numBuckets: nat
    var log2NumBuckets: nat
    var numItems: nat
    var idealChainMaxlen: nat
    var nonidealItems: nat
    var ineffExpands: nat
    var noexpand: bool
    ghost var items: seq<Elem>
    ghost var chains: seq<seq<Elem>>

    /** The bucket side of the table holds exactly `all`. */
    ghost predicate Hashed(all: seq<Elem>)
      reads `buckets, `numBuckets, `log2NumBuckets, `numItems, `chains, buckets, all`hashv, all`hhNext, all`hhPrev
    {
      && numBuckets == buckets.Length && numBuckets == Pow2(log2NumBuckets)
      && numItems == |all| && UniqueKeys(all) && HashvOk(hash, all)
      && Partitioned(hash, all, chains) && BucketsOk(buckets, chains, all)
    }

    /** The bound on chain lengths that expansion is there to keep: until expanding has been given
        up, and while the ideal length is below 10, no bucket is due for an expansion. */
    ghost predicate Bounded()
      reads `noexpand, `idealChainMaxlen, `buckets, buckets
    {
      !noexpand && idealChainMaxlen < 10 ==>
        forall b :: 0 <= b < buckets.Length ==> buckets[b].count < 10 * (buckets[b].expandMult + 1)
    }

    ghost predicate Valid()
      reads this, buckets, items
    {
      if head == null then items == [] else ListOk(head, tail, items) && Hashed(items) && Bounded()
    }

    lemma IsValid()
      requires head != null && ListOk(head, tail, items) && Hashed(items) && Bounded()
      ensures Valid()
    {
    }

    constructor (hash: HashFn)
      ensures Valid() && items == [] && this.hash == hash
    {
      this.hash := hash;
      head, tail := null, null;
      buckets := new Bucket[0];
      numBuckets, log2NumBuckets, numItems := 0, 0, 0;
      idealChainMaxlen, nonidealItems, ineffExpands, noexpand := 0, 0, 0, false;
      items, chains := [], [];
    }

    /** The item with the given key, or NULL when there is none. */
    method Find(key: string) returns (out: Elem?)
      requires Valid()
      ensures out == null ==> forall k :: 0 <= k < |items| ==> items[k].key != key
      ensures out != null ==> out in items && out.key == key
    {
      out := null;
      if head != null {
        var hashv := hash(key);
        ToBucketIsHome(hash, key, log2NumBuckets);
        var bkt := ToBucket(hashv, numBuckets);
        ghost var chain := chains[bkt];
        assert BucketOk(buckets[bkt], chain);
        ChainHashv(bkt);
        out := FindInBucket(buckets[bkt].head, key, hashv, hash, chain);
        KeyOnlyInItsChain(key, out);
      }
    }

    lemma ChainHashv(b: nat)
      requires Hashed(items) && b < |chains|
      ensures forall k :: 0 <= k < |chains[b]| ==> chains[b][k].hashv == hash(chains[b][k].key)
    {
      forall k | 0 <= k < |chains[b]| ensures chains[b][k].hashv == hash(chains[b][k].key) {
        assert chains[b][k] in items;
      }
    }

    lemma KeyOnlyInItsChain(key: string, out: Elem?)
      requires Hashed(items)
      requires var chain := chains[Home(hash, key, |chains|)];
        if out == null then forall k :: 0 <= k < |chain| ==> chain[k].key != key else out in chain && out.key == key
      ensures out == null ==> forall k :: 0 <= k < |items| ==> items[k].key != key
      ensures out != null ==> out in items
    {
      if out == null {
        forall k | 0 <= k < |items| ensures items[k].key != key {
          assert items[k] in items;
          assert items[k] in chains[Home(hash, items[k].key, |chains|)];
        }
      }
    }

    // ----- the application-ordered list -----

    /** `HASH_APPEND_LIST` */
    method LinkLast(e: Elem)
      requires items != [] && ListOk(head, tail, items) && e !in items
      modifies this`tail, e`next, e`prev, items`next
      ensures ListOk(head, tail, items + [e])
    {
      ghost var n, all := |items|, items + [e];
      e.next := null;
      e.prev := tail;
      assert tail == items[n - 1] && tail in items;
      tail.next := e;
      tail := e;
      assert forall k :: 0 <= k < n ==> all[k] == items[k];
    }

    /** Links `e` in front of `iter`, the item at `k`. */
    method LinkBefore(e: Elem, iter: Elem, ghost k: nat)
      requires ListOk(head, tail, items) && k < |items| && iter == items[k] && e !in items
      modifies this`head, e`next, e`prev, items`next, items`prev
      ensures ListOk(head, tail, InsertAt(items, k, e))
    {
      e.next := iter;
      e.prev := iter.prev;
      if e.prev != null {
        assert e.prev == items[k - 1] && items[k - 1] in items;
        e.prev.next := e;
      } else {
        head := e;
      }
      iter.prev := e;
      InsertedDistinct(items, k, e);
      InsertedNext(items, k, e);
      InsertedPrev(items, k, e, null);
    }

    /** Takes `e`, the item at `k`, out of a list of at least two. */
    method Unlink(e: Elem, ghost k: nat)
      requires ListOk(head, tail, items) && k < |items| && e == items[k] && |items| > 1
      modifies this`head, this`tail, items`next, items`prev
      ensures head != null && ListOk(head, tail, RemoveAt(items, k))
      ensures e.next == old(e.next) && e.prev == old(e.prev)
    {
      if e == tail {
        tail := e.prev;
      }
      if e.prev != null {
        assert e.prev == items[k - 1] && items[k - 1] in items;
        e.prev.next := e.next;
      } else {
        head := e.next;
      }
      if e.next != null {
        assert e.next == items[k + 1] && items[k + 1] in items;
        e.next.prev := e.prev;
      }
      RemovedDistinct(items, k);
      RemovedNext(items, k);
      RemovedPrev(items, k, null);
    }

    // ----- the buckets -----

    /** After an expansion: the chains are redistributed over twice the buckets, the ideal
        length is the average rounded up, the multipliers and the count of nonideal items match
        the chains, and a second expansion in a row that leaves most items beyond the ideal
        length stops all further ones. */
    twostate predicate HasExpanded(before: seq<seq<Elem>>)
      reads this, buckets
    {
      && Doubled(hash, before, chains)
      && idealChainMaxlen == Ceiling(numItems, |chains|)
      && CountersOk(buckets[..], chains, idealChainMaxlen, nonidealItems)
      && ineffExpands == (if nonidealItems > numItems / 2 then old(ineffExpands) + 1 else 0)
      && noexpand == (old(noexpand) || ineffExpands > 1)
    }

    /** With an ideal chain length below the threshold no bucket is due for an expansion. */
    ghost predicate SettledBelowThreshold()
      reads this, buckets
    {
      idealChainMaxlen < HASH_BKT_CAPACITY_THRESH ==> forall b :: 0 <= b < buckets.Length ==> !Due(buckets[b])
    }

    method Expand(ghost all: seq<Elem>)
      requires Hashed(all) && numItems > 0
      modifies this`buckets, this`numBuckets, this`log2NumBuckets, this`idealChainMaxlen,
        this`nonidealItems, this`ineffExpands, this`noexpand, this`chains, all`hhNext, all`hhPrev
      ensures Hashed(all) && fresh(buckets) && HasExpanded(old(chains)) && SettledBelowThreshold()
      ensures 2 * nonidealItems <= numItems ==> ineffExpands == 0 && noexpand == old(noexpand)
      ensures 2 * nonidealItems > numItems && old(ineffExpands) == 0 ==> ineffExpands == 1 && noexpand == old(noexpand)
      ensures 2 * nonidealItems > numItems && old(ineffExpands) >= 1 ==> ineffExpands > 1 && noexpand
    {
      hide Hashed, Doubled, CountersOk;
      DoubleBuckets(all);
      Settled(all);
      assert ShiftRight(numItems, 1) == ShiftRight(numItems / 2, 0) == numItems / 2;
      ineffExpands := if nonidealItems > ShiftRight(numItems, 1) then ineffExpands + 1 else 0;
      if ineffExpands > 1 {
        noexpand := true;
      }
    }

    /** The redistribution, with the ideal length and the count of items beyond it. */
    method DoubleBuckets(ghost all: seq<Elem>)
      requires Hashed(all) && numItems > 0
      modifies this`buckets, this`numBuckets, this`log2NumBuckets, this`idealChainMaxlen,
        this`nonidealItems, this`chains, all`hhNext, all`hhPrev
      ensures Hashed(all) && fresh(buckets) && Doubled(hash, old(chains), chains)
      ensures idealChainMaxlen == Ceiling(numItems, |chains|)
      ensures CountersOk(buckets[..], chains, idealChainMaxlen, nonidealItems)
    {
      Redistribute(all);
      assert Pow2(log2NumBuckets + 1) == 2 * Pow2(log2NumBuckets);
      numBuckets := numBuckets * 2;
      log2NumBuckets := log2NumBuckets + 1;
    }

    method Redistribute(ghost all: seq<Elem>)
      requires Hashed(all) && numItems > 0
      modifies this`buckets, this`idealChainMaxlen, this`nonidealItems, this`chains, all`hhNext, all`hhPrev
      ensures fresh(buckets) && Doubled(hash, old(chains), chains)
      ensures Partitioned(hash, all, chains) && BucketsOk(buckets, chains, all)
      ensures idealChainMaxlen == Ceiling(numItems, |chains|)
      ensures CountersOk(buckets[..], chains, idealChainMaxlen, nonidealItems)
    {
      ghost var before := chains;
      PartitionedTidy(hash, all, chains);
      assert HashvOk(hash, all) && Partitioned(hash, all, chains) && |chains| == Pow2(log2NumBuckets);
      hide *;
      buckets, idealChainMaxlen, nonidealItems, chains :=
        ExpandBuckets(buckets, numItems, log2NumBuckets, hash, chains, all);
      DoublingKeepsPartition(hash, all, before, chains);
    }

    lemma Settled(all: seq<Elem>)
      requires Hashed(all) && numItems > 0 && idealChainMaxlen == Ceiling(numItems, |chains|)
      requires CountersOk(buckets[..], chains, idealChainMaxlen, nonidealItems)
      ensures SettledBelowThreshold()
    {
      forall b | 0 <= b < |chains| ensures buckets[..][b].count == |chains[b]| {
        assert BucketOk(buckets[b], chains[b]);
      }
      if idealChainMaxlen < HASH_BKT_CAPACITY_THRESH {
        NoneDueAfterExpansion(buckets[..], chains, idealChainMaxlen, nonidealItems);
        forall b | 0 <= b < buckets.Length ensures !Due(buckets[b]) {
          assert buckets[..][b] == buckets[b];
        }
      }
    }

    lemma PartitionedTidy(hash: HashFn, all: seq<Elem>, chains: seq<seq<Elem>>)
      requires Partitioned(hash, all, chains)
      ensures AtHome(hash, chains) && AllDistinct(chains)
    {
    }

    /** Nothing has changed in the buckets but the head and the count of the one `e` belongs to, and
        nothing in what steers the expansions. */
    twostate predicate OnlyCounted(e: Elem)
      requires |chains| > 0 && buckets.Length == old(buckets.Length) == |chains|
      reads this, buckets
    {
      && noexpand == old(noexpand) && ineffExpands == old(ineffExpands)
      && idealChainMaxlen == old(idealChainMaxlen) && nonidealItems == old(nonidealItems)
      && forall b :: 0 <= b < buckets.Length ==>
           if b == Home(hash, e.key, |chains|) then buckets[b].expandMult == old(buckets[b].expandMult)
           else buckets[b] == old(buckets[b])
    }

    /** Counts the new item and pushes it on its bucket's chain. */
    method PushItem(e: Elem, ghost k: nat, ghost after: seq<Elem>) returns (bkt: nat)
      requires Hashed(items) && NewKey(items, e) && e.hashv == hash(e.key)
      requires k <= |items| && after == InsertAt(items, k, e)
      modifies this`numItems, this`chains, buckets, e`hhNext, e`hhPrev, items`hhNext, items`hhPrev
      ensures Hashed(after) && bkt == old(Home(hash, e.key, |chains|))
      ensures chains == old(chains)[bkt := [e] + old(chains)[bkt]] && buckets[bkt].count == |old(chains)[bkt]| + 1
      ensures buckets[bkt].expandMult == old(buckets[Home(hash, e.key, |chains|)].expandMult)
      ensures forall o :: 0 <= o < buckets.Length && o != bkt ==> buckets[o] == old(buckets[o])
    {
      ReadyToPush(e, k, after);
      hide Hashed, HashvOk, UniqueKeys, Partitioned, AtHome, AllDistinct, BucketsOk;
      numItems := numItems + 1;
      bkt := ToBucket(e.hashv, numBuckets);
      PushChain(bkt, e, after);
      IsHashed(after);
    }

    method PushChain(bkt: nat, e: Elem, ghost after: seq<Elem>)
      requires AtHome(hash, chains) && AllDistinct(chains) && BucketsOk(buckets, chains, after) && e in after
      requires bkt == Home(hash, e.key, |chains|) && e !in chains[bkt]
      modifies this`chains, buckets, e`hhNext, e`hhPrev, chains[bkt]`hhPrev
      ensures BucketsOk(buckets, chains, after) && chains == old(chains)[bkt := [e] + old(chains)[bkt]]
      ensures buckets[bkt].count == old(|chains[bkt]|) + 1 && buckets[bkt].expandMult == old(buckets[bkt].expandMult)
      ensures forall o :: 0 <= o < buckets.Length && o != bkt ==> buckets[o] == old(buckets[o])
    {
      PushFront(buckets, bkt, e, hash, chains, after);
      chains := chains[bkt := [e] + chains[bkt]];
    }

    lemma IsHashed(all: seq<Elem>)
      requires numBuckets == buckets.Length && numBuckets == Pow2(log2NumBuckets) && numItems == |all|
      requires UniqueKeys(all) && HashvOk(hash, all) && Partitioned(hash, all, chains) && BucketsOk(buckets, chains, all)
      ensures Hashed(all)
    {
    }

    lemma ReadyToPush(e: Elem, k: nat, after: seq<Elem>)
      requires Hashed(items) && NewKey(items, e) && e.hashv == hash(e.key)
      requires k <= |items| && after == InsertAt(items, k, e)
      ensures numBuckets == buckets.Length && numBuckets == Pow2(log2NumBuckets) && |after| == numItems + 1
      ensures UniqueKeys(after) && HashvOk(hash, after) && e in after
      ensures AtHome(hash, chains) && AllDistinct(chains) && BucketsOk(buckets, chains, after)
      ensures var b := Home(hash, e.key, |chains|);
        && b == ToBucket(e.hashv, numBuckets) && e !in chains[b]
        && (forall j :: 0 <= j < |chains[b]| ==> chains[b][j] in items)
        && Partitioned(hash, after, chains[b := [e] + chains[b]])
    {
      InsertedUnique(items, e, k);
      InsertedMembers(items, e, k);
      HashvInserted(items, e, k);
      PartitionedTidy(hash, items, chains);
      PartitionAfterAdd(hash, items, after, chains, e);
      CoveredMore(chains, items, after);
      ToBucketIsHome(hash, e.key, log2NumBuckets);
    }

    /** `HASH_ADD_TO_TABLE` with `HASH_ADD_TO_BKT`. */
    method AddToTable(e: Elem, ghost k: nat)
      requires Hashed(items) && Bounded() && NewKey(items, e) && k <= |items| && e.hashv == hash(e.key)
      modifies this`numItems, this`buckets, this`numBuckets, this`log2NumBuckets, this`idealChainMaxlen,
        this`nonidealItems, this`ineffExpands, this`noexpand, this`chains, buckets, e`hhNext, e`hhPrev,
        items`hhNext, items`hhPrev
      ensures Hashed(InsertAt(items, k, e)) && Bounded()
      ensures var b := Home(hash, e.key, |old(chains)|);
        var pushed := old(chains)[b := [e] + old(chains)[b]];
        if |pushed[b]| >= 10 * (old(buckets[Home(hash, e.key, |chains|)].expandMult) + 1) && !old(noexpand) then
          fresh(buckets) && HasExpanded(pushed) && SettledBelowThreshold()
        else
          buckets == old(buckets) && chains == pushed && OnlyCounted(e)
    {
      var bkt := PushItem(e, k, InsertAt(items, k, e));
      if buckets[bkt].count >= (buckets[bkt].expandMult + 1) * HASH_BKT_CAPACITY_THRESH && !noexpand {
        Inserted(items, k, e);
        Expand(InsertAt(items, k, e));
      }
    }

    lemma CoveredMore(chains: seq<seq<Elem>>, before: seq<Elem>, after: seq<Elem>)
      requires Covered(chains, before) && forall x :: x in before ==> x in after
      ensures Covered(chains, after)
    {
    }

    // ----- the operations -----

    /** `HASH_MAKE_TABLE`: a table of empty buckets whose list is just `e`. */
    method MakeTable(e: Elem)
      modifies this`tail, this`buckets, this`numBuckets, this`log2NumBuckets, this`numItems, this`idealChainMaxlen,
        this`nonidealItems, this`ineffExpands, this`noexpand, this`chains
      ensures Hashed([]) && Bounded() && fresh(buckets) && tail == e
      ensures numBuckets == 32
      ensures forall b :: 0 <= b < numBuckets ==> buckets[b] == Bucket(null, 0, 0)
      ensures idealChainMaxlen == nonidealItems == ineffExpands == 0 && !noexpand
    {
      ClearTable();
      tail := e;
      numBuckets, log2NumBuckets := HASH_INITIAL_NUM_BUCKETS, HASH_INITIAL_NUM_BUCKETS_LOG2;
      buckets := NewBuckets();
      chains := seq(HASH_INITIAL_NUM_BUCKETS, _ => []);
      EmptyHashed();
    }

    method ClearTable()
      modifies this`numItems, this`idealChainMaxlen, this`nonidealItems, this`ineffExpands, this`noexpand
      ensures numItems == idealChainMaxlen == nonidealItems == ineffExpands == 0 && !noexpand
    {
      numItems, idealChainMaxlen, nonidealItems, ineffExpands, noexpand := 0, 0, 0, 0, false;
    }

    static method NewBuckets() returns (buckets: array<Bucket>)
      ensures fresh(buckets) && buckets.Length == HASH_INITIAL_NUM_BUCKETS
      ensures forall b :: 0 <= b < buckets.Length ==> buckets[b] == Bucket(null, 0, 0)
    {
      buckets := new Bucket[HASH_INITIAL_NUM_BUCKETS](_ => Bucket(null, 0, 0));
    }

    lemma EmptyHashed()
      requires numBuckets == buckets.Length == |chains| == HASH_INITIAL_NUM_BUCKETS && numItems == 0
      requires log2NumBuckets == HASH_INITIAL_NUM_BUCKETS_LOG2
      requires forall b :: 0 <= b < buckets.Length ==> buckets[b] == Bucket(null, 0, 0)
      requires forall b :: 0 <= b < |chains| ==> chains[b] == []
      ensures Hashed([]) && Bounded()
    {
      assert Pow2(5) == 2 * Pow2(4) && Pow2(4) == 2 * Pow2(3) && Pow2(3) == 8;
      assert BucketsOk(buckets, chains, []) by {
        assert forall b :: 0 <= b < |chains| ==> BucketOk(buckets[b], chains[b]);
      }
    }

    lemma HashvInserted(all: seq<Elem>, e: Elem, k: nat)
      requires HashvOk(hash, all) && k <= |all| && e.hashv == hash(e.key)
      ensures HashvOk(hash, InsertAt(all, k, e))
    {
      Inserted(all, k, e);
    }

    /** The part of an add that comes before the buckets: the new item is hashed and linked at
        the end of the list, in a fresh table when it is the first. */
    method LinkAtEnd(e: Elem)
      requires Valid() && e !in items
      modifies this`head, this`tail, this`buckets, this`numBuckets, this`log2NumBuckets, this`numItems,
        this`idealChainMaxlen, this`nonidealItems, this`ineffExpands, this`noexpand, this`chains, items`next, e
      ensures head != null && ListOk(head, tail, items + [e])
      ensures Hashed(items) && Bounded() && e.hashv == hash(e.key)
      ensures buckets == old(buckets) || fresh(buckets)
    {
      e.hashv := hash(e.key);
      if head == null {
        e.next := null;
        e.prev := null;
        MakeTable(e);
        head := e;
      } else {
        LinkLast(e);
      }
    }

    /** The part of an add that goes through the buckets. */
    method AddLinked(e: Elem, ghost k: nat, ghost after: seq<Elem>)
      requires Hashed(items) && Bounded() && NewKey(items, e) && k <= |items| && e.hashv == hash(e.key)
      requires after == InsertAt(items, k, e) && head != null && ListOk(head, tail, after)
      modifies this, buckets, e`hhNext, e`hhPrev, items`hhNext, items`hhPrev
      ensures Valid() && items == after
      ensures buckets == old(buckets) || fresh(buckets)
    {
      hide *;
      AddToTable(e, k);
      items := after;
      IsValid();
    }

    /** `HASH_ADD`: a new item, its key not yet in the table, at the end of the list. */
    method Add(e: Elem)
      requires Valid() && NewKey(items, e)
      modifies this, buckets, items, e
      ensures Valid() && items == old(items) + [e]
      ensures buckets == old(buckets) || fresh(buckets)
    {
      InsertedUnique(items, e, |items|);
      assert InsertAt(items, |items|, e) == items + [e];
      LinkAtEnd(e);
      AddLinked(e, |items|, items + [e]);
    }

    /** Walks to the first item that compares greater than `e` and links `e` before it, or at
        the end when there is none. */
    method LinkInOrder(cmp: (Elem, Elem) -> int, e: Elem) returns (ghost k: nat)
      requires head != null && ListOk(head, tail, items) && e !in items
      modifies this`head, this`tail, e`next, e`prev, items`next, items`prev
      ensures InOrderPlace(cmp, items, e, k) && head != null && ListOk(head, tail, InsertAt(items, k, e))
    {
      var iter := head;
      k := 0;
      while iter != null
        invariant k <= |items| && iter == if k < |items| then items[k] else null
        invariant forall i :: 0 <= i < k ==> cmp(items[i], e) <= 0
        invariant k == |items| ==> iter == null
        decreases |items| - k
        modifies {}
      {
        if cmp(iter, e) > 0 {
          break;
        }
        iter := iter.next;
        k := k + 1;
      }
      if iter != null {
        LinkBefore(e, iter, k);
      } else {
        LinkLast(e);
        assert InsertAt(items, k, e) == items + [e];
      }
    }

    /** `HASH_ADD_INORDER`: a new item, its key not yet in the table, before the first item that
        compares greater. */
    method AddInOrder(cmp: (Elem, Elem) -> int, e: Elem) returns (ghost k: nat)
      requires Valid() && NewKey(items, e)
      modifies this, buckets, items, e
      ensures Valid() && InOrderPlace(cmp, old(items), e, k) && items == InsertAt(old(items), k, e)
      ensures Preorder(cmp, old(items) + [e]) && Sorted(cmp, old(items)) ==> Sorted(cmp, items)
      ensures buckets == old(buckets) || fresh(buckets)
    {
      k := AddInPlace(cmp, e);
      InOrderAddKeepsSorted(cmp, old(items), e, k);
    }

    method AddInPlace(cmp: (Elem, Elem) -> int, e: Elem) returns (ghost k: nat)
      requires Valid() && NewKey(items, e)
      modifies this, buckets, items, e
      ensures Valid() && InOrderPlace(cmp, old(items), e, k) && items == InsertAt(old(items), k, e)
      ensures buckets == old(buckets) || fresh(buckets)
    {
      if head == null {
        k := 0;
        assert InsertAt(items, 0, e) == items + [e];
        Add(e);
      } else {
        InsertedUnique(items, e, 0);
        k := AddToRest(cmp, e);
      }
    }

    method AddToRest(cmp: (Elem, Elem) -> int, e: Elem) returns (ghost k: nat)
      requires head != null && ListOk(head, tail, items) && Hashed(items) && Bounded() && NewKey(items, e) && e !in items
      modifies this, buckets, items, e
      ensures Valid() && InOrderPlace(cmp, old(items), e, k) && items == InsertAt(old(items), k, e)
      ensures buckets == old(buckets) || fresh(buckets)
    {
      hide *;
      e.hashv := hash(e.key);
      k := LinkInOrder(cmp, e);
      AddLinked(e, k, InsertAt(items, k, e));
    }

    /** `HASH_DELETE`: takes the item at `k` out of list and bucket; with the last item the table
        itself is freed. */
    method Delete(e: Elem) returns (ghost k: nat)
      requires Valid() && e in items
      modifies this, buckets, items
      ensures k < |old(items)| && old(items)[k] == e
      ensures Valid() && items == RemoveAt(old(items), k) && buckets == old(buckets)
    {
      k :| k < |items| && items[k] == e;
      OnlyItem(k);
      if e.prev == null && e.next == null {
        head := null;
        items := [];
      } else {
        DeleteOneOfMany(e, k, RemoveAt(items, k));
      }
    }

    /** Only a lone item has no neighbours. */
    lemma OnlyItem(k: nat)
      requires Valid() && k < |items|
      ensures items[k].prev == null && items[k].next == null <==> |items| == 1
    {
      if k > 0 { assert items[k].prev == items[k - 1]; }
      if k < |items| - 1 { assert items[k].next == items[k + 1]; }
    }

    method DeleteOneOfMany(e: Elem, ghost k: nat, ghost after: seq<Elem>)
      requires ListOk(head, tail, items) && Hashed(items) && Bounded()
      requires k < |items| && items[k] == e && |items| > 1 && after == RemoveAt(items, k)
      modifies this, buckets, items
      ensures Valid() && items == after && buckets == old(buckets)
    {
      hide *;
      Unlink(e, k);
      RemoveItem(e, k, after);
      items := after;
      IsValid();
    }

    /** The bucket part of a delete. */
    method RemoveItem(e: Elem, ghost k: nat, ghost after: seq<Elem>)
      requires Hashed(items) && Bounded() && k < |items| && items[k] == e && after == RemoveAt(items, k)
      modifies this`numItems, this`chains, buckets, items`hhNext, items`hhPrev
      ensures Hashed(after) && Bounded()
    {
      HashedParts(items);
      hide Hashed, Bounded, HashvOk, UniqueKeys, Partitioned, BucketsOk;
      ghost var b, j := TakeFromBucket(e);
      RemovedParts(k, after, b, j);
      chains := chains[b := RemoveAt(chains[b], j)];
      numItems := numItems - 1;
      IsHashed(after);
    }

    lemma HashedParts(all: seq<Elem>)
      requires Hashed(all)
      ensures numBuckets == buckets.Length && numBuckets == Pow2(log2NumBuckets) && numItems == |all|
      ensures UniqueKeys(all) && HashvOk(hash, all) && Partitioned(hash, all, chains) && BucketsOk(buckets, chains, all)
    {
    }

    lemma RemovedParts(k: nat, after: seq<Elem>, b: nat, j: nat)
      requires UniqueKeys(items) && HashvOk(hash, items) && Partitioned(hash, items, chains)
      requires k < |items| && after == RemoveAt(items, k)
      requires b < |chains| && j < |chains[b]| && chains[b][j] == items[k]
      requires BucketsOk(buckets, chains[b := RemoveAt(chains[b], j)], items)
      ensures var now := chains[b := RemoveAt(chains[b], j)];
        Partitioned(hash, after, now) && BucketsOk(buckets, now, after)
      ensures UniqueKeys(after) && HashvOk(hash, after)
    {
      RemovedKeeps(items, k);
      HashvKept(items, after);
      PartitionAfterDelete(hash, items, after, chains, b, j);
      CoveredByItems(hash, after, chains[b := RemoveAt(chains[b], j)]);
    }

    lemma RemovedKeeps(all: seq<Elem>, k: nat)
      requires UniqueKeys(all) && k < |all|
      ensures var after := RemoveAt(all, k);
        && UniqueKeys(after) && |after| == |all| - 1
        && forall x :: x in after <==> x in all && x != all[k]
    {
      Removed(all, k);
      UniqueDistinct(all);
      forall x ensures x in RemoveAt(all, k) <==> x in all && x != all[k] {
        RemoveAtMembers(all, k, x);
      }
    }

    method TakeFromBucket(e: Elem) returns (ghost bkt: nat, ghost j: nat)
      requires Hashed(items) && Bounded() && e in items
      modifies buckets, items`hhNext, items`hhPrev
      ensures bkt < |chains| && j < |chains[bkt]| && chains[bkt][j] == e
      ensures BucketsOk(buckets, chains[bkt := RemoveAt(chains[bkt], j)], items) && Bounded()
    {
      ToBucketIsHome(hash, e.key, log2NumBuckets);
      var b := ToBucket(e.hashv, numBuckets);
      PartitionedTidy(hash, items, chains);
      assert e in chains[b] && BucketOk(buckets[b], chains[b]);
      bkt := b;
      j :| j < |chains[b]| && chains[b][j] == e;
      DeleteInBucket(buckets, b, e, j, hash, chains, items);
      StillBounded(b);
    }

    /** Taking an item out makes no bucket due. */
    twostate lemma StillBounded(new b: nat)
      requires old(Bounded()) && buckets == old(buckets) && b < buckets.Length
      requires noexpand == old(noexpand) && idealChainMaxlen == old(idealChainMaxlen)
      requires buckets[b].count <= old(buckets[b].count) && buckets[b].expandMult == old(buckets[b].expandMult)
      requires forall o :: 0 <= o < buckets.Length && o != b ==> buckets[o] == old(buckets[o])
      ensures Bounded()
    {
    }

    lemma CoveredByItems(hash: HashFn, all: seq<Elem>, chains: seq<seq<Elem>>)
      requires Partitioned(hash, all, chains)
      ensures Covered(chains, all)
    {
      forall b, j | 0 <= b < |chains| && 0 <= j < |chains[b]| ensures chains[b][j] in all {
        assert chains[b][j] in chains[b];
      }
    }

    lemma HashvKept(all: seq<Elem>, after: seq<Elem>)
      requires HashvOk(hash, all) && forall x :: x in after ==> x in all
      ensures HashvOk(hash, after)
    {
      forall k | 0 <= k < |after| ensures after[k].hashv == hash(after[k].key) {
        assert after[k] in all;
      }
    }

    /** What the buckets say does not depend on the application order. */
    lemma HashedReordered(all: seq<Elem>, after: seq<Elem>)
      requires Hashed(all) && Distinct(after) && multiset(all) == multiset(after)
      ensures Hashed(after)
    {
      SameMembers(all, after);
      SameLength(all, after);
      forall i, j | 0 <= i < j < |after| ensures after[i].key != after[j].key {
        assert after[i] in all && after[j] in all;
        KeyIsUnique(all, after[i], after[j]);
      }
      HashvKept(all, after);
      PartitionedReordered(all, after);
      CoveredByItems(hash, after, chains);
    }

    lemma KeyIsUnique(all: seq<Elem>, x: Elem, y: Elem)
      requires UniqueKeys(all) && x in all && y in all
      ensures x.key == y.key ==> x == y
    {
    }

    lemma PartitionedReordered(all: seq<Elem>, after: seq<Elem>)
      requires Partitioned(hash, all, chains) && forall x :: x in all <==> x in after
      ensures Partitioned(hash, after, chains)
    {
    }

    /** One pass of `HASH_SRT` over the list, its last `next` set to NULL. */
    static method SortOnce(cmp: (Elem, Elem) -> int, list: Elem, insize: nat, ghost s: seq<Elem>)
      returns (newList: Elem, newTail: Elem, merges: nat)
      requires insize > 0 && s != [] && list == s[0] && Distinct(s) && NextLinks(s, null)
      modifies s`next, s`prev
      ensures ListOk(newList, newTail, Pass(cmp, s, insize)) && Within(Pass(cmp, s, insize), s)
      ensures merges <= 1 <==> |s| <= 2 * insize
    {
      newList, newTail, merges := SortPass(cmp, list, insize, null, true, s);
      EndList(newList, newTail, Pass(cmp, s, insize));
    }

    static method EndList(list: Elem, last: Elem, ghost s: seq<Elem>)
      requires Linked(s, list, last, true)
      modifies last`next
      ensures ListOk(list, last, s)
    {
      last.next := null;
    }

    /** `HASH_SRT`: sorts the application order; no chain is touched, so every lookup answers
        as before. */
    method Sort(cmp: (Elem, Elem) -> int)
      requires Valid()
      modifies this`head, this`tail, this`items, items`next, items`prev
      ensures Valid() && SortedFrom(cmp, old(items), items)
    {
      hide Hashed, ListOk, Bounded;
      if head == null {
        assert MergeSort(cmp, items, 1) == [];
      } else {
        items := SortLinks(cmp);
      }
      SortDone(cmp, old(items), items);
    }

    method SortLinks(cmp: (Elem, Elem) -> int) returns (ghost sorted: seq<Elem>)
      requires Valid() && head != null
      modifies this`head, this`tail, items`next, items`prev
      ensures head != null && sorted == MergeSort(cmp, items, 1) && ListOk(head, tail, sorted) && Hashed(sorted)
    {
      hide Hashed, Bounded;
      SortElements(cmp, items, 1);
      sorted := SortList(cmp);
      HashedReordered(items, sorted);
    }

    method SortList(cmp: (Elem, Elem) -> int) returns (ghost sorted: seq<Elem>)
      requires head != null && ListOk(head, tail, items)
      modifies this`head, this`tail, items`next, items`prev
      ensures sorted == MergeSort(cmp, items, 1) && head != null && ListOk(head, tail, sorted)
    {
      head, tail, sorted := SortPasses(cmp, head, items);
    }

    /** Passes of doubled runs until one takes a single merge. */
    static method SortPasses(cmp: (Elem, Elem) -> int, start: Elem, ghost s: seq<Elem>)
      returns (head: Elem, tail: Elem, ghost sorted: seq<Elem>)
      requires ListOk(start, Last(s), s)
      modifies s`next, s`prev
      ensures sorted == MergeSort(cmp, s, 1) && ListOk(head, tail, sorted)
    {
      ghost var goal := MergeSort(cmp, s, 1);
      var list, insize, looping := start, 1, true;
      head, tail, sorted := start, start, s;
      while looping
        invariant insize > 0 && |sorted| == |s| > 0 && Within(sorted, s)
        invariant ListOk(list, Last(sorted), sorted)
        invariant !looping ==> head == list && tail == Last(sorted)
        invariant StillToSort(cmp, goal, sorted, insize, looping)
        decreases looping, |s| - insize
      {
        ghost var next := Pass(cmp, sorted, insize);
        PassDone(cmp, goal, sorted, insize);
        WithinTransitive(next, sorted, s);
        var last, merges;
        list, last, merges := SortOnce(cmp, list, insize, sorted);
        sorted := next;
        if merges <= 1 {
          looping := false;
          tail := last;
          head := list;
        }
        insize := insize * 2;
      }
    }

    /** Following `next` and `hhNext` from the heads visits `items` and the chains; nothing is
        known of the back links and the counts. */
    ghost predicate Walkable(all: seq<Elem>)
      reads this, buckets, items, all
    {
      && head == First(items) && NextLinks(items, null)
      && numBuckets == buckets.Length == |chains| && Covered(chains, all)
      && forall b :: 0 <= b < |chains| ==> ForwardChain(buckets[b].head, chains[b])
    }

    /** What the integrity check looks at. */
    ghost predicate Consistent(all: seq<Elem>)
      requires buckets.Length == |chains| && Covered(chains, all)
      reads this, buckets, items, all
    {
      && numItems == |items| == TotalOver(chains, 0, |chains|) && PrevLinks(items, null)
      && forall b :: 0 <= b < |chains| ==> BucketConsistent(buckets[b], chains[b])
    }

    /** `HASH_FSCK`: walks every chain and the application order, comparing back links and
        counts with what the table records. */
    method Fsck(ghost all: seq<Elem>) returns (ok: bool)
      requires head != null ==> Walkable(all)
      ensures ok <==> head == null || Consistent(all)
    {
      ok := true;
      if head != null {
        var count := 0;
        var bkt: nat := 0;
        while bkt < numBuckets
          invariant bkt <= numBuckets && count == TotalOver(chains, 0, bkt)
          invariant ok <==> forall b :: 0 <= b < bkt ==> BucketConsistent(buckets[b], chains[b])
        {
          var linked, n := WalkChain(buckets[bkt].head, chains[bkt]);
          count := count + n;
          ok := ok && linked && buckets[bkt].count == n;
          bkt := bkt + 1;
        }
        ok := ok && count == numItems;
        var linked, n := WalkList();
        ok := ok && linked && n == numItems;
      }
    }

    static method WalkChain(first: Elem?, ghost chain: seq<Elem>) returns (linked: bool, n: nat)
      requires ForwardChain(first, chain)
      ensures n == |chain| && (linked <==> BackLinked(chain, |chain|))
    {
      var thh, prev: Elem? := first, null;
      linked, n := true, 0;
      while thh != null
        invariant n <= |chain| && (linked <==> BackLinked(chain, n))
        invariant thh == if n < |chain| then chain[n] else null
        invariant prev == if n > 0 then chain[n - 1] else null
        decreases |chain| - n
      {
        linked := linked && prev == thh.hhPrev;
        n := n + 1;
        prev := thh;
        thh := thh.hhNext;
      }
    }

    method WalkList() returns (linked: bool, n: nat)
      requires head == First(items) && NextLinks(items, null)
      ensures n == |items| && (linked <==> PrevLinks(items, null))
    {
      var thh, prev: Elem? := head, null;
      linked, n := true, 0;
      while thh != null
        invariant n <= |items| && (linked <==> PrevLinks(items[..n], null))
        invariant thh == if n < |items| then items[n] else null
        invariant prev == if n > 0 then items[n - 1] else null
        decreases |items| - n
      {
        OneFurther(n);
        linked := linked && prev == thh.prev;
        n := n + 1;
        prev := thh;
        thh := thh.next;
      }
      assert items[..n] == items;
    }

    lemma OneFurther(n: nat)
      requires n < |items|
      ensures PrevLinks(items[..n + 1], null)
         <==> PrevLinks(items[..n], null) && items[n].prev == if n > 0 then items[n - 1] else null
    {
      var less, more := items[..n], items[..n + 1];
      assert more == less + [items[n]];
      if PrevLinks(more, null) {
        assert forall k :: 0 < k < n ==> less[k].prev == less[k - 1] by {
          assert forall k :: 0 < k < n ==> more[k].prev == more[k - 1];
        }
      }
    }

    /** A valid table passes. */
    lemma ValidPassesFsck()
      requires Valid() && head != null
      ensures Walkable(items) && Consistent(items)
    {
      CountsAddUp(hash, items, chains);
      forall b | 0 <= b < |chains|
        ensures ForwardChain(buckets[b].head, chains[b]) && BucketConsistent(buckets[b], chains[b])
      {
        assert BucketOk(buckets[b], chains[b]);
      }
    }
  }
}
