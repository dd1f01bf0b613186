/** The hash table over whole runs. */
module HashRuns {
  import opened Elements
  import opened HashSpec
  import opened InOrder
  import opened Sequences
  import opened Sorting
  import opened UtHash

  // ----- runs -----

  /** What a program does with a table: adds guarded by a lookup, and deletes by key. */
  datatype Op = AddIfAbsent(e: Elem) | DeleteKey(key: string)

  /** Position of the first item with the key, or the length when there is none. */
  ghost function IndexOf(items: seq<Elem>, key: string): (k: nat)
    ensures k <= |items| && (k < |items| ==> items[k].key == key)
    ensures forall j :: 0 <= j < k ==> items[j].key != key
  {
    if items == [] then 0 else if items[0].key == key then 0 else 1 + IndexOf(items[1..], key)
  }

  /** The effect of an operation on the application order. */
  ghost function Step(items: seq<Elem>, op: Op): seq<Elem> {
    match op
    case AddIfAbsent(e) => if IndexOf(items, e.key) < |items| then items else items + [e]
    case DeleteKey(key) =>
      var k := IndexOf(items, key);
      if k < |items| then RemoveAt(items, k) else items
  }

  ghost function Run(items: seq<Elem>, ops: seq<Op>): seq<Elem> {
    if ops == [] then items else Step(Run(items, ops[..|ops| - 1]), ops[|ops| - 1])
  }

  /** An item with a new key is added last, and otherwise nothing changes. */
  lemma StepAdds(items: seq<Elem>, e: Elem)
    ensures Step(items, Op.AddIfAbsent(e)) == if NewKey(items, e) then items + [e] else items
  {
    if IndexOf(items, e.key) < |items| { assert items[IndexOf(items, e.key)].key == e.key; }
  }

  /** The one item with the key leaves, the others staying in their order, or nothing changes. */
  lemma StepDeletes(items: seq<Elem>, key: string, k: nat)
    requires UniqueKeys(items) && k <= |items|
    requires if k < |items| then items[k].key == key else forall j :: 0 <= j < |items| ==> items[j].key != key
    ensures Step(items, Op.DeleteKey(key)) == if k < |items| then items[..k] + items[k + 1..] else items
  {
    var l := IndexOf(items, key);
    if k < |items| && l < |items| { assert k == l; }
  }

  /** One run after another is one run. */
  lemma {:induction false} RunJoins(items: seq<Elem>, ops: seq<Op>, more: seq<Op>)
    ensures Run(items, ops + more) == Run(Run(items, ops), more)
    ensures |more| == 1 ==> Run(items, more) == Step(items, more[0])
  {
    if more == [] {
      assert ops + more == ops;
    } else {
      var last := |more| - 1;
      assert (ops + more)[..|ops + more| - 1] == ops + more[..last];
      RunJoins(items, ops, more[..last]);
    }
  }

  type Directory = map<string, Elem>

  /** The effect of an operation on a plain map. */
  function MapStep(d: Directory, op: Op): Directory {
    match op
    case AddIfAbsent(e) => if e.key in d then d else d[e.key := e]
    case DeleteKey(key) => d - {key}
  }

  function MapRun(d: Directory, ops: seq<Op>): Directory {
    if ops == [] then d else MapStep(MapRun(d, ops[..|ops| - 1]), ops[|ops| - 1])
  }

  /** `items` holds, for each key of the directory, the item it is mapped to and nothing else. */
  ghost predicate Represents(items: seq<Elem>, d: Directory) {
    && UniqueKeys(items)
    && (forall k :: 0 <= k < |items| ==> items[k].key in d && d[items[k].key] == items[k])
    && (forall key :: key in d ==> d[key] in items && d[key].key == key)
  }

  lemma AddRepresents(items: seq<Elem>, e: Elem, d: Directory)
    requires Represents(items, d)
    ensures IndexOf(items, e.key) < |items| <==> e.key in d
    ensures Represents(Step(items, Op.AddIfAbsent(e)), MapStep(d, Op.AddIfAbsent(e)))
  {
    if e.key in d {
      assert d[e.key] in items;
    } else {
      AppendRepresents(items, e, d);
    }
  }

  lemma AppendRepresents(items: seq<Elem>, e: Elem, d: Directory)
    requires Represents(items, d) && e.key !in d
    ensures Represents(items + [e], d[e.key := e])
  {
    var t, f := items + [e], d[e.key := e];
    forall k | 0 <= k < |t| ensures t[k].key in f && f[t[k].key] == t[k] {
      if k < |items| { assert items[k].key in d; }
    }
    forall key | key in f ensures f[key] in t && f[key].key == key {
      if key == e.key { assert t[|items|] == e; }
    }
  }

  lemma RemovedIndex(items: seq<Elem>, k: nat, j: nat)
    requires k < |items| && j < |items| - 1
    ensures RemoveAt(items, k)[j] == items[if j < k then j else j + 1]
  {
  }

  lemma RemovedUnique(items: seq<Elem>, k: nat)
    requires UniqueKeys(items) && k < |items|
    ensures UniqueKeys(RemoveAt(items, k))
    ensures forall j :: 0 <= j < |items| - 1 ==>
      RemoveAt(items, k)[j] in items && RemoveAt(items, k)[j].key != items[k].key
  {
    forall i, j | 0 <= i < j < |items| - 1 ensures RemoveAt(items, k)[i].key != RemoveAt(items, k)[j].key {
      RemovedIndex(items, k, i);
      RemovedIndex(items, k, j);
    }
    forall j | 0 <= j < |items| - 1
      ensures RemoveAt(items, k)[j] in items && RemoveAt(items, k)[j].key != items[k].key
    {
      RemovedIndex(items, k, j);
    }
  }

  lemma DeleteRepresents(items: seq<Elem>, key: string, d: Directory)
    requires Represents(items, d)
    ensures Represents(Step(items, Op.DeleteKey(key)), MapStep(d, Op.DeleteKey(key)))
  {
    var k := IndexOf(items, key);
    if k < |items| {
      RemoveRepresents(items, k, d);
    } else {
      assert key !in d;
      assert d - {key} == d;
    }
  }

  lemma RemoveRepresents(items: seq<Elem>, k: nat, d: Directory)
    requires Represents(items, d) && k < |items|
    ensures Represents(RemoveAt(items, k), d - {items[k].key})
  {
    RemovedUnique(items, k);
    forall x | x in d && x != items[k].key ensures d[x] in RemoveAt(items, k) {
      StillIn(items, k, d[x]);
    }
  }

  lemma StillIn(items: seq<Elem>, k: nat, e: Elem)
    requires k < |items| && e in items && e.key != items[k].key
    ensures e in RemoveAt(items, k)
  {
    var i :| 0 <= i < |items| && items[i] == e;
    RemovedIndex(items, k, if i < k then i else i - 1);
  }

  /** Over every run the list stands for the map that the same run builds. */
  lemma {:induction false} RunRepresents(items: seq<Elem>, d: Directory, ops: seq<Op>)
    requires Represents(items, d)
    ensures Represents(Run(items, ops), MapRun(d, ops))
  {
    if ops != [] {
      var last := |ops| - 1;
      RunRepresents(items, d, ops[..last]);
      match ops[last]
      case AddIfAbsent(e) => AddRepresents(Run(items, ops[..last]), e, MapRun(d, ops[..last]));
      case DeleteKey(key) => DeleteRepresents(Run(items, ops[..last]), key, MapRun(d, ops[..last]));
    }
  }

  ghost function Added(ops: seq<Op>): set<Elem> {
    set op | op in ops && op.AddIfAbsent? :: op.e
  }

  /** The guarded add of `client_hash_add_client`. */
  method AddIfAbsent(table: HashTable, e: Elem)
    requires table.Valid()
    modifies table, table.buckets, table.items, e
    ensures table.Valid() && table.items == Step(old(table.items), Op.AddIfAbsent(e))
    ensures table.buckets == old(table.buckets) || fresh(table.buckets)
  {
    var found := table.Find(e.key);
    if found == null {
      table.Add(e);
    }
  }

  method DeleteKey(table: HashTable, key: string)
    requires table.Valid()
    modifies table, table.buckets, table.items
    ensures table.Valid() && table.items == Step(old(table.items), Op.DeleteKey(key))
    ensures table.buckets == old(table.buckets)
  {
    var found := table.Find(key);
    if found != null {
      ghost var k := table.Delete(found);
      assert UniqueKeys(old(table.items));
    }
  }

  ghost predicate Among(items: seq<Elem>, pool: set<Elem>) {
    forall k :: 0 <= k < |items| ==> items[k] in pool
  }

  method RunOp(table: HashTable, op: Op)
    requires table.Valid()
    modifies table, table.buckets, table.items, if op.AddIfAbsent? then {op.e} else {}
    ensures table.Valid() && table.items == Step(old(table.items), op)
    ensures table.buckets == old(table.buckets) || fresh(table.buckets)
    ensures Among(table.items, Elems(old(table.items)) + if op.AddIfAbsent? then {op.e} else {})
  {
    match op
    case AddIfAbsent(e) =>
      AddIfAbsent(table, e);
    case DeleteKey(key) =>
      DeleteKey(table, key);
  }

  /** Every run of guarded adds and deletes, bucket expansions included, keeps the table's
      integrity and leaves its application order as the specification says. */
  method RunOps(table: HashTable, ops: seq<Op>)
    requires table.Valid()
    modifies table, table.buckets, table.items, Added(ops)
    ensures table.Valid() && table.items == Run(old(table.items), ops)
    ensures table.items != [] ==> table.Bounded()
  {
    ghost var start, pool := table.items, Elems(table.items) + Added(ops);
    for n := 0 to |ops|
      invariant table.Valid() && table.items == Run(start, ops[..n])
      invariant Among(table.items, pool)
      invariant table.buckets == old(table.buckets) || fresh(table.buckets)
    {
      assert ops[..n + 1][..n] == ops[..n];
      assert ops[n].AddIfAbsent? ==> ops[n] in ops && ops[n].e in Added(ops);
      RunOp(table, ops[n]);
    }
    assert ops[..|ops|] == ops;
  }

  /** A lookup after any run on an empty table answers as a map would. */
  method RunThenFind(table: HashTable, ops: seq<Op>, key: string) returns (out: Elem?)
    requires table.Valid() && table.items == []
    modifies table, table.buckets, Added(ops)
    ensures out == if key in MapRun(map[], ops) then MapRun(map[], ops)[key] else null
  {
    RunRepresents([], map[], ops);
    RunOps(table, ops);
    out := table.Find(key);
  }

  // ----- runs of in-order adds -----

  /** The effect of an operation on the application order when adds are in order. */
  ghost function OrderedStep(cmp: (Elem, Elem) -> int, items: seq<Elem>, op: Op): seq<Elem> {
    match op
    case AddIfAbsent(e) =>
      if IndexOf(items, e.key) < |items| then items else InsertAt(items, PlaceOf(cmp, items, e), e)
    case DeleteKey(_) => Step(items, op)
  }

  /** An item with a new key goes before the first that compares greater. */
  lemma OrderedStepAdds(cmp: (Elem, Elem) -> int, items: seq<Elem>, e: Elem, k: nat)
    requires InOrderPlace(cmp, items, e, k)
    ensures OrderedStep(cmp, items, Op.AddIfAbsent(e)) ==
            if NewKey(items, e) then items[..k] + [e] + items[k..] else items
    ensures forall key :: OrderedStep(cmp, items, Op.DeleteKey(key)) == Step(items, Op.DeleteKey(key))
  {
    PlaceUnique(cmp, items, e, k, PlaceOf(cmp, items, e));
    if IndexOf(items, e.key) < |items| { assert items[IndexOf(items, e.key)].key == e.key; }
  }

  lemma {:induction false} OrderedRunJoins(cmp: (Elem, Elem) -> int, items: seq<Elem>, ops: seq<Op>, more: seq<Op>)
    ensures OrderedRun(cmp, items, ops + more) == OrderedRun(cmp, OrderedRun(cmp, items, ops), more)
    ensures |more| == 1 ==> OrderedRun(cmp, items, more) == OrderedStep(cmp, items, more[0])
  {
    if more == [] {
      assert ops + more == ops;
    } else {
      var last := |more| - 1;
      assert (ops + more)[..|ops + more| - 1] == ops + more[..last];
      OrderedRunJoins(cmp, items, ops, more[..last]);
    }
  }

  ghost function OrderedRun(cmp: (Elem, Elem) -> int, items: seq<Elem>, ops: seq<Op>): seq<Elem> {
    if ops == [] then items else OrderedStep(cmp, OrderedRun(cmp, items, ops[..|ops| - 1]), ops[|ops| - 1])
  }

  ghost predicate ItemsFrom(items: seq<Elem>, all: seq<Elem>) {
    forall k :: 0 <= k < |items| ==> items[k] in all
  }

  ghost predicate AddsFrom(ops: seq<Op>, all: seq<Elem>) {
    forall n :: 0 <= n < |ops| && ops[n].AddIfAbsent? ==> ops[n].e in all
  }

  lemma OrderedAddSorted(cmp: (Elem, Elem) -> int, items: seq<Elem>, e: Elem, all: seq<Elem>)
    requires Preorder(cmp, all) && Sorted(cmp, items) && ItemsFrom(items, all) && e in all
    ensures var t := InsertAt(items, PlaceOf(cmp, items, e), e); Sorted(cmp, t) && ItemsFrom(t, all)
  {
    var place := PlaceOf(cmp, items, e);
    InsertedFrom(items, place, e, all);
    PreorderOfPart(cmp, all, items + [e]);
    InOrderAddKeepsSorted(cmp, items, e, place);
  }

  lemma InsertedFrom(items: seq<Elem>, k: nat, e: Elem, all: seq<Elem>)
    requires ItemsFrom(items, all) && e in all && k <= |items|
    ensures ItemsFrom(InsertAt(items, k, e), all)
  {
    Inserted(items, k, e);
  }

  lemma OrderedStepSorted(cmp: (Elem, Elem) -> int, items: seq<Elem>, op: Op, all: seq<Elem>)
    requires Preorder(cmp, all) && Sorted(cmp, items) && ItemsFrom(items, all) && (op.AddIfAbsent? ==> op.e in all)
    ensures Sorted(cmp, OrderedStep(cmp, items, op)) && ItemsFrom(OrderedStep(cmp, items, op), all)
  {
    match op
    case AddIfAbsent(e) =>
      OrderedAddSorted(cmp, items, e, all);
    case DeleteKey(key) =>
      if IndexOf(items, key) < |items| { RemovedSorted(cmp, items, IndexOf(items, key), all); }
  }

  lemma RemovedSorted(cmp: (Elem, Elem) -> int, items: seq<Elem>, k: nat, all: seq<Elem>)
    requires Sorted(cmp, items) && ItemsFrom(items, all) && k < |items|
    ensures Sorted(cmp, RemoveAt(items, k)) && ItemsFrom(RemoveAt(items, k), all)
  {
    Removed(items, k);
  }

  /** A list that starts sorted is sorted after any run of guarded in-order adds and deletes. */
  lemma {:induction false} OrderedRunSorted(cmp: (Elem, Elem) -> int, items: seq<Elem>, ops: seq<Op>, all: seq<Elem>)
    requires Preorder(cmp, all) && Sorted(cmp, items) && ItemsFrom(items, all) && AddsFrom(ops, all)
    ensures Sorted(cmp, OrderedRun(cmp, items, ops)) && ItemsFrom(OrderedRun(cmp, items, ops), all)
  {
    if ops != [] {
      var last := |ops| - 1;
      AddsOfPrefix(ops, all);
      OrderedRunSorted(cmp, items, ops[..last], all);
      OrderedStepSorted(cmp, OrderedRun(cmp, items, ops[..last]), ops[last], all);
    }
  }

  lemma AddsOfPrefix(ops: seq<Op>, all: seq<Elem>)
    requires AddsFrom(ops, all) && ops != []
    ensures AddsFrom(ops[..|ops| - 1], all)
    ensures ops[|ops| - 1].AddIfAbsent? ==> ops[|ops| - 1].e in all
  {
  }

  /** The order of the list is no part of the map: in-order adds build the same one. */
  lemma {:induction false} OrderedRunRepresents(cmp: (Elem, Elem) -> int, items: seq<Elem>, d: Directory, ops: seq<Op>)
    requires Represents(items, d)
    ensures Represents(OrderedRun(cmp, items, ops), MapRun(d, ops))
  {
    if ops != [] {
      var last := |ops| - 1;
      OrderedRunRepresents(cmp, items, d, ops[..last]);
      var before, now := OrderedRun(cmp, items, ops[..last]), MapRun(d, ops[..last]);
      match ops[last]
      case AddIfAbsent(e) =>
        AddRepresents(before, e, now);
        if e.key !in now { InsertRepresents(before, PlaceOf(cmp, before, e), e, now); }
      case DeleteKey(key) => DeleteRepresents(before, key, now);
    }
  }

  lemma InsertRepresents(items: seq<Elem>, k: nat, e: Elem, d: Directory)
    requires Represents(items, d) && e.key !in d && k <= |items|
    ensures Represents(InsertAt(items, k, e), d[e.key := e])
  {
    var t, f := InsertAt(items, k, e), d[e.key := e];
    InsertedMembers(items, e, k);
    assert NewKey(items, e);
    InsertedUnique(items, e, k);
    forall i | 0 <= i < |t| ensures t[i].key in f && f[t[i].key] == t[i] {
      assert t[i] in t;
    }
  }

  lemma InsertedAmong(items: seq<Elem>, k: nat, e: Elem)
    requires k <= |items|
    ensures Among(InsertAt(items, k, e), Elems(items) + {e})
  {
    Inserted(items, k, e);
  }

  method AddInOrderIfAbsent(cmp: (Elem, Elem) -> int, table: HashTable, e: Elem)
    requires table.Valid()
    modifies table, table.buckets, table.items, e
    ensures table.Valid() && table.items == OrderedStep(cmp, old(table.items), Op.AddIfAbsent(e))
    ensures table.buckets == old(table.buckets) || fresh(table.buckets)
  {
    var found := table.Find(e.key);
    if found == null {
      ghost var before := table.items;
      ghost var k := table.AddInOrder(cmp, e);
      PlaceUnique(cmp, before, e, k, PlaceOf(cmp, before, e));
    }
  }

  method RunOrderedOp(cmp: (Elem, Elem) -> int, table: HashTable, op: Op)
    requires table.Valid()
    modifies table, table.buckets, table.items, if op.AddIfAbsent? then {op.e} else {}
    ensures table.Valid() && table.items == OrderedStep(cmp, old(table.items), op)
    ensures table.buckets == old(table.buckets) || fresh(table.buckets)
    ensures Among(table.items, Elems(old(table.items)) + if op.AddIfAbsent? then {op.e} else {})
  {
    match op
    case AddIfAbsent(e) =>
      AddInOrderIfAbsent(cmp, table, e);
      InsertedAmong(old(table.items), PlaceOf(cmp, old(table.items), e), e);
    case DeleteKey(key) =>
      DeleteKey(table, key);
  }

  /** A table kept by in-order adds: from an empty table, after any run, the application order is
      sorted and lookups answer as a map would. */
  method RunOrdered(cmp: (Elem, Elem) -> int, table: HashTable, ops: seq<Op>, ghost all: seq<Elem>)
    requires table.Valid() && table.items == [] && Preorder(cmp, all) && AddsFrom(ops, all)
    modifies table, table.buckets, Added(ops)
    ensures table.Valid() && table.items == OrderedRun(cmp, [], ops)
    ensures Sorted(cmp, table.items) && Represents(table.items, MapRun(map[], ops))
    ensures table.items != [] ==> table.Bounded()
  {
    ghost var pool := Added(ops);
    for n := 0 to |ops|
      invariant table.Valid() && table.items == OrderedRun(cmp, [], ops[..n])
      invariant Among(table.items, pool)
      invariant table.buckets == old(table.buckets) || fresh(table.buckets)
    {
      assert ops[..n + 1][..n] == ops[..n];
      assert ops[n].AddIfAbsent? ==> ops[n] in ops && ops[n].e in Added(ops);
      RunOrderedOp(cmp, table, ops[n]);
    }
    assert ops[..|ops|] == ops;
    OrderedRunSorted(cmp, [], ops, all);
    OrderedRunRepresents(cmp, [], map[], ops);
  }
}
