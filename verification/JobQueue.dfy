/** The job queue of `jobqueue.c`. Dequeuing frees the head node and touches nothing else, so
    the new head's `prev`, and `tail` once the queue has run empty, are left dangling. */
module JobQueue {

  import opened Nodes

  class JobQueue<T> {
    var head: Node?<T>
    var tail: Node?<T>
    /** The nodes that are in the queue and not freed. */
    ghost var nodes: seq<Node<T>>

    /** `tail` means something only while the queue is not empty. */
    ghost predicate Valid()
      reads this, nodes
    {
      && Distinct(nodes) && NextLinks(nodes) && PrevLinks(nodes)
      && head == (if nodes == [] then null else nodes[0])
      && (nodes != [] ==> tail == nodes[|nodes| - 1])
    }

    ghost function Contents(): seq<T>
      reads this
    {
      Data(nodes)
    }

    /** Every node of the queue was in it before or has been made since. */
    twostate predicate OldOrFresh()
      reads this
    {
      forall k :: 0 <= k < |nodes| ==> nodes[k] in old(nodes) || fresh(nodes[k])
    }

    constructor ()
      ensures Valid() && Contents() == []
    {
      head, tail, nodes := null, null, [];
    }

    /** Of the nodes it did not make, it writes only to the last one in the queue. */
    method Enqueue(data: T)
      requires Valid()
      modifies this, if nodes == [] then {} else {nodes[|nodes| - 1]}
      ensures Valid() && Contents() == old(Contents()) + [data]
      ensures |nodes| == |old(nodes)| + 1 && nodes == old(nodes) + [nodes[|old(nodes)|]] && fresh(nodes[|old(nodes)|])
      ensures OldOrFresh()
    {
      var node := new Node(data);
      if head != null {
        tail.next := node;
        node.next := null;
        node.prev := tail;
        tail := node;
      } else {
        head := node;
        tail := node;
      }
      Appended(nodes, node);
      DataJoined(nodes, [node]);
      nodes := nodes + [node];
    }

    /** Waiting for the queue to be non-empty is over when this runs. The node that leaves is
        freed: it is no longer one of `nodes`, and no node that stays is written to. */
    method Dequeue() returns (val: T)
      requires Valid() && !IsEmpty()
      modifies this`head, this`nodes
      ensures Valid() && old(Contents()) == [val] + Contents()
      ensures nodes == old(nodes)[1..] && OldOrFresh()
    {
      var tmp := head;
      val := tmp.data;
      head := tmp.next;
      nodes := nodes[1..];
    }

    predicate IsEmpty()
      requires Valid()
      reads this, nodes
      ensures IsEmpty() <==> Contents() == []
    {
      head == null
    }
  }

  // ----- runs -----

  datatype Job<T> = Put(data: T) | Take

  /** A `Take` waits until there is something to take. */
  predicate Runnable<T>(n: nat, jobs: seq<Job<T>>)
    decreases |jobs|
  {
    jobs == [] || if jobs[0].Put? then Runnable(n + 1, jobs[1..]) else n > 0 && Runnable(n - 1, jobs[1..])
  }

  function Added<T>(jobs: seq<Job<T>>): seq<T> {
    if jobs == [] then [] else (if jobs[0].Put? then [jobs[0].data] else []) + Added(jobs[1..])
  }

  /** How often something is taken. */
  function Takes<T>(jobs: seq<Job<T>>): nat {
    if jobs == [] then 0 else (if jobs[0].Take? then 1 else 0) + Takes(jobs[1..])
  }

  lemma ThreeJoined<T>(a: seq<T>, b: seq<T>, c: seq<T>)
    ensures a + (b + c) == a + b + c
  {
  }

  lemma AddedOne<T>(x: T)
    ensures Added([Put(x)]) == [x] && Takes([Put(x)]) == 0
    ensures Added<T>([Take]) == [] && Takes<T>([Take]) == 1
  {
  }

  /** Both go by one operation at a time. */
  lemma {:induction false} AddedJoins<T>(jobs: seq<Job<T>>, more: seq<Job<T>>)
    ensures Added(jobs + more) == Added(jobs) + Added(more) && Takes(jobs + more) == Takes(jobs) + Takes(more)
  {
    if jobs == [] {
      assert jobs + more == more;
    } else {
      AddedJoins(jobs[1..], more);
      ThreeJoined(if jobs[0].Put? then [jobs[0].data] else [], Added(jobs[1..]), Added(more));
      assert (jobs + more)[1..] == jobs[1..] + more;
    }
  }

  /** Over any mix of operations, what was taken, one thing for each take, and then what is left are
      what was there and then what was added, in order. */
  method RunJobs<T>(q: JobQueue<T>, jobs: seq<Job<T>>) returns (taken: seq<T>)
    requires q.Valid() && Runnable(|q.Contents()|, jobs)
    modifies q, q.nodes
    ensures q.Valid() && taken + q.Contents() == old(q.Contents()) + Added(jobs)
    ensures |taken| == Takes(jobs)
  {
    taken := [];
    var k := 0;
    ghost var total := q.Contents() + Added(jobs);
    assert jobs[0..] == jobs;
    hide Runnable, Added, Takes;
    while k < |jobs|
      invariant 0 <= k <= |jobs| && q.Valid() && Runnable(|q.Contents()|, jobs[k..])
      invariant Balanced(taken, q.Contents(), Added(jobs[k..]), total)
      invariant |taken| + Takes(jobs[k..]) == Takes(jobs)
      invariant q.OldOrFresh()
      decreases |jobs| - k
    {
      taken := RunNext(q, jobs, k, taken, total);
      k := k + 1;
    }
    NothingAdded(jobs[k..]);
  }

  lemma NothingAdded<T>(jobs: seq<Job<T>>)
    requires jobs == []
    ensures Added(jobs) == [] && Takes(jobs) == 0
  {
  }

  method RunNext<T>(q: JobQueue<T>, jobs: seq<Job<T>>, k: nat, taken: seq<T>, ghost total: seq<T>) returns (more: seq<T>)
    requires k < |jobs| && q.Valid() && Runnable(|q.Contents()|, jobs[k..])
    requires Balanced(taken, q.Contents(), Added(jobs[k..]), total)
    modifies q, q.nodes
    ensures q.Valid() && Runnable(|q.Contents()|, jobs[k + 1..])
    ensures Balanced(more, q.Contents(), Added(jobs[k + 1..]), total)
    ensures |more| + Takes(jobs[k + 1..]) == |taken| + Takes(jobs[k..])
    ensures q.OldOrFresh()
  {
    AddedNext(jobs, k);
    ghost var before, later := q.Contents(), Added(jobs[k + 1..]);
    var out := RunJob(q, jobs[k]);
    more := taken + out;
    StillBalanced(taken, before, jobs[k], later, total, out, q.Contents());
  }

  method RunJob<T>(q: JobQueue<T>, job: Job<T>) returns (out: seq<T>)
    requires q.Valid() && (job.Take? ==> q.Contents() != [])
    modifies q, q.nodes
    ensures q.Valid() && |out| == (if job.Take? then 1 else 0)
    ensures old(q.Contents()) + (if job.Put? then [job.data] else []) == out + q.Contents()
    ensures q.OldOrFresh()
  {
    match job
    case Put(data) =>
      q.Enqueue(data);
      out := [];
    case Take =>
      var val := q.Dequeue();
      out := [val];
  }

  ghost predicate Balanced<T>(taken: seq<T>, queue: seq<T>, later: seq<T>, total: seq<T>) {
    taken + queue + later == total
  }

  lemma StillBalanced<T>(taken: seq<T>, queue: seq<T>, job: Job<T>, later: seq<T>, total: seq<T>,
                         out: seq<T>, left: seq<T>)
    requires Balanced(taken, queue, (if job.Put? then [job.data] else []) + later, total)
    requires queue + (if job.Put? then [job.data] else []) == out + left
    ensures Balanced(taken + out, left, later, total)
  {
    var added := if job.Put? then [job.data] else [];
    assert taken + queue + (added + later) == taken + (queue + added) + later;
    assert taken + (out + left) + later == taken + out + left + later;
  }

  lemma AddedNext<T>(jobs: seq<Job<T>>, k: nat)
    requires k < |jobs|
    ensures jobs[k..][0] == jobs[k] && jobs[k..][1..] == jobs[k + 1..]
    ensures Added(jobs[k..]) == (if jobs[k].Put? then [jobs[k].data] else []) + Added(jobs[k + 1..])
    ensures Takes(jobs[k..]) == (if jobs[k].Take? then 1 else 0) + Takes(jobs[k + 1..])
  {
    assert jobs[k..][1..] == jobs[k + 1..];
  }
}
