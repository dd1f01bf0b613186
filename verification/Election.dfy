/** Leader election in `a2/src/server.py`: each server creates an ephemeral sequential znode and
    takes the lead when its own is the least of the children it is shown. A znode's path is its
    sequence number, which the zero-padded names order alike. */
module Election {
  import opened Options

  /** The replies to the `zk.get` calls of one check, in order; a missing znode raises. */
  type Replies = seq<Option<string>>

  function Least(children: seq<nat>): (m: Option<nat>)
    ensures m.None? <==> children == []
    ensures m.Some? ==> m.value in children && forall c :: c in children ==> m.value <= c
  {
    if children == [] then None
    else
      var rest := Least(children[..|children| - 1]);
      var last := children[|children| - 1];
      assert children == children[..|children| - 1] + [last];
      if rest.None? || last < rest.value then Some(last) else rest
  }

  predicate Answered(replies: Replies, n: nat) {
    n <= |replies| && forall k :: 0 <= k < n ==> replies[k].Some?
  }

  class Server {
    const port: string
    var zkPath: Option<nat>
    var leader: bool
    var leaderPort: Option<string>
    var peerPorts: seq<string>
    var numChildren: nat

    constructor (port: string)
      ensures this.port == port && zkPath == None && !leader && numChildren == 0
    {
      this.port := port;
      zkPath, leader, leaderPort, peerPorts, numChildren := None, false, None, [], 0;
    }

    /** What the cluster sees of this server while it lives. */
    function AsMember(): Member
      reads this
    {
      Member(zkPath, leader, numChildren, true)
    }

    /** `check_election`; `ok` is false when a `zk.get` raised. The copy of the leader's data
        at the end is not part of this model. */
    method CheckElection(children: seq<nat>, replies: Replies) returns (ok: bool)
      modifies this`leader, this`leaderPort, this`peerPorts, this`numChildren
      ensures AsMember() == Checked(old(AsMember()), children, replies, false)
      ensures numChildren == |children|
      ensures leader == (old(leader) ||
                (|children| <= old(numChildren) && Answered(replies, |children|) && Least(children) == zkPath))
      ensures |children| > old(numChildren) ==> peerPorts == old(peerPorts) && leaderPort == old(leaderPort)
      ensures |children| > old(numChildren) ==> ok
      ensures |children| <= old(numChildren) ==> (ok <==>
                && Answered(replies, |children|)
                && (Least(children) == zkPath || (children != [] && |children| < |replies| && replies[|children|].Some?)))
      ensures |children| <= old(numChildren) ==> PeersOf(peerPorts, replies, |children|)
      ensures |children| <= old(numChildren) && ok ==> |peerPorts| == |children|
      ensures |children| <= old(numChildren) && ok ==>
                if Least(children) == zkPath then leaderPort == Some(port)
                else Answered(replies, |children| + 1) && leaderPort == replies[|children|]
      ensures !ok ==> leaderPort == old(leaderPort)
    {
      if |children| > numChildren {
        numChildren := |children|;
        return true;
      }
      numChildren := |children|;
      var minPath;
      ok, minPath := ReadPeers(children, replies);
      if !ok {
        return false;
      }
      if minPath == zkPath {
        leader := true;
        leaderPort := Some(port);
      } else {
        // asking for no znode at all raises as well
        if minPath.None? || |children| >= |replies| || replies[|children|].None? {
          return false;
        }
        leaderPort := replies[|children|];
      }
      return true;
    }

    /** The loop over the children, which stops at the first `zk.get` that raises. */
    method ReadPeers(children: seq<nat>, replies: Replies) returns (ok: bool, minPath: Option<nat>)
      modifies this`peerPorts
      ensures ok <==> Answered(replies, |children|)
      ensures PeersOf(peerPorts, replies, |children|) && (ok ==> |peerPorts| == |children| && minPath == Least(children))
    {
      minPath := None;
      peerPorts := [];
      for k := 0 to |children|
        invariant Answered(replies, k) && |peerPorts| == k
        invariant forall j :: 0 <= j < k ==> peerPorts[j] == replies[j].value
        invariant minPath == Least(children[..k])
      {
        var c := children[k];
        if k >= |replies| || replies[k].None? {
          return false, minPath;
        }
        peerPorts := peerPorts + [replies[k].value];
        assert children[..k + 1][..k] == children[..k];
        if minPath == None {
          minPath := Some(c);
        } else if c < minPath.value {
          minPath := Some(c);
        }
      }
      assert children[..|children|] == children;
      ok := true;
    }

    /** The end of `zk_init_election`, once the znode has been created. */
    method InitElection(path: nat, children: seq<nat>, replies: Replies) returns (ok: bool)
      modifies this
      ensures AsMember() == Checked(old(AsMember()).(zkPath := Some(path)), children, replies, true)
      ensures zkPath == Some(path) && numChildren == |children|
      ensures leader == (old(leader) || (Answered(replies, |children|) && Least(children) == Some(path)))
      ensures ok <==>
                && Answered(replies, |children|)
                && (Least(children) == Some(path) || (children != [] && |children| < |replies| && replies[|children|].Some?))
      ensures PeersOf(peerPorts, replies, |children|) && (ok ==> |peerPorts| == |children|)
      ensures ok ==> if Least(children) == Some(path) then leaderPort == Some(port) else leaderPort == replies[|children|]
      ensures !ok ==> leaderPort == old(leaderPort)
    {
      zkPath := Some(path);
      numChildren := |children|;
      ok := CheckElection(children, replies);
    }
  }

  /** The ports are the answers of the first znodes of a list of `n`, up to the one that raises. */
  predicate PeersOf(ports: seq<string>, replies: Replies, n: nat) {
    && |ports| <= n
    && (forall k :: 0 <= k < |ports| ==> k < |replies| && replies[k] == Some(ports[k]))
    && (|ports| < n ==> |ports| >= |replies| || replies[|ports|].None?)
  }

  /** Which leaves no choice. */
  lemma PeersUnique(p: seq<string>, q: seq<string>, replies: Replies, n: nat)
    requires PeersOf(p, replies, n) && PeersOf(q, replies, n)
    ensures p == q
  {
    forall k {:trigger replies[k]} | 0 <= k < |p| ensures k < |replies| && replies[k] == Some(p[k]) {
      var x := p[k];
    }
    forall k {:trigger replies[k]} | 0 <= k < |q| ensures k < |replies| && replies[k] == Some(q[k]) {
      var y := q[k];
    }
    assert |p| == |q|;
    forall k | 0 <= k < |p| ensures p[k] == q[k] {
      var x, y := p[k], q[k];
      assert Some(x) == replies[k] == Some(y);
    }
  }

  /** A check turns its server into a leader: the list is no longer than the last one, every
      znode on it answers, and the least is the server's own, which an empty list is taken to
      be for a server without one. */
  predicate TakesLead(zkPath: Option<nat>, numChildren: nat, children: seq<nat>, replies: Replies) {
    |children| <= numChildren && Answered(replies, |children|) && Least(children) == zkPath
  }

  // ----- the cluster -----

  /** What the election reads and writes of one server. */
  datatype Member = Member(zkPath: Option<nat>, leader: bool, numChildren: nat, alive: bool)

  /** `seen` holds every set of znodes there has been: a child list may be out of date. */
  datatype Cluster = Cluster(servers: seq<Member>, znodes: set<nat>, nextSeq: nat, seen: set<set<nat>>)

  datatype Action =
    | Create(p: nat)
    | Check(p: nat, children: seq<nat>, replies: Replies, first: bool)
    | Die(p: nat)
    | Vanish(z: nat)

  ghost predicate Lists(children: seq<nat>, znodes: set<nat>) {
    && |children| == |znodes|
    && forall z :: z in children <==> z in znodes
  }

  /** No live server has this znode. */
  predicate Orphan(s: Cluster, z: nat) {
    forall p :: 0 <= p < |s.servers| && s.servers[p].alive ==> s.servers[p].zkPath != Some(z)
  }

  ghost predicate Enabled(s: Cluster, a: Action) {
    match a
    case Create(p) => p < |s.servers| && s.servers[p].alive && s.servers[p].zkPath == None
    case Check(p, children, _, first) =>
      && p < |s.servers| && s.servers[p].alive
      && (exists znodes :: znodes in s.seen && Lists(children, znodes))
      && (first ==> s.servers[p].zkPath.Some?)
    case Die(p) => p < |s.servers|
    case Vanish(z) => z in s.znodes && Orphan(s, z)
  }

  /** A check, either the first one or one by the watch. */
  function Checked(m: Member, children: seq<nat>, replies: Replies, first: bool): Member {
    var numChildren := if first then |children| else m.numChildren;
    m.(leader := m.leader || TakesLead(m.zkPath, numChildren, children, replies), numChildren := |children|)
  }

  ghost function Next(s: Cluster, a: Action): Cluster
    requires Enabled(s, a)
  {
    match a
    case Create(p) =>
      var m := s.servers[p];
      s.(servers := s.servers[p := m.(zkPath := Some(s.nextSeq))],
         znodes := s.znodes + {s.nextSeq}, nextSeq := s.nextSeq + 1, seen := s.seen + {s.znodes + {s.nextSeq}})
    case Check(p, children, replies, first) =>
      var m := s.servers[p];
      s.(servers := s.servers[p := Checked(m, children, replies, first)])
    case Die(p) => s.(servers := s.servers[p := s.servers[p].(alive := false)])
    case Vanish(z) => s.(znodes := s.znodes - {z}, seen := s.seen + {s.znodes - {z}})
  }

  predicate Initial(s: Cluster) {
    && s.znodes == {} && s.seen == {{}}
    && forall p :: 0 <= p < |s.servers| ==> s.servers[p] == Member(None, false, 0, true)
  }

  /** The excluded start-up case: a server that has no znode yet is shown an empty list. */
  ghost predicate EmptyStartUp(s: Cluster, a: Action) {
    a.Check? && a.p < |s.servers| && a.children == [] && s.servers[a.p].zkPath == None
  }

  // ----- safety -----

  predicate Live(s: Cluster, p: nat) {
    p < |s.servers| && s.servers[p].alive
  }

  predicate LiveAt(s: Cluster, p: nat, z: nat) {
    Live(s, p) && s.servers[p].zkPath == Some(z)
  }

  ghost predicate PathsOk(s: Cluster) {
    && (forall p :: 0 <= p < |s.servers| && s.servers[p].zkPath.Some? ==> s.servers[p].zkPath.value < s.nextSeq)
    && (forall p, q, z :: LiveAt(s, p, z) && LiveAt(s, q, z) ==> p == q)
    && (forall p, z :: LiveAt(s, p, z) ==> z in s.znodes)
    && s.znodes in s.seen
  }

  /** Any list that shows a znode shows every earlier one whose server is still alive. */
  ghost predicate SeenOk(s: Cluster) {
    && (forall znodes, z :: znodes in s.seen && z in znodes ==> z < s.nextSeq)
    && (forall znodes, z, p, y :: znodes in s.seen && z in znodes && LiveAt(s, p, y) && y <= z ==> y in znodes)
  }

  /** No live server has an earlier znode than a live leader. */
  ghost predicate LeadersOk(s: Cluster) {
    forall p: nat :: LiveLeader(s, p) ==>
      s.servers[p].zkPath.Some? && forall q, y :: LiveAt(s, q, y) ==> s.servers[p].zkPath.value <= y
  }

  predicate LiveLeader(s: Cluster, p: nat) {
    Live(s, p) && s.servers[p].leader
  }

  ghost predicate Inv(s: Cluster) {
    PathsOk(s) && SeenOk(s) && LeadersOk(s)
  }

  lemma OneLeader(s: Cluster, p: nat, q: nat)
    requires Inv(s) && LiveLeader(s, p) && LiveLeader(s, q)
    ensures p == q
  {
    assert LiveAt(s, p, s.servers[p].zkPath.value);
    assert LiveAt(s, q, s.servers[q].zkPath.value);
  }

  lemma InitialInv(s: Cluster)
    requires Initial(s)
    ensures Inv(s)
  {
  }

  lemma CreateInv(s: Cluster, p: nat)
    requires Inv(s) && Enabled(s, Create(p))
    ensures Inv(Next(s, Create(p)))
  {
    var t := Next(s, Create(p));
    forall q, y | LiveAt(t, q, y) ensures if q == p then y == s.nextSeq else LiveAt(s, q, y) {}
    forall q: nat | LiveLeader(t, q) ensures LiveLeader(s, q) {}
  }

  lemma CheckInv(s: Cluster, a: Action)
    requires Inv(s) && a.Check? && Enabled(s, a) && !EmptyStartUp(s, a)
    ensures Inv(Next(s, a))
  {
    var t := Next(s, a);
    forall q, y ensures LiveAt(t, q, y) == LiveAt(s, q, y) {}
    var znodes :| znodes in s.seen && Lists(a.children, znodes);
    forall q: nat | LiveLeader(t, q) && !LiveLeader(s, q)
      ensures t.servers[q].zkPath.Some? && forall r, y :: LiveAt(s, r, y) ==> t.servers[q].zkPath.value <= y
    {
      assert q == a.p && Least(a.children) == s.servers[q].zkPath;
      var z := s.servers[q].zkPath.value;
      assert z in znodes;
      forall r, y | LiveAt(s, r, y) ensures z <= y {
        assert y <= z ==> y in znodes;
      }
    }
  }

  lemma LossInv(s: Cluster, a: Action)
    requires Inv(s) && (a.Die? || a.Vanish?) && Enabled(s, a)
    ensures Inv(Next(s, a))
  {
    var t := Next(s, a);
    forall q, y | LiveAt(t, q, y) ensures LiveAt(s, q, y) {}
    forall q: nat | LiveLeader(t, q) ensures LiveLeader(s, q) {}
  }

  ghost predicate IsRun(states: seq<Cluster>, actions: seq<Action>) {
    && |states| == |actions| + 1 && Initial(states[0])
    && forall n :: 0 <= n < |actions| ==> StepOk(states[n], actions[n], states[n + 1])
  }

  ghost predicate StepOk(s: Cluster, a: Action, t: Cluster) {
    Enabled(s, a) && !EmptyStartUp(s, a) && t == Next(s, a)
  }

  lemma {:induction false} RunInv(states: seq<Cluster>, actions: seq<Action>, n: nat)
    requires IsRun(states, actions) && n < |states|
    ensures Inv(states[n])
  {
    if n == 0 {
      InitialInv(states[0]);
    } else {
      RunInv(states, actions, n - 1);
      var s, a := states[n - 1], actions[n - 1];
      assert StepOk(s, a, states[n]);
      if a.Create? { CreateInv(s, a.p); } else if a.Check? { CheckInv(s, a); } else { LossInv(s, a); }
    }
  }

  /** In every run in which no server without a znode is shown an empty list, there is at no
      time more than one live leader, however old the child lists are. */
  lemma AtMostOneLeader(states: seq<Cluster>, actions: seq<Action>, n: nat, p: nat, q: nat)
    requires IsRun(states, actions) && n < |states|
    requires LiveLeader(states[n], p) && LiveLeader(states[n], q)
    ensures p == q
  {
    RunInv(states, actions, n);
    OneLeader(states[n], p, q);
  }

  /** A server without a znode takes the lead exactly when it is shown an empty list. */
  lemma StartUpTakesLeadIff(m: Member, children: seq<nat>, replies: Replies)
    requires !m.leader && m.zkPath == None
    ensures Checked(m, children, replies, false).leader <==> children == []
  {
  }

  /** Two servers that start up so both lead. */
  lemma EmptyStartUpElectsTwo(s: Cluster, replies: Replies) returns (t: Cluster, u: Cluster)
    requires Initial(s) && |s.servers| >= 2
    ensures Enabled(s, Check(0, [], replies, false)) && t == Next(s, Check(0, [], replies, false))
    ensures Enabled(t, Check(1, [], replies, false)) && u == Next(t, Check(1, [], replies, false))
    ensures LiveLeader(u, 0) && LiveLeader(u, 1)
  {
    assert Lists([], {});
    t := Next(s, Check(0, [], replies, false));
    u := Next(t, Check(1, [], replies, false));
  }

  /** Shown the current znodes, a server takes the lead exactly when the list is no longer than
      its last one, every znode answers, and no earlier one is left. */
  lemma CurrentListTakesLeadIff(s: Cluster, p: nat, z: nat, children: seq<nat>, replies: Replies)
    requires Inv(s) && LiveAt(s, p, z) && !s.servers[p].leader && Lists(children, s.znodes)
    ensures Checked(s.servers[p], children, replies, false).leader
       <==> |s.znodes| <= s.servers[p].numChildren && Answered(replies, |children|) && forall y :: y in s.znodes ==> z <= y
  {
    assert z in children;
  }
}
