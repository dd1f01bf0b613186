/** What every step of the chat protocol keeps, over all runs. */
module ChatSafety {
  import opened ChatProtocol
  import opened Options
  import LinkedList

  lemma {:induction false} OthersOfLongerLog(log: seq<Msg>, more: seq<Msg>, id: nat, from: nat, to: nat)
    requires to <= |log|
    ensures Others(log + more, id, from, to) == Others(log, id, from, to)
  {
    if to > from { OthersOfLongerLog(log, more, id, from, to - 1); }
  }

  lemma {:induction false} RemoveElements(s: seq<nat>, x: nat)
    requires NoRepeats(s)
    ensures NoRepeats(LinkedList.Remove(s, x))
    ensures forall y :: y in LinkedList.Remove(s, x) <==> y in s && y != x
  {
    if s != [] {
      assert s[0] !in s[1..];
      if s[0] != x { RemoveElements(s[1..], x); }
    }
  }

  lemma InitialInv(s: State)
    requires Initial(s)
    ensures Inv(s)
  {
  }

  // ----- one lemma per step -----

  lemma QueueStepInv(s: State, a: Action)
    requires Inv(s) && Enabled(s, a) && (a.Enqueue? || a.Dequeue?)
    ensures Inv(Next(s, a))
  {
    var t := Next(s, a);
    if a.Dequeue? { assert s.queue == [s.queue[0]] + s.queue[1..]; }
    forall k | k in t.sessions ensures SessionOk(t, k) {
      assert SessionOk(s, k);
    }
  }

  lemma AppendInv(s: State)
    requires Inv(s) && Enabled(s, Append)
    ensures Inv(Next(s, Append))
  {
    var t := Next(s, Append);
    forall k | k in t.sessions ensures SessionOk(t, k) {
      var ses := s.sessions[k];
      assert SessionOk(s, k);
      var id := s.clients[ses.client].id;
      OthersOfLongerLog(s.log, [s.sender.m], id, ses.start, ses.seam);
      OthersOfLongerLog(s.log, [s.sender.m], id, ses.joined, ServedTo(s, ses));
    }
  }

  lemma BroadcastSession(s: State, unreachable: set<nat>, k: nat)
    requires Sane(s) && Enabled(s, Broadcast(unreachable)) && k in s.sessions && SessionOk(s, k)
    requires s.sessions[k].phase.Registered? <==> k in s.clients[s.sessions[k].client].sockets
    ensures SessionOk(Next(s, Broadcast(unreachable)), k)
  {
    var t := Next(s, Broadcast(unreachable));
    var ses := s.sessions[k];
    var c := s.clients[ses.client];
    assert t.sessions[k] == Delivered(s, unreachable, k);
    assert t.clients[ses.client] == Noted(c, s.log);
    if ses.phase.Registered? && !t.sessions[k].failed {
      var n := Broadcasted(s);
      assert Others(s.log, c.id, ses.joined, n + 1)
        == Others(s.log, c.id, ses.joined, n) + if s.log[n].id != c.id then [n] else [];
      assert ses.sent + [] == ses.sent;
    }
  }

  /** A session is registered exactly while its client's list has it. */
  lemma RegisteredIff(s: State, k: nat)
    requires SocketsOk(s) && k in s.sessions && s.sessions[k].client < |s.clients|
    ensures s.sessions[k].phase.Registered? <==> k in s.clients[s.sessions[k].client].sockets
  {
    if k in s.clients[s.sessions[k].client].sockets { assert RegisteredAt(s, s.sessions[k].client, k); }
  }

  lemma BroadcastSockets(s: State, unreachable: set<nat>)
    requires Sane(s) && SocketsOk(s) && LastReadsOk(s) && Enabled(s, Broadcast(unreachable))
    ensures SocketsOk(Next(s, Broadcast(unreachable))) && LastReadsOk(Next(s, Broadcast(unreachable)))
  {
    var t := Next(s, Broadcast(unreachable));
    forall i | 0 <= i < |t.clients| ensures t.clients[i].sockets == s.clients[i].sockets {
      assert t.clients[i] == Noted(s.clients[i], s.log);
    }
    forall i, k | 0 <= i < |t.clients| && k in t.clients[i].sockets ensures RegisteredAt(t, i, k) {
      assert RegisteredAt(s, i, k);
    }
  }

  lemma BroadcastInv(s: State, unreachable: set<nat>)
    requires Inv(s) && Enabled(s, Broadcast(unreachable))
    ensures Inv(Next(s, Broadcast(unreachable)))
  {
    var t := Next(s, Broadcast(unreachable));
    BroadcastSockets(s, unreachable);
    forall k | k in t.sessions ensures SessionOk(t, k) {
      RegisteredIff(s, k);
      BroadcastSession(s, unreachable, k);
    }
  }

  lemma FastForwardSession(s: State, a: Action, k: nat)
    requires Inv(s) && Enabled(s, a) && (a.FastForward? || a.FastForwardFails?) && k in Next(s, a).sessions
    ensures SessionOk(Next(s, a), k)
  {
    if k in s.sessions { assert SessionOk(s, k); }
  }

  lemma FastForwardSockets(s: State, a: Action)
    requires Inv(s) && Enabled(s, a) && (a.FastForward? || a.FastForwardFails?)
    ensures SocketsOk(Next(s, a)) && LastReadsOk(Next(s, a))
  {
    var t := Next(s, a);
    forall i, k | 0 <= i < |t.clients| && k in t.clients[i].sockets ensures RegisteredAt(t, i, k) {
      assert RegisteredAt(s, i, k);
    }
  }

  lemma FastForwardInv(s: State, a: Action)
    requires Inv(s) && Enabled(s, a) && (a.FastForward? || a.FastForwardFails?)
    ensures Inv(Next(s, a))
  {
    var t := Next(s, a);
    FastForwardSockets(s, a);
    forall k | k in t.sessions ensures SessionOk(t, k) {
      FastForwardSession(s, a, k);
    }
  }

  lemma AddConnectionSockets(s: State, k: nat)
    requires Inv(s) && Enabled(s, AddConnection(k))
    ensures SocketsOk(Next(s, AddConnection(k))) && LastReadsOk(Next(s, AddConnection(k)))
  {
    var t := Next(s, AddConnection(k));
    RegisteredIff(s, k);
    forall i, j | 0 <= i < |t.clients| && j in t.clients[i].sockets ensures RegisteredAt(t, i, j) {
      if j != k { assert RegisteredAt(s, i, j); }
    }
  }

  lemma ConnectionSession(s: State, a: Action, j: nat)
    requires Sane(s) && Enabled(s, a) && (a.AddConnection? || a.RemoveConnection?)
    requires j in s.sessions && SessionOk(s, j)
    ensures SessionOk(Next(s, a), j)
  {
  }

  lemma AddConnectionInv(s: State, k: nat)
    requires Inv(s) && Enabled(s, AddConnection(k))
    ensures Inv(Next(s, AddConnection(k)))
  {
    var t := Next(s, AddConnection(k));
    AddConnectionSockets(s, k);
    forall j | j in t.sessions ensures SessionOk(t, j) {
      ConnectionSession(s, AddConnection(k), j);
    }
  }

  lemma RemoveConnectionSockets(s: State, k: nat)
    requires Inv(s) && Enabled(s, RemoveConnection(k))
    ensures SocketsOk(Next(s, RemoveConnection(k))) && LastReadsOk(Next(s, RemoveConnection(k)))
  {
    var t := Next(s, RemoveConnection(k));
    RemoveElements(s.clients[s.sessions[k].client].sockets, k);
    forall i, j | 0 <= i < |t.clients| && j in t.clients[i].sockets ensures RegisteredAt(t, i, j) {
      assert RegisteredAt(s, i, j);
    }
  }

  lemma RemoveConnectionInv(s: State, k: nat)
    requires Inv(s) && Enabled(s, RemoveConnection(k))
    ensures Inv(Next(s, RemoveConnection(k)))
  {
    var t := Next(s, RemoveConnection(k));
    RemoveConnectionSockets(s, k);
    forall j | j in t.sessions ensures SessionOk(t, j) {
      ConnectionSession(s, RemoveConnection(k), j);
    }
  }

  /** Every step keeps the invariant. */
  lemma NextInv(s: State, a: Action)
    requires Inv(s) && Enabled(s, a)
    ensures Inv(Next(s, a))
  {
    match a
    case Enqueue(_) => QueueStepInv(s, a);
    case Dequeue => QueueStepInv(s, a);
    case Append => AppendInv(s);
    case Broadcast(unreachable) => BroadcastInv(s, unreachable);
    case FastForward(_, _) => FastForwardInv(s, a);
    case FastForwardFails(_, _, _) => FastForwardInv(s, a);
    case AddConnection(k) => AddConnectionInv(s, k);
    case RemoveConnection(k) => RemoveConnectionInv(s, k);
  }

  // ----- runs -----

  /** `states` is a run by the steps `actions`. */
  ghost predicate IsRun(states: seq<State>, actions: seq<Action>) {
    && |states| == |actions| + 1 && Initial(states[0])
    && forall n :: 0 <= n < |actions| ==> StepOk(states[n], actions[n], states[n + 1])
  }

  ghost predicate StepOk(s: State, a: Action, t: State) {
    Sane(s) && Enabled(s, a) && t == Next(s, a)
  }

  lemma {:induction false} RunInv(states: seq<State>, actions: seq<Action>, n: nat)
    requires IsRun(states, actions) && n < |states|
    ensures Inv(states[n])
  {
    if n == 0 {
      InitialInv(states[0]);
    } else {
      RunInv(states, actions, n - 1);
      assert StepOk(states[n - 1], actions[n - 1], states[n]);
      NextInv(states[n - 1], actions[n - 1]);
    }
  }

  /** `t` is no earlier than `s`: the log has only been appended to, broadcasts have only
      been completed, and no client's last read message has moved back. */
  ghost predicate NoEarlier(s: State, t: State) {
    && s.log <= t.log && Broadcasted(s) <= Broadcasted(t)
    && |s.clients| == |t.clients|
    && forall i :: 0 <= i < |s.clients| ==>
         s.clients[i].id == t.clients[i].id && ReadTo(s.clients[i]) <= ReadTo(t.clients[i])
  }

  /** How much of the log a client has read. */
  function ReadTo(c: Client): nat {
    match c.lastRead
    case None => 0
    case Some(n) => n + 1
  }

  lemma NextNoEarlier(s: State, a: Action)
    requires Inv(s) && Enabled(s, a)
    ensures NoEarlier(s, Next(s, a))
  {
    var t := Next(s, a);
    forall i | 0 <= i < |s.clients|
      ensures s.clients[i].id == t.clients[i].id && ReadTo(s.clients[i]) <= ReadTo(t.clients[i])
    {
      if a.Broadcast? { assert t.clients[i] == Noted(s.clients[i], s.log); }
    }
  }

  lemma StepNoEarlier(states: seq<State>, actions: seq<Action>, n: nat)
    requires IsRun(states, actions) && n < |actions|
    ensures NoEarlier(states[n], states[n + 1])
  {
    RunInv(states, actions, n);
    assert StepOk(states[n], actions[n], states[n + 1]);
    NextNoEarlier(states[n], actions[n]);
  }

  /** In every run, what was enqueued is the log, then what the sender holds, then the queue;
      the log is only appended to, and no client's last read message ever moves back. */
  lemma {:induction false} LogTheorem(states: seq<State>, actions: seq<Action>, m: nat, n: nat)
    requires IsRun(states, actions) && m <= n < |states|
    ensures Conserved(states[n])
    ensures NoEarlier(states[m], states[n])
    decreases n
  {
    RunInv(states, actions, n);
    hide NoEarlier, IsRun;
    if m < n {
      LogTheorem(states, actions, m, n - 1);
      StepNoEarlier(states, actions, n - 1);
      NoEarlierTransitive(states[m], states[n - 1], states[n]);
    }
  }

  lemma NoEarlierTransitive(s: State, t: State, u: State)
    requires NoEarlier(s, t) && NoEarlier(t, u)
    ensures NoEarlier(s, u)
  {
  }
}
