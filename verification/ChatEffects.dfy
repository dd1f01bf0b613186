/** What a step of the chat protocol does to one socket or one client, said outright: whom a
    broadcast reaches when sends fail, what a replay writes, and when a session can have failed. */
module ChatEffects {
  import LinkedList
  import opened ChatDelivery
  import opened ChatProtocol
  import opened ChatSafety
  import opened Options

  // ----- one broadcast -----

  /** A broadcast writes another client's message to every socket of a client that can be reached,
      whatever becomes of the client's other sockets; only the others have failed. */
  lemma BroadcastReaches(s: State, unreachable: set<nat>, i: nat, k: nat)
    requires Inv(s) && Enabled(s, Broadcast(unreachable)) && i < |s.clients| && k in s.clients[i].sockets
    ensures var t, last := Next(s, Broadcast(unreachable)), |s.log| - 1;
      && k in s.sessions && k in t.sessions
      && var ses := s.sessions[k];
         t.sessions[k] == if s.log[last].id == s.clients[i].id then ses
                          else if k in unreachable then ses.(failed := true)
                          else ses.(sent := ses.sent + [last])
  {
    assert RegisteredAt(s, i, k);
  }

  /** A session without a registered socket is left alone. */
  lemma BroadcastPasses(s: State, unreachable: set<nat>, k: nat)
    requires Inv(s) && Enabled(s, Broadcast(unreachable)) && k in s.sessions && !s.sessions[k].phase.Registered?
    ensures k in Next(s, Broadcast(unreachable)).sessions
    ensures Next(s, Broadcast(unreachable)).sessions[k] == s.sessions[k]
  {
    RegisteredIff(s, k);
  }

  /** To a client with a socket the message becomes the last read one, sent or not, its own too;
      nothing else about any client changes. */
  lemma BroadcastNotes(s: State, unreachable: set<nat>, i: nat)
    requires Inv(s) && Enabled(s, Broadcast(unreachable)) && i < |s.clients|
    ensures var t, c := Next(s, Broadcast(unreachable)), s.clients[i];
      && |t.clients| == |s.clients| && t.sessions.Keys == s.sessions.Keys
      && t.clients[i] == (if c.sockets == [] then c else c.(lastRead := Some(|s.log| - 1)))
      && t.log == s.log && t.queue == s.queue && t.enqueued == s.enqueued && t.sender == Idle
  {
    assert Next(s, Broadcast(unreachable)).clients[i] == Noted(s.clients[i], s.log);
  }

  // ----- one replay -----

  /** A replay writes the messages of others from the client's last read one on, that one
      included, in order, each once; then the end of the log is its last read one. */
  lemma ReplayWrites(s: State, i: nat, k: nat)
    requires Inv(s) && Enabled(s, FastForward(i, k))
    ensures var t, c := Next(s, FastForward(i, k)), s.clients[i];
      && k in t.sessions && t.sessions[k].client == i && t.sessions[k].phase.Forwarded? && !t.sessions[k].failed
      && (forall p: nat :: p in t.sessions[k].sent <==>
            p < |s.log| && s.log[p].id != c.id && (c.lastRead.Some? ==> c.lastRead.value <= p))
      && (forall x, y :: 0 <= x < y < |t.sessions[k].sent| ==> t.sessions[k].sent[x] < t.sessions[k].sent[y])
      && t.clients[i].lastRead == (if s.log == [] then None else Some(|s.log| - 1))
      && t.clients[i].sockets == c.sockets
  {
    var c := s.clients[i];
    var sent := Others(s.log, c.id, ReplayFrom(c), |s.log|);
    OthersRise(s.log, c.id, ReplayFrom(c), |s.log|);
    forall p: nat ensures p in sent <==> ReplayFrom(c) <= p < |s.log| && s.log[p].id != c.id {
      OthersMembers(s.log, c.id, ReplayFrom(c), |s.log|, p);
    }
  }

  /** A replay that breaks off has written a beginning of that and moves no last read message; the
      client's next replay starts over. */
  lemma FailedReplayStartsOver(s: State, i: nat, k: nat, written: nat, next: nat)
    requires Inv(s) && Enabled(s, FastForwardFails(i, k, written)) && next !in s.sessions && next != k
    ensures Enabled(s, FastForward(i, k))
    ensures var t, whole := Next(s, FastForwardFails(i, k, written)), Next(s, FastForward(i, k)).sessions[k].sent;
      && k in t.sessions && t.sessions[k].client == i && t.sessions[k].failed
      && written <= |whole| && t.sessions[k].sent == whole[..written]
      && t.clients[i].lastRead == s.clients[i].lastRead && t.clients[i].sockets == s.clients[i].sockets
      && Sane(t) && Enabled(t, FastForward(i, next)) && Next(t, FastForward(i, next)).sessions[next].sent == whole
  {
    NextInv(s, FastForwardFails(i, k, written));
  }

  // ----- registering and removing -----

  /** A socket is registered behind the client's others, and removing it leaves them in order. */
  lemma SocketsChange(s: State, k: nat, n: nat)
    requires Inv(s) && k in s.sessions && n <= |s.clients[s.sessions[k].client].sockets|
    ensures var i := s.sessions[k].client;
      s.sessions[k].phase.Forwarded? ==>
        && Enabled(s, AddConnection(k))
        && Next(s, AddConnection(k)).clients == s.clients[i := s.clients[i].(sockets := s.clients[i].sockets + [k])]
    ensures var i := s.sessions[k].client;
      var sockets := s.clients[i].sockets;
      s.sessions[k].phase.Registered? && n < |sockets| && sockets[n] == k ==>
        && Enabled(s, RemoveConnection(k))
        && Next(s, RemoveConnection(k)).clients == s.clients[i := s.clients[i].(sockets := sockets[..n] + sockets[n + 1..])]
  {
    var sockets := s.clients[s.sessions[k].client].sockets;
    if n < |sockets| && sockets[n] == k { LinkedList.RemoveFirst(sockets, k, n); }
  }

  // ----- what was enqueued -----

  /** The messages that some steps enqueue, in order. */
  function Offered(actions: seq<Action>): seq<Msg> {
    if actions == [] then []
    else Offered(actions[..|actions| - 1]) + match actions[|actions| - 1] case Enqueue(m) => [m] case _ => []
  }

  /** In every run, the messages enqueued so far are the log, then what the sender holds, then the
      queue. */
  lemma {:induction false} NothingLost(states: seq<State>, actions: seq<Action>, n: nat)
    requires IsRun(states, actions) && n < |states|
    ensures Offered(actions[..n]) ==
            states[n].log + (if states[n].sender.Holding? then [states[n].sender.m] else []) + states[n].queue
  {
    OfferedIsEnqueued(states, actions, n);
    RunInv(states, actions, n);
  }

  lemma {:induction false} OfferedIsEnqueued(states: seq<State>, actions: seq<Action>, n: nat)
    requires IsRun(states, actions) && n < |states|
    ensures states[n].enqueued == Offered(actions[..n])
  {
    if n > 0 {
      OfferedIsEnqueued(states, actions, n - 1);
      assert StepOk(states[n - 1], actions[n - 1], states[n]);
      assert actions[..n][..n - 1] == actions[..n - 1];
    }
  }

  lemma {:induction false} OfferedJoins(actions: seq<Action>, more: seq<Action>)
    ensures Offered(actions + more) == Offered(actions) + Offered(more)
    ensures forall m :: Offered([Enqueue(m)]) == [m]
  {
    if more == [] {
      assert actions + more == actions;
    } else {
      var last := |more| - 1;
      assert (actions + more)[..|actions + more| - 1] == actions + more[..last];
      OfferedJoins(actions, more[..last]);
    }
  }

  // ----- failed sessions -----

  /** The step finds the socket of session `k` unreachable: in its replay, or in a broadcast that
      has something to send to it. */
  predicate Fails(s: State, a: Action, k: nat) {
    match a
    case FastForwardFails(_, j, _) => j == k
    case Broadcast(unreachable) =>
      && k in unreachable && k in s.sessions && s.sessions[k].phase.Registered? && s.sessions[k].client < |s.clients|
      && s.log != [] && s.log[|s.log| - 1].id != s.clients[s.sessions[k].client].id
    case _ => false
  }

  ghost predicate FailsAt(states: seq<State>, actions: seq<Action>, m: nat, k: nat) {
    m < |actions| && m < |states| && Fails(states[m], actions[m], k)
  }

  lemma NextFailed(s: State, a: Action, k: nat)
    requires Sane(s) && SocketsOk(s) && Enabled(s, a)
    ensures Fails(s, a, k) ==> k in Next(s, a).sessions
    ensures k in s.sessions ==> k in Next(s, a).sessions
    ensures k in Next(s, a).sessions ==>
      (Next(s, a).sessions[k].failed <==> (k in s.sessions && s.sessions[k].failed) || Fails(s, a, k))
  {
    if a.Broadcast? && k in s.sessions {
      RegisteredIff(s, k);
      assert Next(s, a).sessions[k] == Delivered(s, a.unreachable, k);
    }
  }

  /** In every run a session has failed exactly when its own socket was once found unreachable. */
  lemma {:induction false} FailedIff(states: seq<State>, actions: seq<Action>, n: nat, k: nat)
    requires IsRun(states, actions) && n < |states|
    ensures (exists m :: 0 <= m < n && FailsAt(states, actions, m, k)) ==> k in states[n].sessions
    ensures k in states[n].sessions ==>
      (states[n].sessions[k].failed <==> exists m :: 0 <= m < n && FailsAt(states, actions, m, k))
  {
    if n > 0 {
      FailedIff(states, actions, n - 1, k);
      RunInv(states, actions, n - 1);
      var s, a := states[n - 1], actions[n - 1];
      assert StepOk(s, a, states[n]);
      NextFailed(s, a, k);
      hide Inv, Next, Fails, IsRun;
      assert FailsAt(states, actions, n - 1, k) <==> Fails(s, a, k);
      assert (exists m :: 0 <= m < n && FailsAt(states, actions, m, k)) <==>
        (exists m :: 0 <= m < n - 1 && FailsAt(states, actions, m, k)) || FailsAt(states, actions, n - 1, k);
    }
  }
}
