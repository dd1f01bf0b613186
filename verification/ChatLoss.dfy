/** How a message can miss a client for good: by falling between the replay and the registration
    of its socket, or by a send that fails. */
module ChatLoss {
  import opened ChatProtocol
  import opened ChatSafety
  import opened ChatDelivery
  import opened Options

  // ----- when a message can still arrive -----

  /** The message at `p` has been sent to some socket of client `i`. */
  ghost predicate Got(s: State, i: nat, p: nat) {
    exists k :: k in s.sessions && SentIn(s, i, p, k)
  }

  predicate SentIn(s: State, i: nat, p: nat, k: nat) {
    k in s.sessions && s.sessions[k].client == i && p in s.sessions[k].sent
  }

  /** Consecutive states of a run, from any state on. */
  ghost predicate IsPath(states: seq<State>, actions: seq<Action>) {
    && |states| == |actions| + 1
    && forall n :: 0 <= n < |actions| ==> StepOk(states[n], actions[n], states[n + 1])
  }

  /** Some way of going on from `s` gets the message at `p` to client `i`. */
  ghost predicate CanStillGet(s: State, i: nat, p: nat) {
    exists states, actions :: IsPath(states, actions) && states[0] == s && Got(states[|actions|], i, p)
  }

  lemma PrefixMembers(r: seq<nat>, n: nat, p: nat)
    requires n <= |r| && p !in r
    ensures p !in r[..n]
  {
  }

  /** A client that has read past a message that was broadcast and not sent to it is not sent it
      by the next step either. */
  lemma NextStillMissed(s: State, a: Action, i: nat, p: nat)
    requires Inv(s) && Enabled(s, a) && i < |s.clients| && p < Broadcasted(s)
    requires ReadTo(s.clients[i]) > p + 1 && !Got(s, i, p)
    ensures !Got(Next(s, a), i, p)
  {
    forall k | k in Next(s, a).sessions ensures !SentIn(Next(s, a), i, p, k) {
      if k in s.sessions { assert !SentIn(s, i, p, k); }
      NextSessionMisses(s, a, i, p, k);
    }
  }

  lemma NextSessionMisses(s: State, a: Action, i: nat, p: nat, k: nat)
    requires Sane(s) && Enabled(s, a) && i < |s.clients| && p < Broadcasted(s) && ReadTo(s.clients[i]) > p + 1
    requires k in s.sessions ==> !SentIn(s, i, p, k)
    ensures !SentIn(Next(s, a), i, p, k)
  {
    var t := Next(s, a);
    if k in s.sessions {
      if a.Broadcast? { assert t.sessions[k] == Delivered(s, a.unreachable, k); }
    } else if k in t.sessions && a.client == i {
      var r := Others(s.log, s.clients[i].id, ReplayFrom(s.clients[i]), |s.log|);
      OthersMembers(s.log, s.clients[i].id, ReplayFrom(s.clients[i]), |s.log|, p);
      if a.FastForwardFails? { PrefixMembers(r, a.written, p); }
    }
  }

  lemma {:induction false} PathStillMissed(states: seq<State>, actions: seq<Action>, n: nat, i: nat, p: nat)
    requires IsPath(states, actions) && n < |states|
    requires Inv(states[0]) && i < |states[0].clients| && p < Broadcasted(states[0])
    requires ReadTo(states[0].clients[i]) > p + 1 && !Got(states[0], i, p)
    ensures Inv(states[n]) && NoEarlier(states[0], states[n]) && !Got(states[n], i, p)
  {
    if n > 0 {
      PathStillMissed(states, actions, n - 1, i, p);
      var s, a := states[n - 1], actions[n - 1];
      assert StepOk(s, a, states[n]);
      NextInv(s, a);
      NextNoEarlier(s, a);
      NoEarlierTransitive(states[0], s, states[n]);
      NextStillMissed(s, a, i, p);
    }
  }

  lemma {:induction false} Bound(ks: set<nat>) returns (b: nat)
    ensures forall k :: k in ks ==> k < b
    decreases |ks|
  {
    if ks == {} {
      b := 0;
    } else {
      var k :| k in ks;
      b := Bound(ks - {k});
      b := if b <= k then k + 1 else b;
      assert forall j :: j in ks ==> j == k || j in ks - {k};
    }
  }

  lemma ReplayGets(s: State, i: nat, k: nat, p: nat)
    requires Inv(s) && i < |s.clients| && k !in s.sessions && p < |s.log| && s.log[p].id != s.clients[i].id
    requires ReadTo(s.clients[i]) <= p + 1
    ensures Enabled(s, FastForward(i, k)) && Got(Next(s, FastForward(i, k)), i, p)
  {
    OthersMembers(s.log, s.clients[i].id, ReplayFrom(s.clients[i]), |s.log|, p);
    assert SentIn(Next(s, FastForward(i, k)), i, p, k);
  }

  /** Let another client's message have been broadcast without being sent to any socket of client
      `i`, because it fell into a window, because a send failed, or because the client was away. It
      can still arrive if and only if the client has not read past it: a replay starts at the last
      read message itself, and no message is broadcast twice. */
  lemma CanStillGetIff(s: State, i: nat, p: nat)
    requires Inv(s) && i < |s.clients| && p < Broadcasted(s) && s.log[p].id != s.clients[i].id
    requires !Got(s, i, p)
    ensures CanStillGet(s, i, p) <==> ReadTo(s.clients[i]) <= p + 1
  {
    if ReadTo(s.clients[i]) <= p + 1 {
      var k := Bound(s.sessions.Keys);
      ReplayGets(s, i, k, p);
      var states, actions := [s, Next(s, FastForward(i, k))], [FastForward(i, k)];
      assert StepOk(states[0], actions[0], states[1]);
      assert IsPath(states, actions) && states[0] == s && Got(states[|actions|], i, p);
    } else {
      forall states, actions | IsPath(states, actions) && states[0] == s ensures !Got(states[|actions|], i, p) {
        PathStillMissed(states, actions, |actions|, i, p);
      }
    }
  }

  // ----- a send that fails -----

  /** A broadcast none of whose sends to a client arrives is not lost yet: it is the client's last
      read message, so a reconnect would bring it. */
  lemma FailedSendCanBeMadeUp(s: State, unreachable: set<nat>, i: nat)
    requires Inv(s) && Enabled(s, Broadcast(unreachable)) && i < |s.clients|
    requires s.clients[i].sockets != [] && forall k :: k in s.clients[i].sockets ==> k in unreachable
    requires s.log[|s.log| - 1].id != s.clients[i].id && !Got(s, i, |s.log| - 1)
    ensures var t, p := Next(s, Broadcast(unreachable)), |s.log| - 1;
      t.clients[i].lastRead == Some(p) && !Got(t, i, p) && CanStillGet(t, i, p)
  {
    var t, p := Next(s, Broadcast(unreachable)), |s.log| - 1;
    NextInv(s, Broadcast(unreachable));
    assert t.clients[i] == Noted(s.clients[i], s.log);
    forall k | k in t.sessions ensures !SentIn(t, i, p, k) {
      assert t.sessions[k] == Delivered(s, unreachable, k) && !SentIn(s, i, p, k);
    }
    CanStillGetIff(t, i, p);
  }

  /** The next broadcast while the client has a socket, whether it arrives or not, loses an earlier
      message that was not sent to the client for good. */
  lemma NextBroadcastLoses(s: State, unreachable: set<nat>, i: nat, p: nat)
    requires Inv(s) && Enabled(s, Broadcast(unreachable)) && i < |s.clients| && s.clients[i].sockets != []
    requires p < Broadcasted(s) && s.log[p].id != s.clients[i].id && !Got(s, i, p)
    ensures !Got(Next(s, Broadcast(unreachable)), i, p) && !CanStillGet(Next(s, Broadcast(unreachable)), i, p)
  {
    var t := Next(s, Broadcast(unreachable));
    NextInv(s, Broadcast(unreachable));
    assert t.clients[i] == Noted(s.clients[i], s.log);
    forall k | k in t.sessions ensures !SentIn(t, i, p, k) {
      assert t.sessions[k] == Delivered(s, unreachable, k) && !SentIn(s, i, p, k);
    }
    CanStillGetIff(t, i, p);
  }

  // ----- a message in the window -----

  const CONN: nat := 1

  /** How often a client with this id has announced a connection. */
  function Connects(enqueued: seq<Msg>, id: nat): nat {
    if enqueued == [] then 0
    else Connects(enqueued[..|enqueued| - 1], id)
         + if enqueued[|enqueued| - 1].kind == CONN && enqueued[|enqueued| - 1].id == id then 1 else 0
  }

  /** A listener thread is there to take the step: a connection is announced with the id of a known
      client, and before its replay; anything else is received on a registered socket. */
  ghost predicate ByListener(s: State, a: Action) {
    match a
    case Enqueue(m) =>
      if m.kind == CONN then exists i :: 0 <= i < |s.clients| && s.clients[i].id == m.id
      else exists k :: k in s.sessions && HeardFrom(s, k, m.id)
    case FastForward(i, _) => i < |s.clients| && |s.clients[i].visits| < Connects(s.enqueued, s.clients[i].id)
    case FastForwardFails(i, _, _) => i < |s.clients| && |s.clients[i].visits| < Connects(s.enqueued, s.clients[i].id)
    case _ => true
  }

  predicate HeardFrom(s: State, k: nat, id: nat) {
    && k in s.sessions && s.sessions[k].phase.Registered?
    && s.sessions[k].client < |s.clients| && s.clients[s.sessions[k].client].id == id
  }

  /** The steps lead from `s` to `t`, each with a thread to take it. */
  ghost predicate Leads(s: State, actions: seq<Action>, t: State)
    decreases |actions|
  {
    if actions == [] then s == t
    else Sane(s) && Enabled(s, actions[0]) && ByListener(s, actions[0]) && Leads(Next(s, actions[0]), actions[1..], t)
  }

  lemma {:induction false} LeadsOn(s: State, first: seq<Action>, t: State, later: seq<Action>, u: State)
    requires Leads(s, first, t) && Leads(t, later, u)
    ensures Leads(s, first + later, u)
    decreases |first|
  {
    if first == [] {
      assert first + later == later;
    } else {
      assert (first + later)[1..] == first[1..] + later;
      LeadsOn(Next(s, first[0]), first[1..], t, later, u);
    }
  }

  /** The sender thread takes the next message all the way through. */
  const DELIVER: seq<Action> := [Dequeue, Append, Broadcast({})]

  /** What that does when there are two clients, and sessions 7 and 8 at most. */
  lemma Delivers(s: State, t: State)
    requires s.sender == Idle && s.queue != [] && |s.clients| == 2 && Sane(s)
    requires forall k :: k in s.sessions ==> s.sessions[k].client < 2
    requires var log := s.log + [s.queue[0]];
      && t.enqueued == s.enqueued && t.queue == s.queue[1..] && t.sender == Idle && t.log == log
      && t.clients == [Noted(s.clients[0], log), Noted(s.clients[1], log)]
      && t.sessions.Keys == s.sessions.Keys
      && forall k :: k in s.sessions ==> t.sessions[k] == Delivered(s.(log := log), {}, k)
    ensures Leads(s, DELIVER, t)
  {
    var s1 := Next(s, Dequeue);
    var s2 := Next(s1, Append);
    var s3 := Next(s2, Broadcast({}));
    assert s3.clients == t.clients;
    assert s3.sessions == t.sessions;
    assert DELIVER[1..][1..] == [Broadcast({})];
    assert Leads(s2, [Broadcast({})], t);
    assert Leads(s1, DELIVER[1..], t);
  }

  /** The states that such steps go through are a run. */
  lemma {:induction false} LeadsIsRun(s: State, actions: seq<Action>, t: State) returns (states: seq<State>)
    requires Leads(s, actions, t)
    ensures |states| == |actions| + 1 && states[0] == s && states[|actions|] == t
    ensures forall n :: 0 <= n < |actions| ==>
      StepOk(states[n], actions[n], states[n + 1]) && ByListener(states[n], actions[n])
    decreases |actions|
  {
    if actions == [] {
      states := [s];
    } else {
      var later := LeadsIsRun(Next(s, actions[0]), actions[1..], t);
      states := [s] + later;
      forall n | 0 <= n < |actions|
        ensures StepOk(states[n], actions[n], states[n + 1]) && ByListener(states[n], actions[n])
      {
        if n > 0 { assert StepOk(later[n - 1], actions[1..][n - 1], later[n]); }
      }
    }
  }

  lemma One(s: State, a: Action, t: State)
    requires Sane(s) && Enabled(s, a) && ByListener(s, a) && t == Next(s, a)
    ensures Leads(s, [a], t)
  {
    assert [a][1..] == [];
  }

  const HELLO_1 := Msg(1, CONN, "")
  const HELLO_2 := Msg(2, CONN, "")
  const LOST := Msg(2, 0, "lost")
  const KEPT := Msg(2, 0, "kept")

  /** Client 1 reads, client 2 talks in its session 8; what is in the queue and in the log adds up
      to what has been enqueued. */
  function Scene(queue: seq<Msg>, log: seq<Msg>, reader: Client, talker: Client, sessions: map<nat, Session>): State {
    State(log + queue, queue, Idle, log, [reader, talker], sessions)
  }

  function Talker(read: Option<nat>): Client {
    Client(2, [8], read, [8])
  }

  function TalkerSession(sent: seq<nat>): Session {
    Session(1, Registered, sent, false, 0, 0, 0, 0)
  }

  /** Client 1 connects in session 7: replayed a log of two messages, registered after a third. */
  function ReaderSession(phase: Phase, sent: seq<nat>): Session {
    Session(0, phase, sent, false, 0, 2, if phase.Forwarded? then 0 else 3, 0)
  }

  const AWAY := Client(1, [], None, [])
  const REPLAYED := Client(1, [], Some(1), [7])
  const NEW_TALKER := Client(2, [], None, [])

  /** Client 2 announces itself, is replayed the empty log and registered; client 1 announces itself. */
  const GREET: seq<Action> := [Enqueue(HELLO_2)] + [FastForward(1, 8)] + [AddConnection(8)] + [Enqueue(HELLO_1)]

  /** Client 1 is replayed the log, and client 2 says something. */
  const REPLAY: seq<Action> := [FastForward(0, 7)] + [Enqueue(LOST)]

  /** Client 1 is registered, and client 2 says something else. */
  const REGISTER: seq<Action> := [AddConnection(7)] + [Enqueue(KEPT)]

  const LOSING: seq<Action> := GREET + (DELIVER + DELIVER) + (REPLAY + DELIVER) + REGISTER + DELIVER

  /** Either client announces itself. */
  lemma Announce(queue: seq<Msg>, reader: Client, talker: Client, sessions: map<nat, Session>, m: Msg)
    requires m.kind == CONN && (m.id == reader.id || m.id == talker.id)
    requires forall k :: k in sessions ==> sessions[k].client < 2
    ensures Leads(Scene(queue, [], reader, talker, sessions), [Enqueue(m)], Scene(queue + [m], [], reader, talker, sessions))
  {
    var s, t := Scene(queue, [], reader, talker, sessions), Scene(queue + [m], [], reader, talker, sessions);
    assert s.clients[0] == reader && s.clients[1] == talker;
    assert [] + queue + [m] == [] + (queue + [m]);
    One(s, Enqueue(m), t);
  }

  /** Client 2 connects. */
  lemma TalkerConnects()
    ensures Leads(Scene([], [], AWAY, NEW_TALKER, map[]), [Enqueue(HELLO_2)] + [FastForward(1, 8)] + [AddConnection(8)],
                  Scene([HELLO_2], [], AWAY, Talker(None), map[8 := TalkerSession([])]))
  {
    hide Leads;
    var s0 := Scene([], [], AWAY, NEW_TALKER, map[]);
    var s1 := Scene([HELLO_2], [], AWAY, NEW_TALKER, map[]);
    var s2 := Scene([HELLO_2], [], AWAY, NEW_TALKER.(visits := [8]),
                    map[8 := Session(1, Forwarded, [], false, 0, 0, 0, 0)]);
    var s3 := Scene([HELLO_2], [], AWAY, Talker(None), map[8 := TalkerSession([])]);
    Announce([], AWAY, NEW_TALKER, map[], HELLO_2);
    assert [] + [HELLO_2] == [HELLO_2];
    assert Connects([HELLO_2], 2) == 1 by {
      assert [HELLO_2][..0] == [];
    }
    assert NEW_TALKER.visits + [8] == [8] && NEW_TALKER.sockets + [8] == [8];
    assert s2.clients == s1.clients[1 := NEW_TALKER.(visits := [8])];
    One(s1, FastForward(1, 8), s2);
    assert s3.clients == s2.clients[1 := Talker(None)];
    One(s2, AddConnection(8), s3);
    LeadsOn(s0, [Enqueue(HELLO_2)], s1, [FastForward(1, 8)], s2);
    LeadsOn(s0, [Enqueue(HELLO_2)] + [FastForward(1, 8)], s2, [AddConnection(8)], s3);
  }

  lemma Greets()
    ensures Leads(Scene([], [], AWAY, NEW_TALKER, map[]), GREET,
                  Scene([HELLO_2, HELLO_1], [], AWAY, Talker(None), map[8 := TalkerSession([])]))
  {
    var s := Scene([HELLO_2], [], AWAY, Talker(None), map[8 := TalkerSession([])]);
    var t := Scene([HELLO_2, HELLO_1], [], AWAY, Talker(None), map[8 := TalkerSession([])]);
    TalkerConnects();
    Announce([HELLO_2], AWAY, Talker(None), map[8 := TalkerSession([])], HELLO_1);
    assert [HELLO_2] + [HELLO_1] == [HELLO_2, HELLO_1];
    LeadsOn(Scene([], [], AWAY, NEW_TALKER, map[]), [Enqueue(HELLO_2)] + [FastForward(1, 8)] + [AddConnection(8)],
            s, [Enqueue(HELLO_1)], t);
  }

  /** The two announcements go through: client 2 is sent the other's. */
  lemma GreetingsGoOut()
    ensures Leads(Scene([HELLO_2, HELLO_1], [], AWAY, Talker(None), map[8 := TalkerSession([])]), DELIVER + DELIVER,
                  Scene([], [HELLO_2, HELLO_1], AWAY, Talker(Some(1)), map[8 := TalkerSession([1])]))
  {
    FirstGreeting();
    SecondGreeting();
    LeadsOn(Scene([HELLO_2, HELLO_1], [], AWAY, Talker(None), map[8 := TalkerSession([])]), DELIVER,
            Scene([HELLO_1], [HELLO_2], AWAY, Talker(Some(0)), map[8 := TalkerSession([])]), DELIVER,
            Scene([], [HELLO_2, HELLO_1], AWAY, Talker(Some(1)), map[8 := TalkerSession([1])]));
  }

  lemma FirstGreeting()
    ensures Leads(Scene([HELLO_2, HELLO_1], [], AWAY, Talker(None), map[8 := TalkerSession([])]), DELIVER,
                  Scene([HELLO_1], [HELLO_2], AWAY, Talker(Some(0)), map[8 := TalkerSession([])]))
  {
    hide Leads;
    Delivers(Scene([HELLO_2, HELLO_1], [], AWAY, Talker(None), map[8 := TalkerSession([])]),
             Scene([HELLO_1], [HELLO_2], AWAY, Talker(Some(0)), map[8 := TalkerSession([])]));
  }

  lemma SecondGreeting()
    ensures Leads(Scene([HELLO_1], [HELLO_2], AWAY, Talker(Some(0)), map[8 := TalkerSession([])]), DELIVER,
                  Scene([], [HELLO_2, HELLO_1], AWAY, Talker(Some(1)), map[8 := TalkerSession([1])]))
  {
    hide Leads;
    assert [] + [1] == [1];
    Delivers(Scene([HELLO_1], [HELLO_2], AWAY, Talker(Some(0)), map[8 := TalkerSession([])]),
             Scene([], [HELLO_2, HELLO_1], AWAY, Talker(Some(1)), map[8 := TalkerSession([1])]));
  }

  /** Client 1 is replayed both, and the next message goes out before its socket is registered. */
  lemma WindowOpens()
    ensures Leads(Scene([], [HELLO_2, HELLO_1], AWAY, Talker(Some(1)), map[8 := TalkerSession([1])]), REPLAY + DELIVER,
                  Scene([], [HELLO_2, HELLO_1, LOST], REPLAYED, Talker(Some(2)),
                        map[8 := TalkerSession([1]), 7 := ReaderSession(Forwarded, [0])]))
  {
    Replays();
    GoesOutUnheard();
    LeadsOn(Scene([], [HELLO_2, HELLO_1], AWAY, Talker(Some(1)), map[8 := TalkerSession([1])]), REPLAY,
            Scene([LOST], [HELLO_2, HELLO_1], REPLAYED, Talker(Some(1)),
                  map[8 := TalkerSession([1]), 7 := ReaderSession(Forwarded, [0])]), DELIVER,
            Scene([], [HELLO_2, HELLO_1, LOST], REPLAYED, Talker(Some(2)),
                  map[8 := TalkerSession([1]), 7 := ReaderSession(Forwarded, [0])]));
  }

  lemma Replays()
    ensures Leads(Scene([], [HELLO_2, HELLO_1], AWAY, Talker(Some(1)), map[8 := TalkerSession([1])]), REPLAY,
                  Scene([LOST], [HELLO_2, HELLO_1], REPLAYED, Talker(Some(1)),
                        map[8 := TalkerSession([1]), 7 := ReaderSession(Forwarded, [0])]))
  {
    hide Leads;
    var s := Scene([], [HELLO_2, HELLO_1], AWAY, Talker(Some(1)), map[8 := TalkerSession([1])]);
    var both := map[8 := TalkerSession([1]), 7 := ReaderSession(Forwarded, [0])];
    var t := Scene([], [HELLO_2, HELLO_1], REPLAYED, Talker(Some(1)), both);
    var u := Scene([LOST], [HELLO_2, HELLO_1], REPLAYED, Talker(Some(1)), both);
    ReplayOfGreetings();
    assert AWAY.visits + [7] == [7];
    assert t.clients == s.clients[0 := REPLAYED];
    One(s, FastForward(0, 7), t);
    assert HeardFrom(t, 8, 2);
    One(t, Enqueue(LOST), u);
    LeadsOn(s, [FastForward(0, 7)], t, [Enqueue(LOST)], u);
  }

  lemma GoesOutUnheard()
    ensures Leads(Scene([LOST], [HELLO_2, HELLO_1], REPLAYED, Talker(Some(1)),
                        map[8 := TalkerSession([1]), 7 := ReaderSession(Forwarded, [0])]), DELIVER,
                  Scene([], [HELLO_2, HELLO_1, LOST], REPLAYED, Talker(Some(2)),
                        map[8 := TalkerSession([1]), 7 := ReaderSession(Forwarded, [0])]))
  {
    hide Leads;
    var both := map[8 := TalkerSession([1]), 7 := ReaderSession(Forwarded, [0])];
    Delivers(Scene([LOST], [HELLO_2, HELLO_1], REPLAYED, Talker(Some(1)), both),
             Scene([], [HELLO_2, HELLO_1, LOST], REPLAYED, Talker(Some(2)), both));
  }

  lemma ReplayOfGreetings()
    ensures Others([HELLO_2, HELLO_1], 1, 0, 2) == [0]
    ensures Connects([HELLO_2, HELLO_1], 1) == 1
  {
    assert Others([HELLO_2, HELLO_1], 1, 0, 0) == [];
    assert Others([HELLO_2, HELLO_1], 1, 0, 1) == [0];
    assert [HELLO_2, HELLO_1][..1] == [HELLO_2] && [HELLO_2][..0] == [];
    assert Connects([HELLO_2], 1) == Connects([], 1) == 0;
  }

  /** The socket is registered, and the next message is enqueued. */
  lemma Registers()
    ensures Leads(Scene([], [HELLO_2, HELLO_1, LOST], REPLAYED, Talker(Some(2)),
                        map[8 := TalkerSession([1]), 7 := ReaderSession(Forwarded, [0])]), REGISTER,
                  Scene([KEPT], [HELLO_2, HELLO_1, LOST], REPLAYED.(sockets := [7]), Talker(Some(2)),
                        map[8 := TalkerSession([1]), 7 := ReaderSession(Registered, [0])]))
  {
    var log, reader := [HELLO_2, HELLO_1, LOST], REPLAYED.(sockets := [7]);
    var s := Scene([], log, REPLAYED, Talker(Some(2)), map[8 := TalkerSession([1]), 7 := ReaderSession(Forwarded, [0])]);
    var both := map[8 := TalkerSession([1]), 7 := ReaderSession(Registered, [0])];
    var t := Scene([], log, reader, Talker(Some(2)), both);
    var u := Scene([KEPT], log, reader, Talker(Some(2)), both);
    assert REPLAYED.sockets + [7] == [7];
    assert t.clients == s.clients[0 := reader];
    One(s, AddConnection(7), t);
    assert HeardFrom(t, 8, 2);
    One(t, Enqueue(KEPT), u);
    LeadsOn(s, [AddConnection(7)], t, [Enqueue(KEPT)], u);
  }

  /** That message arrives. */
  lemma LaterMessageArrives()
    ensures Leads(Scene([KEPT], [HELLO_2, HELLO_1, LOST], REPLAYED.(sockets := [7]), Talker(Some(2)),
                        map[8 := TalkerSession([1]), 7 := ReaderSession(Registered, [0])]), DELIVER,
                  Scene([], [HELLO_2, HELLO_1, LOST, KEPT], Client(1, [7], Some(3), [7]), Talker(Some(3)),
                        map[8 := TalkerSession([1]), 7 := ReaderSession(Registered, [0, 3])]))
  {
    var reader := REPLAYED.(sockets := [7]);
    var s := Scene([KEPT], [HELLO_2, HELLO_1, LOST], reader, Talker(Some(2)),
                   map[8 := TalkerSession([1]), 7 := ReaderSession(Registered, [0])]);
    var t := Scene([], [HELLO_2, HELLO_1, LOST, KEPT], reader.(lastRead := Some(3)), Talker(Some(3)),
                   map[8 := TalkerSession([1]), 7 := ReaderSession(Registered, [0, 3])]);
    assert [0] + [3] == [0, 3];
    Delivers(s, t);
  }

  lemma LosingPath()
    ensures Leads(Scene([], [], AWAY, NEW_TALKER, map[]), LOSING,
                  Scene([], [HELLO_2, HELLO_1, LOST, KEPT], Client(1, [7], Some(3), [7]), Talker(Some(3)),
                        map[8 := TalkerSession([1]), 7 := ReaderSession(Registered, [0, 3])]))
  {
    Greets();
    GreetingsGoOut();
    WindowOpens();
    Registers();
    LaterMessageArrives();
    FiveParts(Scene([], [], AWAY, NEW_TALKER, map[]), GREET,
              Scene([HELLO_2, HELLO_1], [], AWAY, Talker(None), map[8 := TalkerSession([])]), DELIVER + DELIVER,
              Scene([], [HELLO_2, HELLO_1], AWAY, Talker(Some(1)), map[8 := TalkerSession([1])]), REPLAY + DELIVER,
              Scene([], [HELLO_2, HELLO_1, LOST], REPLAYED, Talker(Some(2)),
                    map[8 := TalkerSession([1]), 7 := ReaderSession(Forwarded, [0])]), REGISTER,
              Scene([KEPT], [HELLO_2, HELLO_1, LOST], REPLAYED.(sockets := [7]), Talker(Some(2)),
                    map[8 := TalkerSession([1]), 7 := ReaderSession(Registered, [0])]), DELIVER,
              Scene([], [HELLO_2, HELLO_1, LOST, KEPT], Client(1, [7], Some(3), [7]), Talker(Some(3)),
                    map[8 := TalkerSession([1]), 7 := ReaderSession(Registered, [0, 3])]));
  }

  /** The window matters: client 2's message at position 2 is appended and broadcast between the
      replay and the registration of client 1's socket and is never sent to it, and client 1's last
      read message has moved past it, so that nothing that can follow will send it either. */
  lemma WindowCanLose() returns (states: seq<State>)
    ensures IsRun(states, LOSING) && forall n :: 0 <= n < |LOSING| ==> ByListener(states[n], LOSING[n])
    ensures states[|LOSING|] ==
      State([HELLO_2, HELLO_1, LOST, KEPT], [], Idle, [HELLO_2, HELLO_1, LOST, KEPT],
            [Client(1, [7], Some(3), [7]), Client(2, [8], Some(3), [8])],
            map[8 := Session(1, Registered, [1], false, 0, 0, 0, 0), 7 := Session(0, Registered, [0, 3], false, 0, 2, 3, 0)])
    ensures !CanStillGet(states[|LOSING|], 0, 2)
  {
    var s := Scene([], [], AWAY, NEW_TALKER, map[]);
    var t := Scene([], [HELLO_2, HELLO_1, LOST, KEPT], Client(1, [7], Some(3), [7]), Talker(Some(3)),
                   map[8 := TalkerSession([1]), 7 := ReaderSession(Registered, [0, 3])]);
    LosingPath();
    states := LeadsIsRun(s, LOSING, t);
    RunInv(states, LOSING, |LOSING|);
    LostToReader(t);
  }

  lemma LostToReader(s: State)
    requires Inv(s) && s.sender == Idle && s.log == [HELLO_2, HELLO_1, LOST, KEPT]
    requires s.clients == [Client(1, [7], Some(3), [7]), Talker(Some(3))]
    requires s.sessions == map[8 := TalkerSession([1]), 7 := ReaderSession(Registered, [0, 3])]
    ensures !CanStillGet(s, 0, 2)
  {
    assert !Got(s, 0, 2);
    CanStillGetIff(s, 0, 2);
  }

  lemma FiveParts(s: State, a: seq<Action>, t: State, b: seq<Action>, u: State, c: seq<Action>, v: State,
                  d: seq<Action>, w: State, e: seq<Action>, x: State)
    requires Leads(s, a, t) && Leads(t, b, u) && Leads(u, c, v) && Leads(v, d, w) && Leads(w, e, x)
    ensures Leads(s, a + b + c + d + e, x)
  {
    LeadsOn(s, a, t, b, u);
    LeadsOn(s, a + b, u, c, v);
    LeadsOn(s, a + b + c, v, d, w);
    LeadsOn(s, a + b + c + d, w, e, x);
  }
}
