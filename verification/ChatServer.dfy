/** The critical sections of `server.c` as they are written: loops over the clients, their
    sockets and the log, updating fields in place. Each is one step of the protocol. */
module ChatServer {
  import opened ChatProtocol
  import opened Options
  import opened ChatSafety
  import LinkedList

  class ClientNode {
    const id: nat
    var sockets: seq<nat>
    var lastRead: Option<nat>
    ghost var visits: seq<nat>

    constructor (id: nat)
      ensures this.id == id && Value() == Client(id, [], None, [])
    {
      this.id := id;
      sockets, lastRead, visits := [], None, [];
    }

    ghost function Value(): Client
      reads this
    {
      Client(id, sockets, lastRead, visits)
    }
  }

  ghost function Values(nodes: seq<ClientNode>): (r: seq<Client>)
    reads nodes
    ensures |r| == |nodes| && forall i :: 0 <= i < |nodes| ==> r[i] == nodes[i].Value()
  {
    if nodes == [] then [] else Values(nodes[..|nodes| - 1]) + [nodes[|nodes| - 1].Value()]
  }

  class Server {
    var clients: seq<ClientNode>
    var log: seq<Msg>
    var queue: seq<Msg>
    /** What has been written to each socket, with the session's history. */
    var sessions: map<nat, Session>
    /** Where the sender thread stands. */
    var sender: Sender
    ghost var enqueued: seq<Msg>

    ghost function View(): State
      reads this, clients
    {
      State(enqueued, queue, sender, log, Values(clients), sessions)
    }

    ghost predicate Valid()
      reads this, clients
    {
      && (forall i, j :: 0 <= i < j < |clients| ==> clients[i] != clients[j])
      && Inv(View())
    }

    constructor (ids: seq<nat>)
      ensures Valid() && Initial(View())
      ensures |clients| == |ids| && forall i :: 0 <= i < |ids| ==> clients[i].id == ids[i]
    {
      var nodes: seq<ClientNode> := [];
      for i := 0 to |ids|
        invariant |nodes| == i && fresh(nodes)
        invariant forall j :: 0 <= j < i ==> nodes[j].id == ids[j] && nodes[j].Value() == Client(ids[j], [], None, [])
        invariant forall a, b :: 0 <= a < b < i ==> nodes[a] != nodes[b]
      {
        var c := new ClientNode(ids[i]);
        nodes := nodes + [c];
      }
      clients := nodes;
      log, queue, sessions := [], [], map[];
      enqueued, sender := [], Idle;
      new;
      InitialInv(View());
    }

    /** A listener hands a message to the sender. */
    method EnqueueMessage(m: Msg)
      requires Valid()
      modifies this`queue, this`enqueued
      ensures Valid() && View() == Next(old(View()), Enqueue(m))
      ensures queue == old(queue) + [m]
    {
      NextInv(View(), Enqueue(m));
      queue := queue + [m];
      enqueued := enqueued + [m];
    }

    method DequeueMessage() returns (m: Msg)
      requires Valid() && sender.Idle? && queue != []
      modifies this`queue, this`sender
      ensures Valid() && View() == Next(old(View()), Dequeue) && sender == Holding(m)
      ensures [m] + queue == old(queue)
    {
      NextInv(View(), Dequeue);
      m := queue[0];
      queue := queue[1..];
      sender := Holding(m);
    }

    method AppendToLog(m: Msg)
      requires Valid() && sender == Holding(m)
      modifies this`log, this`sender
      ensures Valid() && View() == Next(old(View()), Append)
      ensures log == old(log) + [m] && sender == Appended(m)
    {
      NextInv(View(), Append);
      log := log + [m];
      sender := Appended(m);
    }

    /** `send_message` of the log entry at `pos`; it fails for an unreachable socket. */
    method Send(k: nat, pos: nat, unreachable: set<nat>) returns (ok: bool)
      requires k in sessions
      modifies this`sessions
      ensures ok == (k !in unreachable)
      ensures sessions == old(sessions)[k := if ok then old(sessions[k]).(sent := old(sessions[k].sent) + [pos])
                                            else old(sessions[k]).(failed := true)]
    {
      ok := k !in unreachable;
      var ses := sessions[k];
      sessions := sessions[k := if ok then ses.(sent := ses.sent + [pos]) else ses.(failed := true)];
    }

    /** The sessions once the broadcast has dealt with clients before `i` and with the first `n`
        sockets of client `i`. */
    static ghost function DeliveredSoFar(s: State, unreachable: set<nat>, i: nat, n: nat): map<nat, Session>
      requires Sane(s) && s.log != []
      requires i < |s.clients| ==> n <= |s.clients[i].sockets|
    {
      map k | k in s.sessions ::
        if s.sessions[k].client < i || (s.sessions[k].client == i && i < |s.clients| && k in s.clients[i].sockets[..n])
        then Delivered(s, unreachable, k) else s.sessions[k]
    }

    /** The sender's broadcast of the message it has just appended. */
    method BroadcastLast(m: Msg, unreachable: set<nat>)
      requires Valid() && sender == Appended(m)
      modifies this`sessions, this`sender, clients`lastRead
      ensures Valid() && View() == Next(old(View()), Broadcast(unreachable))
    {
      ghost var s := View();
      ServeAll(m, unreachable, s);
      sender := Idle;
      BroadcastDone(clients, s, unreachable, View());
    }

    static lemma BroadcastDone(nodes: seq<ClientNode>, s: State, unreachable: set<nat>, t: State)
      requires Inv(s) && s.sender.Appended? && ServedBefore(nodes, s, |nodes|)
      requires t == State(s.enqueued, s.queue, Idle, s.log, Values(nodes), DeliveredSoFar(s, unreachable, |s.clients|, 0))
      ensures t == Next(s, Broadcast(unreachable)) && Inv(t)
    {
      NextInv(s, Broadcast(unreachable));
      AllDelivered(s, unreachable);
      assert Values(nodes) == Next(s, Broadcast(unreachable)).clients;
    }

    /** The broadcast loop over the clients, in the order of the directory. */
    method ServeAll(m: Msg, unreachable: set<nat>, ghost s: State)
      requires Valid() && sender == Appended(m) && s == View()
      modifies this`sessions, clients`lastRead
      ensures ServedBefore(clients, s, |clients|) && sessions == DeliveredSoFar(s, unreachable, |clients|, 0)
    {
      var i := 0;
      assert sessions == DeliveredSoFar(s, unreachable, 0, 0);
      while i < |clients|
        invariant 0 <= i <= |clients|
        invariant ServedBefore(clients, s, i)
        invariant sessions == DeliveredSoFar(s, unreachable, i, 0)
      {
        ServeClient(i, m, unreachable, s);
        i := i + 1;
      }
    }

    /** The clients before `i` have been noted, the others are as before. */
    static ghost predicate ServedBefore(nodes: seq<ClientNode>, s: State, i: nat)
      reads nodes
    {
      && |nodes| == |s.clients|
      && forall j :: 0 <= j < |nodes| ==> nodes[j].Value() == if j < i then Noted(s.clients[j], s.log) else s.clients[j]
    }

    /** One round of the broadcast loop. */
    method ServeClient(i: nat, m: Msg, unreachable: set<nat>, ghost s: State)
      requires Inv(s) && s.sender == Appended(m) && log == s.log && i < |clients|
      requires forall a, b :: 0 <= a < b < |clients| ==> clients[a] != clients[b]
      requires ServedBefore(clients, s, i) && sessions == DeliveredSoFar(s, unreachable, i, 0)
      modifies this`sessions, clients`lastRead
      ensures ServedBefore(clients, s, i + 1) && sessions == DeliveredSoFar(s, unreachable, i + 1, 0)
    {
      var c, last := clients[i], |log| - 1;
      if c.sockets == [] {
        NobodyAt(s, unreachable, i);
      } else {
        if c.id != m.id {
          SendToAll(c, i, last, unreachable, s);
        } else {
          OwnMessage(s, unreachable, i);
        }
        c.lastRead := Some(last);
      }
      NextClient(s, unreachable, i);
    }

    /** Writes the message to every socket of one client. */
    method SendToAll(c: ClientNode, i: nat, last: nat, unreachable: set<nat>, ghost s: State)
      requires Inv(s) && s.sender.Appended? && i < |s.clients| && s.clients[i] == c.Value()
      requires last == |s.log| - 1 && c.id != s.log[last].id
      requires sessions == DeliveredSoFar(s, unreachable, i, 0)
      modifies this`sessions
      ensures sessions == DeliveredSoFar(s, unreachable, i, |c.sockets|)
    {
      var n := 0;
      while n < |c.sockets|
        invariant 0 <= n <= |c.sockets|
        invariant sessions == DeliveredSoFar(s, unreachable, i, n)
      {
        var k := c.sockets[n];
        assert RegisteredAt(s, i, k);
        NotYetSent(s, i, n);
        var ok := Send(k, last, unreachable);
        OneMore(s, unreachable, i, n);
        n := n + 1;
      }
    }

    static lemma NotYetSent(s: State, i: nat, n: nat)
      requires SocketsOk(s) && i < |s.clients| && n < |s.clients[i].sockets|
      ensures s.clients[i].sockets[n] !in s.clients[i].sockets[..n]
    {
    }

    static lemma OneMore(s: State, unreachable: set<nat>, i: nat, n: nat)
      requires Inv(s) && s.sender.Appended? && i < |s.clients| && n < |s.clients[i].sockets|
      requires RegisteredAt(s, i, s.clients[i].sockets[n])
      ensures DeliveredSoFar(s, unreachable, i, n + 1)
           == DeliveredSoFar(s, unreachable, i, n)[s.clients[i].sockets[n] := Delivered(s, unreachable, s.clients[i].sockets[n])]
    {
      var sockets := s.clients[i].sockets;
      assert sockets[..n + 1] == sockets[..n] + [sockets[n]];
    }

    static lemma NobodyAt(s: State, unreachable: set<nat>, i: nat)
      requires Inv(s) && s.sender.Appended? && i < |s.clients| && s.clients[i].sockets == []
      ensures DeliveredSoFar(s, unreachable, i, 0) == DeliveredSoFar(s, unreachable, i, |s.clients[i].sockets|)
    {
    }

    static lemma OwnMessage(s: State, unreachable: set<nat>, i: nat)
      requires Inv(s) && s.sender.Appended? && i < |s.clients| && s.clients[i].id == s.log[|s.log| - 1].id
      ensures DeliveredSoFar(s, unreachable, i, 0) == DeliveredSoFar(s, unreachable, i, |s.clients[i].sockets|)
    {
    }

    /** A session that is not in its client's socket list is sent nothing. */
    static lemma NextClient(s: State, unreachable: set<nat>, i: nat)
      requires Inv(s) && s.sender.Appended? && i < |s.clients|
      ensures DeliveredSoFar(s, unreachable, i, |s.clients[i].sockets|) == DeliveredSoFar(s, unreachable, i + 1, 0)
    {
      var sockets := s.clients[i].sockets;
      assert sockets[..|sockets|] == sockets;
    }

    static lemma AllDelivered(s: State, unreachable: set<nat>)
      requires Inv(s) && s.sender.Appended?
      ensures DeliveredSoFar(s, unreachable, |s.clients|, 0) == Next(s, Broadcast(unreachable)).sessions
    {
    }

    // ----- the listener -----

    /** The log positions of other senders' messages from `from` to `at`, as written so far. */
    static ghost function Replayed(s: State, i: nat, k: nat, at: nat): map<nat, Session>
      requires i < |s.clients| && ReplayFrom(s.clients[i]) <= at <= |s.log|
    {
      var from := ReplayFrom(s.clients[i]);
      s.sessions[k := Session(i, Forwarded, Others(s.log, s.clients[i].id, from, at), false, from, |s.log|, 0, 0)]
    }

    /** `fast_forward`: replays the log to a new session from the client's last read message on.
        `lasts` is how many sends succeed before the connection breaks. */
    method ReplayLog(i: nat, k: nat, lasts: nat) returns (ok: bool, ghost written: nat)
      requires Valid() && i < |clients| && k !in sessions
      modifies this`sessions, clients`lastRead, clients`visits
      ensures clients == old(clients) && Valid()
      ensures ok ==> Enabled(old(View()), FastForward(i, k)) && View() == Next(old(View()), FastForward(i, k))
      ensures !ok ==> Enabled(old(View()), FastForwardFails(i, k, written))
      ensures !ok ==> View() == Next(old(View()), FastForwardFails(i, k, written)) && written == lasts
      ensures ok <==> |Others(log, clients[i].id, old(ReplayFrom(clients[i].Value())), |log|)| <= lasts
    {
      hide Inv, Next, Enabled;
      ghost var s := View();
      var c := clients[i];
      ok, written := WriteReplay(c, i, k, lasts, s);
      ghost var a := if ok then FastForward(i, k) else FastForwardFails(i, k, written);
      NoteReplay(c, k, ok);
      ClientsStepped(clients, s, i);
      ReplayDone(s, a, c.Value(), View());
    }

    /** Only a replay that got through makes the end of the log the last read message. */
    method NoteReplay(c: ClientNode, k: nat, ok: bool)
      modifies c`visits, c`lastRead
      ensures var was := old(c.Value());
        c.Value() == was.(visits := was.visits + [k], lastRead := if ok then TailOf(log) else was.lastRead)
    {
      c.visits := c.visits + [k];
      if ok {
        c.lastRead := if log == [] then None else Some(|log| - 1);
      }
    }

    static lemma ReplayDone(s: State, a: Action, c: Client, t: State)
      requires Inv(s) && Enabled(s, a) && (a.FastForward? || a.FastForwardFails?)
      requires c == s.clients[a.client].(visits := s.clients[a.client].visits + [a.session],
                                         lastRead := if a.FastForward? then TailOf(s.log) else s.clients[a.client].lastRead)
      requires t == s.(clients := s.clients[a.client := c], sessions := Next(s, a).sessions)
      ensures t == Next(s, a) && Inv(t)
    {
      NextInv(s, a);
    }

    /** Only client `i` has changed. */
    static ghost predicate OnlyClient(nodes: seq<ClientNode>, s: State, i: nat)
      reads nodes
    {
      && |nodes| == |s.clients| && i < |nodes|
      && forall j :: 0 <= j < |nodes| && j != i ==> nodes[j].Value() == s.clients[j]
    }

    static lemma ClientsStepped(nodes: seq<ClientNode>, s: State, i: nat)
      requires OnlyClient(nodes, s, i)
      ensures Values(nodes) == s.clients[i := nodes[i].Value()]
    {
    }

    /** A step whose new state has been reached keeps the invariant. */
    static lemma StepDone(s: State, a: Action, t: State)
      requires Inv(s) && Enabled(s, a) && t == Next(s, a)
      ensures Inv(t)
    {
      NextInv(s, a);
    }

    /** The replay loop: `cursor` walks the log from the last read node, or from the head. */
    method WriteReplay(c: ClientNode, i: nat, k: nat, lasts: nat, ghost s: State) returns (ok: bool, ghost written: nat)
      requires Inv(s) && i < |s.clients| && s.clients[i] == c.Value() && log == s.log
      requires sessions == s.sessions && k !in sessions
      modifies this`sessions
      ensures Enabled(s, FastForward(i, k))
      ensures ok ==> sessions == Next(s, FastForward(i, k)).sessions
      ensures !ok ==> Enabled(s, FastForwardFails(i, k, written))
      ensures !ok ==> sessions == Next(s, FastForwardFails(i, k, written)).sessions && written == lasts
      ensures ok <==> |Others(s.log, s.clients[i].id, ReplayFrom(s.clients[i]), |s.log|)| <= lasts
    {
      ghost var from := ReplayFrom(s.clients[i]);
      var cursor := if c.lastRead.None? then 0 else c.lastRead.value;
      var sent := 0;
      ReplayBegins(s, i, k);
      sessions := sessions[k := Session(i, Forwarded, [], false, cursor, |log|, 0, 0)];
      hide Inv, Enabled, Next, Replayed;
      while cursor < |log|
        invariant from <= cursor <= |log| && sessions == Replayed(s, i, k, cursor) && k in sessions
        invariant sent == |Others(log, c.id, from, cursor)| && sent <= lasts
      {
        ReplayGoesOn(s, i, k, cursor);
        if log[cursor].id != c.id {
          if sent == lasts {
            written := sent;
            ReplayBreaks(s, i, k, cursor);
            MoreToSend(log, c.id, from, cursor);
            sessions := sessions[k := sessions[k].(failed := true)];
            return false, written;
          }
          sessions := sessions[k := sessions[k].(sent := sessions[k].sent + [cursor])];
          sent := sent + 1;
        }
        cursor := cursor + 1;
      }
      ReplayEnds(s, i, k);
      return true, 0;
    }

    static lemma ReplayBegins(s: State, i: nat, k: nat)
      requires LastReadsOk(s) && i < |s.clients|
      ensures var from := ReplayFrom(s.clients[i]);
        && from <= |s.log| && Others(s.log, s.clients[i].id, from, from) == []
        && Replayed(s, i, k, from) == s.sessions[k := Session(i, Forwarded, [], false, from, |s.log|, 0, 0)]
    {
    }

    /** One more position is sent, unless it is the client's own. */
    static lemma ReplayGoesOn(s: State, i: nat, k: nat, at: nat)
      requires i < |s.clients| && ReplayFrom(s.clients[i]) <= at < |s.log|
      ensures var from, now := ReplayFrom(s.clients[i]), Replayed(s, i, k, at);
        && k in now && k in Replayed(s, i, k, at + 1)
        && if s.log[at].id == s.clients[i].id then
             && Replayed(s, i, k, at + 1) == now
             && Others(s.log, s.clients[i].id, from, at + 1) == Others(s.log, s.clients[i].id, from, at)
           else
             && Replayed(s, i, k, at + 1) == now[k := now[k].(sent := now[k].sent + [at])]
             && |Others(s.log, s.clients[i].id, from, at + 1)| == |Others(s.log, s.clients[i].id, from, at)| + 1
    {
      OthersNext(s.log, s.clients[i].id, ReplayFrom(s.clients[i]), at);
    }

    static lemma ReplayEnds(s: State, i: nat, k: nat)
      requires Sane(s) && i < |s.clients| && k !in s.sessions && ReplayFrom(s.clients[i]) <= |s.log|
      ensures Enabled(s, FastForward(i, k)) && Replayed(s, i, k, |s.log|) == Next(s, FastForward(i, k)).sessions
    {
    }

    /** The connection breaks at the message at `at`. */
    static lemma ReplayBreaks(s: State, i: nat, k: nat, at: nat)
      requires Sane(s) && i < |s.clients| && k !in s.sessions && ReplayFrom(s.clients[i]) <= at <= |s.log|
      ensures var now := Replayed(s, i, k, at);
        var written := |Others(s.log, s.clients[i].id, ReplayFrom(s.clients[i]), at)|;
        && k in now && Enabled(s, FastForward(i, k)) && Enabled(s, FastForwardFails(i, k, written))
        && now[k := now[k].(failed := true)] == Next(s, FastForwardFails(i, k, written)).sessions
    {
      OthersGrow(s.log, s.clients[i].id, ReplayFrom(s.clients[i]), at, |s.log|);
    }

    static lemma MoreToSend(log: seq<Msg>, id: nat, from: nat, at: nat)
      requires from <= at < |log| && log[at].id != id
      ensures |Others(log, id, from, at)| < |Others(log, id, from, |log|)|
    {
      OthersNext(log, id, from, at);
      OthersGrow(log, id, from, at + 1, |log|);
    }

    static lemma OthersNext(log: seq<Msg>, id: nat, from: nat, to: nat)
      requires from <= to < |log|
      ensures Others(log, id, from, to + 1)
           == if log[to].id != id then Others(log, id, from, to) + [to] else Others(log, id, from, to)
    {
      assert Others(log, id, from, to) + [] == Others(log, id, from, to);
    }

    static lemma {:induction false} OthersGrow(log: seq<Msg>, id: nat, from: nat, mid: nat, to: nat)
      requires from <= mid <= to <= |log|
      ensures |Others(log, id, from, mid)| <= |Others(log, id, from, to)|
      ensures Others(log, id, from, to)[..|Others(log, id, from, mid)|] == Others(log, id, from, mid)
    {
      if mid < to { OthersGrow(log, id, from, mid, to - 1); }
    }

    static lemma SessionPlace(s: State, k: nat)
      requires Inv(s) && k in s.sessions
      ensures s.sessions[k].client < |s.clients|
      ensures s.sender.Appended? ==> |s.log| > 0
    {
    }

    /** `client_hash_add_connection` */
    method AddSocket(k: nat)
      requires Valid() && k in sessions && sessions[k].phase.Forwarded?
      modifies this`sessions, clients
      ensures clients == old(clients) && Valid() && View() == Next(old(View()), AddConnection(k))
    {
      ghost var s := View();
      SessionPlace(s, k);
      var i, done := sessions[k].client, if sender.Appended? then |log| - 1 else |log|;
      var c := clients[i];
      c.sockets := c.sockets + [k];
      sessions := sessions[k := sessions[k].(phase := Registered, joined := done)];
      ClientsStepped(clients, s, i);
      StepDone(s, AddConnection(k), View());
    }

    /** `client_hash_remove_connection` */
    method RemoveSocket(k: nat)
      requires Valid() && k in sessions && sessions[k].phase.Registered?
      modifies this`sessions, clients
      ensures clients == old(clients) && Valid() && View() == Next(old(View()), RemoveConnection(k))
    {
      ghost var s := View();
      SessionPlace(s, k);
      var i, done := sessions[k].client, if sender.Appended? then |log| - 1 else |log|;
      var c := clients[i];
      c.sockets := LinkedList.Remove(c.sockets, k);
      sessions := sessions[k := sessions[k].(phase := Closed, left := done)];
      ClientsStepped(clients, s, i);
      StepDone(s, RemoveConnection(k), View());
    }
  }
}
