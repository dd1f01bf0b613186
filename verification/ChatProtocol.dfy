/** The chat server of `server.c` as steps: listeners enqueue, one sender thread dequeues,
    appends to the log and broadcasts, and a connecting client is replayed the log before its
    socket is registered. Every step is one critical section of the source.

    A log node is its index in the log. Each accepted connection is a session with its own
    number: a descriptor is closed, and so reused, only after its session has left the list. */
module ChatProtocol {
  import LinkedList
  import opened Options

  datatype Msg = Msg(id: nat, kind: nat, payload: seq<char>)

  /** Where the sender thread stands in its loop. */
  datatype Sender = Idle | Holding(m: Msg) | Appended(m: Msg)

  /** `struct client`, with the sessions it has had, in order, as history. */
  datatype Client = Client(id: nat, sockets: seq<nat>, lastRead: Option<nat>, visits: seq<nat>)

  datatype Phase = Forwarded | Registered | Closed

  /** A connection: the log positions written to its socket, and as history the position the
      replay began at, the log length it ended at, and how many broadcasts were complete when
      the socket was registered and when it was removed. */
  datatype Session = Session(client: nat, phase: Phase, sent: seq<nat>, failed: bool,
                             start: nat, seam: nat, joined: nat, left: nat)

  datatype State = State(enqueued: seq<Msg>, queue: seq<Msg>, sender: Sender, log: seq<Msg>,
                         clients: seq<Client>, sessions: map<nat, Session>)

  // ----- the steps -----

  datatype Action =
    | Enqueue(m: Msg)
    | Dequeue
    | Append
    | Broadcast(unreachable: set<nat>)
    | FastForward(client: nat, session: nat)
    | FastForwardFails(client: nat, session: nat, written: nat)
    | AddConnection(session: nat)
    | RemoveConnection(session: nat)

  /** The positions in `from..to` of messages from ids other than `id`. */
  function Others(log: seq<Msg>, id: nat, from: nat, to: nat): (r: seq<nat>)
    requires to <= |log|
  {
    if to <= from then []
    else Others(log, id, from, to - 1) + if log[to - 1].id != id then [to - 1] else []
  }

  /** How many logged messages have been broadcast. */
  function Broadcasted(s: State): nat {
    if s.sender.Appended? && s.log != [] then |s.log| - 1 else |s.log|
  }

  /** Replay begins at the client's last read message, inclusive, or at the head. */
  function ReplayFrom(c: Client): nat {
    match c.lastRead
    case None => 0
    case Some(n) => n
  }

  function TailOf(log: seq<Msg>): Option<nat> {
    if log == [] then None else Some(|log| - 1)
  }

  /** What a broadcast of the last log entry does to one session. */
  function Delivered(s: State, unreachable: set<nat>, k: nat): Session
    requires k in s.sessions && s.log != [] && s.sessions[k].client < |s.clients|
  {
    var ses := s.sessions[k];
    var c := s.clients[ses.client];
    if k !in c.sockets || c.id == s.log[|s.log| - 1].id then ses
    else if k in unreachable then ses.(failed := true)
    else ses.(sent := ses.sent + [|s.log| - 1])
  }

  function Noted(c: Client, log: seq<Msg>): Client {
    if c.sockets == [] then c else c.(lastRead := TailOf(log))
  }

  predicate Enabled(s: State, a: Action) {
    match a
    case Enqueue(_) => true
    case Dequeue => s.sender.Idle? && s.queue != []
    case Append => s.sender.Holding?
    case Broadcast(_) => s.sender.Appended?
    case FastForward(i, k) => i < |s.clients| && k !in s.sessions && ReplayFrom(s.clients[i]) <= |s.log|
    case FastForwardFails(i, k, written) =>
      && i < |s.clients| && k !in s.sessions && ReplayFrom(s.clients[i]) <= |s.log|
      && written <= |Others(s.log, s.clients[i].id, ReplayFrom(s.clients[i]), |s.log|)|
    case AddConnection(k) => k in s.sessions && s.sessions[k].phase.Forwarded?
    case RemoveConnection(k) => k in s.sessions && s.sessions[k].phase.Registered?
  }

  /** The state is well formed enough for every step to be defined. */
  predicate Sane(s: State) {
    && (s.sender.Appended? ==> s.log != [] && s.log[|s.log| - 1] == s.sender.m)
    && (forall k :: k in s.sessions ==> s.sessions[k].client < |s.clients|)
  }

  function Next(s: State, a: Action): State
    requires Sane(s) && Enabled(s, a)
  {
    match a
    case Enqueue(m) => s.(queue := s.queue + [m], enqueued := s.enqueued + [m])
    case Dequeue => s.(queue := s.queue[1..], sender := Holding(s.queue[0]))
    case Append => s.(log := s.log + [s.sender.m], sender := Appended(s.sender.m))
    case Broadcast(unreachable) =>
      s.(sender := Idle,
         clients := seq(|s.clients|, i requires 0 <= i < |s.clients| => Noted(s.clients[i], s.log)),
         sessions := map k | k in s.sessions :: Delivered(s, unreachable, k))
    case FastForward(i, k) =>
      var c := s.clients[i];
      var from := ReplayFrom(c);
      s.(clients := s.clients[i := c.(lastRead := TailOf(s.log), visits := c.visits + [k])],
         sessions := s.sessions[k := Session(i, Forwarded, Others(s.log, c.id, from, |s.log|), false,
                                             from, |s.log|, 0, 0)])
    case FastForwardFails(i, k, written) =>
      var c := s.clients[i];
      var from := ReplayFrom(c);
      s.(clients := s.clients[i := c.(visits := c.visits + [k])],
         sessions := s.sessions[k := Session(i, Forwarded, Others(s.log, c.id, from, |s.log|)[..written], true,
                                             from, |s.log|, 0, 0)])
    case AddConnection(k) =>
      var ses := s.sessions[k];
      var c := s.clients[ses.client];
      s.(clients := s.clients[ses.client := c.(sockets := c.sockets + [k])],
         sessions := s.sessions[k := ses.(phase := Registered, joined := Broadcasted(s))])
    case RemoveConnection(k) =>
      var ses := s.sessions[k];
      var c := s.clients[ses.client];
      s.(clients := s.clients[ses.client := c.(sockets := LinkedList.Remove(c.sockets, k))],
         sessions := s.sessions[k := ses.(phase := Closed, left := Broadcasted(s))])
  }

  predicate Initial(s: State) {
    && s.enqueued == [] && s.queue == [] && s.sender == Idle && s.log == [] && s.sessions == map[]
    && forall i :: 0 <= i < |s.clients| ==> s.clients[i] == Client(s.clients[i].id, [], None, [])
  }

  // ----- what every step keeps -----

  /** Nothing that was enqueued is lost, repeated or reordered on its way to the log. */
  predicate Conserved(s: State) {
    s.enqueued == s.log + (if s.sender.Holding? then [s.sender.m] else []) + s.queue
  }

  predicate LastReadsOk(s: State) {
    forall i :: 0 <= i < |s.clients| ==> s.clients[i].lastRead.Some? ==> s.clients[i].lastRead.value < |s.log|
  }

  /** A session is in its client's socket list exactly while it is registered. */
  predicate SocketsOk(s: State) {
    && (forall i :: 0 <= i < |s.clients| ==> NoRepeats(s.clients[i].sockets))
    && (forall i, k :: 0 <= i < |s.clients| && k in s.clients[i].sockets ==> RegisteredAt(s, i, k))
    && (forall k :: k in s.sessions && s.sessions[k].phase.Registered? ==> s.sessions[k].client < |s.clients| && k in s.clients[s.sessions[k].client].sockets)
  }

  predicate RegisteredAt(s: State, i: nat, k: nat) {
    k in s.sessions && s.sessions[k].phase.Registered? && s.sessions[k].client == i
  }

  predicate NoRepeats(xs: seq<nat>) {
    forall i, j :: 0 <= i < j < |xs| ==> xs[i] != xs[j]
  }

  /** Up to which broadcast a session has been served. */
  function ServedTo(s: State, ses: Session): nat {
    match ses.phase
    case Forwarded => ses.joined
    case Registered => Broadcasted(s)
    case Closed => ses.left
  }

  /** What has been written to a session's socket, exactly: the replay, then every broadcast
      from the moment it was registered. The replay ended at most one message short of, and
      possibly short of several after, the first broadcast it received. */
  predicate SessionOk(s: State, k: nat)
    requires k in s.sessions
  {
    var ses := s.sessions[k];
    && ses.client < |s.clients|
    && ses.start <= ses.seam <= |s.log| && ses.seam <= Broadcasted(s) + 1
    && ServedTo(s, ses) <= Broadcasted(s)
    && (ses.phase.Forwarded? ==> ses.joined == 0)
    && (!ses.phase.Forwarded? ==> ses.seam <= ses.joined + 1 && ses.joined <= ServedTo(s, ses))
    && (!ses.failed ==> ses.sent == WrittenTo(s, ses))
  }

  function WrittenTo(s: State, ses: Session): seq<nat>
    requires ses.client < |s.clients| && ses.seam <= |s.log| && ServedTo(s, ses) <= |s.log|
  {
    Others(s.log, s.clients[ses.client].id, ses.start, ses.seam)
    + Others(s.log, s.clients[ses.client].id, ses.joined, ServedTo(s, ses))
  }

  predicate Inv(s: State) {
    && Sane(s) && Conserved(s) && LastReadsOk(s) && SocketsOk(s)
    && forall k :: k in s.sessions ==> SessionOk(s, k)
  }
}
