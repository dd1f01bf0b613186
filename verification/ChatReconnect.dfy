/** What a client hears over any number of disconnects and reconnects. */
module ChatReconnect {
  import LinkedList
  import opened ChatProtocol
  import opened ChatSafety
  import opened ChatDelivery

  /** A step that is orderly for client `i`, whatever happens to the others: it connects only when
      its earlier sessions are closed, what is sent to it arrives, and no message is both appended
      and broadcast between the replay and the registration of one of its sessions (so that no more
      broadcasts are complete than messages were replayed). */
  ghost predicate Orderly(s: State, a: Action, i: nat) {
    match a
    case FastForward(i0, k) => i0 == i ==> forall j :: j in s.sessions && s.sessions[j].client == i ==> s.sessions[j].phase.Closed?
    case FastForwardFails(i0, _, _) => i0 != i
    case Broadcast(unreachable) => i < |s.clients| ==> forall k :: k in s.clients[i].sockets ==> k !in unreachable
    case AddConnection(k) => k in s.sessions && (s.sessions[k].client == i ==> Broadcasted(s) <= s.sessions[k].seam)
    case _ => true
  }

  /** Everything written to the sockets of the sessions `visits`, in the order of the sessions. */
  function Heard(sessions: map<nat, Session>, visits: seq<nat>): seq<nat> {
    if visits == [] then []
    else
      var last := visits[|visits| - 1];
      Heard(sessions, visits[..|visits| - 1]) + if last in sessions then sessions[last].sent else []
  }

  predicate Ascending(xs: seq<nat>) {
    forall i, j :: 0 <= i < j < |xs| ==> xs[i] <= xs[j]
  }

  /** `heard` has exactly the positions before `to` of other senders' messages, in order. */
  ghost predicate Complete(log: seq<Msg>, id: nat, heard: seq<nat>, to: nat) {
    && to <= |log| && Ascending(heard)
    && forall p: nat {:trigger p in heard} :: p in heard <==> p < to && log[p].id != id
  }

  /** A client's sessions are those it has visited, all but the last are closed, and the last one
      accounts for its sockets and for how far it has read. */
  ghost predicate VisitsOk(s: State, i: nat)
    requires i < |s.clients|
  {
    var c := s.clients[i];
    && NoRepeats(c.visits)
    && (forall j :: j in c.visits ==> j in s.sessions && s.sessions[j].client == i)
    && (forall j :: j in s.sessions && s.sessions[j].client == i ==> j in c.visits)
    && (forall n :: 0 <= n < |c.visits| - 1 ==> s.sessions[c.visits[n]].phase.Closed?)
    && if c.visits == [] then c.sockets == []
       else LastVisitOk(s, c, s.sessions[c.visits[|c.visits| - 1]], c.visits[|c.visits| - 1])
  }

  ghost predicate LastVisitOk(s: State, c: Client, ses: Session, k: nat) {
    match ses.phase
    case Forwarded => c.sockets == [] && ses.seam == ReadTo(c) && ReadTo(c) <= Broadcasted(s) + 1
    case Registered => c.sockets == [k] && Broadcasted(s) <= ReadTo(c) <= Broadcasted(s) + 1
    case Closed => c.sockets == []
  }

  ghost predicate ClientOk(s: State, i: nat)
    requires i < |s.clients|
  {
    VisitsOk(s, i) && Complete(s.log, s.clients[i].id, Heard(s.sessions, s.clients[i].visits), ReadTo(s.clients[i]))
  }

  lemma {:induction false} HeardSame(before: map<nat, Session>, after: map<nat, Session>, visits: seq<nat>)
    requires forall j :: j in visits ==> j in before && j in after && before[j].sent == after[j].sent
    ensures Heard(before, visits) == Heard(after, visits)
  {
    if visits != [] { HeardSame(before, after, visits[..|visits| - 1]); }
  }

  lemma CompleteKept(log: seq<Msg>, more: seq<Msg>, id: nat, heard: seq<nat>, to: nat)
    requires Complete(log, id, heard, to)
    ensures Complete(log + more, id, heard, to)
  {
  }

  /** A replay from the last position read, inclusive, completes what was heard. */
  lemma CompleteAfterReplay(log: seq<Msg>, id: nat, heard: seq<nat>, to: nat, from: nat)
    requires Complete(log, id, heard, to) && from <= to && to <= from + 1
    ensures Complete(log, id, heard + Others(log, id, from, |log|), |log|)
  {
    var more := Others(log, id, from, |log|);
    OthersAscending(log, id, from, |log|);
    forall p: nat ensures p in more <==> from <= p < |log| && log[p].id != id {
      OthersMembers(log, id, from, |log|, p);
    }
    AscendingConcat(heard, more, from);
    forall p: nat ensures p in heard + more <==> p < |log| && log[p].id != id {
    }
  }

  lemma {:induction false} OthersAscending(log: seq<Msg>, id: nat, from: nat, to: nat)
    requires to <= |log|
    ensures Ascending(Others(log, id, from, to)) && forall p :: p in Others(log, id, from, to) ==> from <= p < to
  {
    if to > from {
      OthersAscending(log, id, from, to - 1);
      AscendingConcat(Others(log, id, from, to - 1), if log[to - 1].id != id then [to - 1] else [], to - 1);
    }
  }

  lemma AscendingConcat(a: seq<nat>, b: seq<nat>, from: nat)
    requires Ascending(a) && Ascending(b)
    requires (forall p :: p in a ==> p <= from) && (forall p :: p in b ==> from <= p)
    ensures Ascending(a + b)
  {
    forall i, j | 0 <= i < j < |a + b| ensures (a + b)[i] <= (a + b)[j] {
      if i < |a| <= j { assert a[i] in a && b[j - |a|] in b; }
    }
  }

  /** A broadcast of the last log entry to a client that has read all before it, or all. */
  lemma CompleteAfterBroadcast(log: seq<Msg>, id: nat, heard: seq<nat>, to: nat)
    requires log != [] && Complete(log, id, heard, to) && |log| - 1 <= to
    ensures Complete(log, id, heard + if log[|log| - 1].id != id then [|log| - 1] else [], |log|)
  {
    var last := |log| - 1;
    var more := if log[last].id != id then [last] else [];
    AscendingConcat(heard, more, last);
    forall p: nat ensures p in heard + more <==> p < |log| && log[p].id != id {
    }
  }

  // ----- the steps -----

  lemma QuietStep(s: State, a: Action, i: nat)
    requires Inv(s) && Enabled(s, a) && (a.Enqueue? || a.Dequeue? || a.Append?)
    requires i < |s.clients| && ClientOk(s, i)
    ensures ClientOk(Next(s, a), i)
  {
    if a.Append? {
      CompleteKept(s.log, [s.sender.m], s.clients[i].id, Heard(s.sessions, s.clients[i].visits), ReadTo(s.clients[i]));
    }
  }

  /** A step that leaves a client and its sessions alone. */
  ghost predicate LeavesAlone(s: State, t: State, i: nat) {
    && i < |s.clients| == |t.clients| && t.clients[i] == s.clients[i]
    && t.log == s.log && Broadcasted(t) == Broadcasted(s)
    && (forall j :: j in s.sessions && s.sessions[j].client == i ==> j in t.sessions && t.sessions[j] == s.sessions[j])
    && (forall j :: j in t.sessions && t.sessions[j].client == i ==> j in s.sessions && s.sessions[j].client == i)
  }

  lemma LeftAlone(s: State, t: State, i: nat)
    requires LeavesAlone(s, t, i) && ClientOk(s, i)
    ensures ClientOk(t, i)
  {
    HeardSame(s.sessions, t.sessions, s.clients[i].visits);
  }

  /** The one session of a client that is still open is its last. */
  lemma OpenIsLast(s: State, i: nat, k: nat)
    requires i < |s.clients| && VisitsOk(s, i)
    requires k in s.sessions && s.sessions[k].client == i && !s.sessions[k].phase.Closed?
    ensures s.clients[i].visits != [] && s.clients[i].visits[|s.clients[i].visits| - 1] == k
  {
    var visits := s.clients[i].visits;
    assert k in visits;
    var n :| 0 <= n < |visits| && visits[n] == k;
  }

  /** A client's last session changes phase, and its socket list with it. */
  lemma LastChanges(s: State, t: State, i: nat, k: nat)
    requires i < |s.clients| == |t.clients| && ClientOk(s, i) && t.log == s.log
    requires k in s.sessions && s.sessions[k].client == i && !s.sessions[k].phase.Closed?
    requires k in t.sessions && t.sessions == s.sessions[k := t.sessions[k]]
    requires t.sessions[k].client == i && t.sessions[k].sent == s.sessions[k].sent
    requires t.clients[i] == s.clients[i].(sockets := t.clients[i].sockets)
    requires LastVisitOk(t, t.clients[i], t.sessions[k], k)
    ensures ClientOk(t, i)
  {
    OpenIsLast(s, i, k);
    var visits := s.clients[i].visits;
    HeardSame(s.sessions, t.sessions, visits);
    forall n | 0 <= n < |visits| - 1 ensures t.sessions[visits[n]].phase.Closed? {
      assert visits[n] in visits && visits[n] != k;
    }
  }

  lemma AddStep(s: State, k: nat, i: nat)
    requires Inv(s) && Enabled(s, AddConnection(k)) && Orderly(s, AddConnection(k), i)
    requires i < |s.clients| && ClientOk(s, i)
    ensures ClientOk(Next(s, AddConnection(k)), i)
  {
    var t := Next(s, AddConnection(k));
    if i == s.sessions[k].client {
      OpenIsLast(s, i, k);
      assert [] + [k] == [k];
      LastChanges(s, t, i, k);
    } else {
      LeftAlone(s, t, i);
    }
  }

  lemma RemoveStep(s: State, k: nat, i: nat)
    requires Inv(s) && Enabled(s, RemoveConnection(k))
    requires i < |s.clients| && ClientOk(s, i)
    ensures ClientOk(Next(s, RemoveConnection(k)), i)
  {
    var t := Next(s, RemoveConnection(k));
    if i == s.sessions[k].client {
      OpenIsLast(s, i, k);
      assert LinkedList.Remove([k], k) == [];
      LastChanges(s, t, i, k);
    } else {
      LeftAlone(s, t, i);
    }
  }

  lemma {:induction false} HeardLast(sessions: map<nat, Session>, visits: seq<nat>)
    requires visits != [] && visits[|visits| - 1] in sessions
    ensures Heard(sessions, visits) == Heard(sessions, visits[..|visits| - 1]) + sessions[visits[|visits| - 1]].sent
  {
  }

  lemma ReplayStep(s: State, i0: nat, k: nat, i: nat)
    requires Inv(s) && Enabled(s, FastForward(i0, k)) && Orderly(s, FastForward(i0, k), i)
    requires i < |s.clients| && ClientOk(s, i)
    ensures ClientOk(Next(s, FastForward(i0, k)), i)
  {
    var t := Next(s, FastForward(i0, k));
    if i == i0 {
      ReplayVisits(s, i, k);
      ReplayComplete(s, i, k);
    } else {
      LeftAlone(s, t, i);
    }
  }

  lemma ReplayVisits(s: State, i: nat, k: nat)
    requires Inv(s) && Enabled(s, FastForward(i, k)) && Orderly(s, FastForward(i, k), i) && ClientOk(s, i)
    ensures VisitsOk(Next(s, FastForward(i, k)), i)
  {
    var t := Next(s, FastForward(i, k));
    var before, after := s.clients[i].visits, t.clients[i].visits;
    assert after == before + [k];
    forall n | 0 <= n < |after| - 1 ensures t.sessions[after[n]].phase.Closed? {
      assert after[n] == before[n] && before[n] in before;
    }
    if before != [] { assert before[|before| - 1] in before; }
  }

  lemma ReplayComplete(s: State, i: nat, k: nat)
    requires Inv(s) && Enabled(s, FastForward(i, k)) && ClientOk(s, i)
    ensures var t := Next(s, FastForward(i, k));
      Complete(t.log, t.clients[i].id, Heard(t.sessions, t.clients[i].visits), ReadTo(t.clients[i]))
  {
    var t := Next(s, FastForward(i, k));
    var c := s.clients[i];
    var visits := t.clients[i].visits;
    assert visits[..|visits| - 1] == c.visits;
    HeardSame(s.sessions, t.sessions, c.visits);
    HeardLast(t.sessions, visits);
    CompleteAfterReplay(s.log, c.id, Heard(s.sessions, c.visits), ReadTo(c), ReplayFrom(c));
  }

  lemma BroadcastStep(s: State, unreachable: set<nat>, i: nat)
    requires Inv(s) && Enabled(s, Broadcast(unreachable)) && Orderly(s, Broadcast(unreachable), i)
    requires i < |s.clients| && ClientOk(s, i)
    ensures ClientOk(Next(s, Broadcast(unreachable)), i)
  {
    BroadcastVisits(s, unreachable, i);
    BroadcastComplete(s, unreachable, i);
  }

  /** A broadcast changes neither a session's phase nor whose it is. */
  lemma BroadcastPhase(s: State, unreachable: set<nat>, j: nat)
    requires Inv(s) && Enabled(s, Broadcast(unreachable)) && j in s.sessions
    ensures var t := Next(s, Broadcast(unreachable));
      && j in t.sessions && t.sessions[j].phase == s.sessions[j].phase
      && t.sessions[j].client == s.sessions[j].client && t.sessions[j].seam == s.sessions[j].seam
  {
    assert Next(s, Broadcast(unreachable)).sessions[j] == Delivered(s, unreachable, j);
  }

  lemma BroadcastVisits(s: State, unreachable: set<nat>, i: nat)
    requires Inv(s) && Enabled(s, Broadcast(unreachable)) && Orderly(s, Broadcast(unreachable), i)
    requires i < |s.clients| && ClientOk(s, i)
    ensures VisitsOk(Next(s, Broadcast(unreachable)), i)
  {
    var t := Next(s, Broadcast(unreachable));
    BroadcastClient(s, unreachable, i);
    forall j | j in s.sessions
      ensures j in t.sessions && t.sessions[j].phase == s.sessions[j].phase
      ensures t.sessions[j].client == s.sessions[j].client && t.sessions[j].seam == s.sessions[j].seam
    {
      BroadcastPhase(s, unreachable, j);
    }
    assert Broadcasted(t) == |s.log| == Broadcasted(s) + 1;
    SamePhases(s, t, i);
  }

  /** A client's sessions keep their phases and its socket list stays; it has read on if it had one. */
  lemma SamePhases(s: State, t: State, i: nat)
    requires i < |s.clients| == |t.clients| && VisitsOk(s, i) && t.sessions.Keys == s.sessions.Keys
    requires forall j :: j in s.sessions ==>
      && t.sessions[j].phase == s.sessions[j].phase && t.sessions[j].client == s.sessions[j].client
      && t.sessions[j].seam == s.sessions[j].seam
    requires t.clients[i] == Noted(s.clients[i], t.log) && Broadcasted(t) == |t.log| == Broadcasted(s) + 1
    ensures VisitsOk(t, i)
  {
    var visits := s.clients[i].visits;
    forall n | 0 <= n < |visits| ensures visits[n] in s.sessions {
      assert visits[n] in visits;
    }
  }

  lemma BroadcastClient(s: State, unreachable: set<nat>, i: nat)
    requires Inv(s) && Enabled(s, Broadcast(unreachable)) && i < |s.clients|
    ensures Next(s, Broadcast(unreachable)).clients[i] == Noted(s.clients[i], s.log) && Next(s, Broadcast(unreachable)).log == s.log
    ensures s.clients[i].sockets != [] ==> ReadTo(Noted(s.clients[i], s.log)) == |s.log|
  {
  }

  lemma BroadcastComplete(s: State, unreachable: set<nat>, i: nat)
    requires Inv(s) && Enabled(s, Broadcast(unreachable)) && Orderly(s, Broadcast(unreachable), i)
    requires i < |s.clients| && ClientOk(s, i)
    ensures var t := Next(s, Broadcast(unreachable));
      Complete(t.log, t.clients[i].id, Heard(t.sessions, t.clients[i].visits), ReadTo(t.clients[i]))
  {
    var t := Next(s, Broadcast(unreachable));
    var c := s.clients[i];
    BroadcastClient(s, unreachable, i);
    if c.sockets == [] {
      QuietVisits(s, unreachable, i, c.visits);
    } else {
      HeardGrows(s, unreachable, i);
      CompleteAfterBroadcast(s.log, c.id, Heard(s.sessions, c.visits), ReadTo(c));
    }
  }

  lemma EarlierAreQuiet(s: State, i: nat)
    requires i < |s.clients| && VisitsOk(s, i) && s.clients[i].sockets != []
    ensures var visits := s.clients[i].visits;
      && visits != [] && s.clients[i].sockets == [visits[|visits| - 1]] && visits[|visits| - 1] in s.sessions
      && s.sessions[visits[|visits| - 1]].client == i
      && forall j :: j in visits[..|visits| - 1] ==>
           j in s.sessions && s.sessions[j].client == i && j !in s.clients[i].sockets
  {
    var visits := s.clients[i].visits;
    assert visits[|visits| - 1] in visits;
    forall j | j in visits[..|visits| - 1] ensures j in visits && j != visits[|visits| - 1] {
      var n :| 0 <= n < |visits| - 1 && visits[n] == j;
    }
  }

  /** A broadcast to a registered client adds the last log position, unless it is its own. */
  lemma HeardGrows(s: State, unreachable: set<nat>, i: nat)
    requires Inv(s) && Enabled(s, Broadcast(unreachable)) && Orderly(s, Broadcast(unreachable), i)
    requires i < |s.clients| && VisitsOk(s, i) && s.clients[i].sockets != []
    ensures Heard(Next(s, Broadcast(unreachable)).sessions, s.clients[i].visits)
         == Heard(s.sessions, s.clients[i].visits)
            + if s.log[|s.log| - 1].id != s.clients[i].id then [|s.log| - 1] else []
  {
    var t := Next(s, Broadcast(unreachable));
    var visits := s.clients[i].visits;
    EarlierAreQuiet(s, i);
    var k := visits[|visits| - 1];
    QuietVisits(s, unreachable, i, visits[..|visits| - 1]);
    HeardLast(s.sessions, visits);
    HeardLast(t.sessions, visits);
    assert t.sessions[k] == Delivered(s, unreachable, k);
    assert t.sessions[k].sent == s.sessions[k].sent + if s.log[|s.log| - 1].id != s.clients[i].id then [|s.log| - 1] else [];
  }

  /** Sessions without a registered socket are sent nothing. */
  lemma QuietVisits(s: State, unreachable: set<nat>, i: nat, visits: seq<nat>)
    requires Inv(s) && Enabled(s, Broadcast(unreachable)) && i < |s.clients|
    requires forall j :: j in visits ==> j in s.sessions && s.sessions[j].client == i && j !in s.clients[i].sockets
    ensures Heard(Next(s, Broadcast(unreachable)).sessions, visits) == Heard(s.sessions, visits)
  {
    var t := Next(s, Broadcast(unreachable));
    forall j | j in visits ensures t.sessions[j] == s.sessions[j] {
      assert t.sessions[j] == Delivered(s, unreachable, j);
    }
    HeardSame(s.sessions, t.sessions, visits);
  }

  /** The other ways a step of somebody else's can go leave a client alone. */
  lemma OthersFail(s: State, i0: nat, k: nat, written: nat, i: nat)
    requires Inv(s) && Enabled(s, FastForwardFails(i0, k, written)) && i0 != i
    requires i < |s.clients| && ClientOk(s, i)
    ensures ClientOk(Next(s, FastForwardFails(i0, k, written)), i)
  {
    LeftAlone(s, Next(s, FastForwardFails(i0, k, written)), i);
  }

  lemma NextHeard(s: State, a: Action, i: nat)
    requires Inv(s) && Enabled(s, a) && i < |s.clients| && Orderly(s, a, i) && ClientOk(s, i)
    ensures i < |Next(s, a).clients| && ClientOk(Next(s, a), i)
  {
    match a
    case Broadcast(unreachable) => BroadcastStep(s, unreachable, i);
    case FastForward(i0, k) => ReplayStep(s, i0, k, i);
    case FastForwardFails(i0, k, written) => OthersFail(s, i0, k, written, i);
    case AddConnection(k) => AddStep(s, k, i);
    case RemoveConnection(k) => RemoveStep(s, k, i);
    case _ => QuietStep(s, a, i);
  }

  // ----- where repeats can be -----

  /** Nothing heard in earlier sessions lies beyond where a session started. */
  ghost predicate StartsOk(sessions: map<nat, Session>, visits: seq<nat>) {
    visits == [] ||
      var last := visits[|visits| - 1];
      && StartsOk(sessions, visits[..|visits| - 1]) && last in sessions
      && UpTo(Heard(sessions, visits[..|visits| - 1]), sessions[last].start)
  }

  predicate UpTo(xs: seq<nat>, most: nat) {
    forall x :: 0 <= x < |xs| ==> xs[x] <= most
  }

  lemma {:induction false} StartsKept(before: map<nat, Session>, after: map<nat, Session>, visits: seq<nat>)
    requires StartsOk(before, visits)
    requires forall j :: j in visits ==> j in before && j in after && before[j].start == after[j].start
    requires forall n :: 0 <= n < |visits| - 1 ==> before[visits[n]].sent == after[visits[n]].sent
    ensures StartsOk(after, visits)
  {
    if visits != [] {
      var earlier := visits[..|visits| - 1];
      StartsKept(before, after, earlier);
      forall j | j in earlier ensures j in before && j in after && before[j].sent == after[j].sent {
        var n :| 0 <= n < |earlier| && earlier[n] == j;
        assert visits[n] == j;
      }
      HeardSame(before, after, earlier);
    }
  }

  lemma StepKeepsEarlier(s: State, a: Action, i: nat, n: nat)
    requires Inv(s) && Enabled(s, a) && i < |s.clients| && VisitsOk(s, i) && n < |s.clients[i].visits|
    ensures var j := s.clients[i].visits[n];
      && j in s.sessions && j in Next(s, a).sessions && Next(s, a).sessions[j].start == s.sessions[j].start
      && (n < |s.clients[i].visits| - 1 ==> Next(s, a).sessions[j].sent == s.sessions[j].sent)
  {
    var j := s.clients[i].visits[n];
    assert j in s.clients[i].visits;
    if a.Broadcast? {
      assert Next(s, a).sessions[j] == Delivered(s, a.unreachable, j);
      if j in s.clients[i].sockets { assert RegisteredAt(s, i, j); }
    }
  }

  lemma NextStarts(s: State, a: Action, i: nat)
    requires Inv(s) && Enabled(s, a) && i < |s.clients| && Orderly(s, a, i) && ClientOk(s, i)
    requires StartsOk(s.sessions, s.clients[i].visits)
    ensures i < |Next(s, a).clients| && StartsOk(Next(s, a).sessions, Next(s, a).clients[i].visits)
  {
    var t := Next(s, a);
    var visits := s.clients[i].visits;
    forall n | 0 <= n < |visits|
      ensures visits[n] in s.sessions && visits[n] in t.sessions && t.sessions[visits[n]].start == s.sessions[visits[n]].start
      ensures n < |visits| - 1 ==> t.sessions[visits[n]].sent == s.sessions[visits[n]].sent
    {
      StepKeepsEarlier(s, a, i, n);
    }
    StartsKept(s.sessions, t.sessions, visits);
    if a.FastForward? && a.client == i {
      ReplayStarts(s, i, a.session);
    } else if a.Broadcast? {
      BroadcastClient(s, a.unreachable, i);
    }
  }

  lemma ReplayStarts(s: State, i: nat, k: nat)
    requires Inv(s) && Enabled(s, FastForward(i, k)) && ClientOk(s, i)
    requires StartsOk(Next(s, FastForward(i, k)).sessions, s.clients[i].visits)
    ensures var t := Next(s, FastForward(i, k)); StartsOk(t.sessions, t.clients[i].visits)
  {
    var t := Next(s, FastForward(i, k));
    var before, after := s.clients[i].visits, t.clients[i].visits;
    assert after[..|after| - 1] == before;
    HeardSame(s.sessions, t.sessions, before);
    var heard := Heard(s.sessions, before);
    forall x | 0 <= x < |heard| ensures heard[x] <= t.sessions[k].start {
      assert heard[x] in heard;
    }
  }

  /** A client's sessions have not failed, and each began before the end of the log it was
      replayed, or at the beginning. */
  ghost predicate SessionsSound(s: State, i: nat) {
    forall j :: j in s.sessions && s.sessions[j].client == i ==>
      !s.sessions[j].failed && (s.sessions[j].start < s.sessions[j].seam || s.sessions[j].start == 0)
  }

  lemma NextSound(s: State, a: Action, i: nat)
    requires Inv(s) && Enabled(s, a) && i < |s.clients| && Orderly(s, a, i) && SessionsSound(s, i)
    ensures SessionsSound(Next(s, a), i)
  {
    var t := Next(s, a);
    forall j | j in t.sessions && t.sessions[j].client == i
      ensures !t.sessions[j].failed && (t.sessions[j].start < t.sessions[j].seam || t.sessions[j].start == 0)
    {
      if a.Broadcast? { assert t.sessions[j] == Delivered(s, a.unreachable, j); }
    }
  }

  // ----- runs -----

  ghost predicate OrderlyRun(states: seq<State>, actions: seq<Action>, i: nat) {
    IsRun(states, actions) && forall n :: 0 <= n < |actions| ==> Orderly(states[n], actions[n], i)
  }

  lemma NextOrderly(s: State, a: Action, i: nat)
    requires Inv(s) && Enabled(s, a) && i < |s.clients| && Orderly(s, a, i) && ClientOk(s, i)
    requires StartsOk(s.sessions, s.clients[i].visits) && SessionsSound(s, i)
    ensures i < |Next(s, a).clients| && ClientOk(Next(s, a), i)
    ensures StartsOk(Next(s, a).sessions, Next(s, a).clients[i].visits) && SessionsSound(Next(s, a), i)
  {
    hide Inv, Next, ClientOk, Orderly, StartsOk, SessionsSound;
    NextHeard(s, a, i);
    NextStarts(s, a, i);
    NextSound(s, a, i);
  }

  lemma {:induction false} OrderlyKept(states: seq<State>, actions: seq<Action>, n: nat, i: nat)
    requires OrderlyRun(states, actions, i) && n < |states| && i < |states[0].clients|
    ensures i < |states[n].clients| && ClientOk(states[n], i)
    ensures StartsOk(states[n].sessions, states[n].clients[i].visits) && SessionsSound(states[n], i)
  {
    if n == 0 {
      assert states[0].clients[i].visits == [];
    } else {
      hide Inv, Next, ClientOk, Orderly, StartsOk, SessionsSound;
      OrderlyKept(states, actions, n - 1, i);
      RunInv(states, actions, n - 1);
      assert StepOk(states[n - 1], actions[n - 1], states[n]);
      NextOrderly(states[n - 1], actions[n - 1], i);
    }
  }

  /** The reconnect theorem: in every run that is orderly for a client, however often it disconnects
      and reconnects, what it has been sent over all its sessions is exactly the other clients'
      messages of the log up to its last read one, none skipped, in order. */
  lemma ReconnectTheorem(states: seq<State>, actions: seq<Action>, n: nat, i: nat)
    requires OrderlyRun(states, actions, i) && n < |states| && i < |states[n].clients|
    ensures var s := states[n];
      Complete(s.log, s.clients[i].id, Heard(s.sessions, s.clients[i].visits), ReadTo(s.clients[i]))
  {
    LogTheorem(states, actions, 0, n);
    OrderlyKept(states, actions, n, i);
  }

  /** Of everything heard, entry `y` was sent in the session `visits[m]`. */
  predicate InSession(sessions: map<nat, Session>, visits: seq<nat>, m: nat, y: nat) {
    m < |visits| && |Heard(sessions, visits[..m])| <= y < |Heard(sessions, visits[..m + 1])|
  }

  lemma {:induction false} HeardParts(sessions: map<nat, Session>, visits: seq<nat>, m: nat)
    requires m < |visits| && forall j :: j in visits ==> j in sessions
    ensures Heard(sessions, visits[..m + 1]) == Heard(sessions, visits[..m]) + sessions[visits[m]].sent
    ensures Heard(sessions, visits[..m + 1]) <= Heard(sessions, visits)
    decreases |visits|
  {
    var last := |visits| - 1;
    assert visits[last] in visits;
    if m == last {
      assert visits[..m + 1] == visits;
    } else {
      assert visits[..last][..m] == visits[..m] && visits[..last][..m + 1] == visits[..m + 1];
      HeardParts(sessions, visits[..last], m);
    }
  }

  lemma {:induction false} FindSession(sessions: map<nat, Session>, visits: seq<nat>, y: nat) returns (m: nat)
    requires y < |Heard(sessions, visits)| && forall j :: j in visits ==> j in sessions
    ensures InSession(sessions, visits, m, y)
  {
    var last := |visits| - 1;
    if y >= |Heard(sessions, visits[..last])| {
      m := last;
      assert visits[..m + 1] == visits;
    } else {
      m := FindSession(sessions, visits[..last], y);
      assert visits[..last][..m] == visits[..m] && visits[..last][..m + 1] == visits[..m + 1];
    }
  }

  lemma {:induction false} StartsOfPrefix(sessions: map<nat, Session>, visits: seq<nat>, m: nat)
    requires StartsOk(sessions, visits) && m < |visits|
    ensures visits[m] in sessions && UpTo(Heard(sessions, visits[..m]), sessions[visits[m]].start)
  {
    var last := |visits| - 1;
    if m < last {
      assert visits[..last][..m] == visits[..m];
      StartsOfPrefix(sessions, visits[..last], m);
    }
  }

  /** Where what a client has heard stands still, at entries `x` and `x + 1`: within session
      `visits[m]` at the last position it was replayed, or where that session begins, at the
      position its replay started from. */
  ghost predicate RepeatsAtSeam(sessions: map<nat, Session>, visits: seq<nat>, m: nat, x: nat)
    requires x + 1 < |Heard(sessions, visits)|
  {
    && InSession(sessions, visits, m, x + 1) && visits[m] in sessions
    && Heard(sessions, visits)[x + 1] ==
         if InSession(sessions, visits, m, x) then sessions[visits[m]].seam - 1 else sessions[visits[m]].start
  }

  /** The reconnect theorem on repeats: over all of a client's sessions a position is repeated only
      where a replay meets the broadcasts or where a new session begins. */
  lemma RepeatTheorem(states: seq<State>, actions: seq<Action>, n: nat, i: nat, x: nat) returns (m: nat)
    requires OrderlyRun(states, actions, i) && n < |states| && i < |states[n].clients|
    requires x + 1 < |Heard(states[n].sessions, states[n].clients[i].visits)|
    requires Heard(states[n].sessions, states[n].clients[i].visits)[x]
          == Heard(states[n].sessions, states[n].clients[i].visits)[x + 1]
    ensures RepeatsAtSeam(states[n].sessions, states[n].clients[i].visits, m, x)
  {
    OrderlySessions(states, actions, n, i);
    var sessions, visits := states[n].sessions, states[n].clients[i].visits;
    m := FindSession(sessions, visits, x + 1);
    assert visits[m] in visits;
    if x >= |Heard(sessions, visits[..m])| {
      RepeatInside(states, actions, n, visits, m, x);
    } else {
      HeardEntry(sessions, visits, m, x + 1);
      SentFromStart(states, actions, n, i, visits[m], 0);
      FirstRepeatsStart(sessions, visits, m, x);
    }
  }

  lemma RepeatInside(states: seq<State>, actions: seq<Action>, n: nat, visits: seq<nat>, m: nat, x: nat)
    requires IsRun(states, actions) && n < |states|
    requires forall j :: j in visits ==> j in states[n].sessions && !states[n].sessions[j].failed
    requires InSession(states[n].sessions, visits, m, x) && InSession(states[n].sessions, visits, m, x + 1)
    requires x + 1 < |Heard(states[n].sessions, visits)|
    requires Heard(states[n].sessions, visits)[x] == Heard(states[n].sessions, visits)[x + 1]
    ensures RepeatsAtSeam(states[n].sessions, visits, m, x)
  {
    hide IsRun, Heard;
    var sessions, k := states[n].sessions, visits[m];
    assert k in visits;
    HeardEntry(sessions, visits, m, x);
    HeardEntry(sessions, visits, m, x + 1);
    var y: nat := x - |Heard(sessions, visits[..m])|;
    assert sessions[k].sent[y] == sessions[k].sent[y + 1];
    RepeatsOnlyAtSeam(states, actions, n, k, y);
  }

  lemma OrderlySessions(states: seq<State>, actions: seq<Action>, n: nat, i: nat)
    requires OrderlyRun(states, actions, i) && n < |states| && i < |states[n].clients|
    ensures IsRun(states, actions) && SessionsSound(states[n], i)
    ensures StartsOk(states[n].sessions, states[n].clients[i].visits)
    ensures forall j :: j in states[n].clients[i].visits ==>
      j in states[n].sessions && states[n].sessions[j].client == i && !states[n].sessions[j].failed
  {
    LogTheorem(states, actions, 0, n);
    OrderlyKept(states, actions, n, i);
  }

  /** A session whose first entry repeats the one before repeats where its replay started. */
  lemma FirstRepeatsStart(sessions: map<nat, Session>, visits: seq<nat>, m: nat, x: nat)
    requires (forall j :: j in visits ==> j in sessions) && StartsOk(sessions, visits)
    requires InSession(sessions, visits, m, x + 1) && x + 1 == |Heard(sessions, visits[..m])|
    requires x + 1 < |Heard(sessions, visits)| && Heard(sessions, visits)[x] == Heard(sessions, visits)[x + 1]
    requires visits[m] in sessions && sessions[visits[m]].sent != []
    requires sessions[visits[m]].sent[0] >= sessions[visits[m]].start
    ensures Heard(sessions, visits)[x + 1] == sessions[visits[m]].start
  {
    HeardParts(sessions, visits, m);
    StartsOfPrefix(sessions, visits, m);
  }

  lemma HeardEntry(sessions: map<nat, Session>, visits: seq<nat>, m: nat, y: nat)
    requires InSession(sessions, visits, m, y) && forall j :: j in visits ==> j in sessions
    ensures var before := |Heard(sessions, visits[..m])|;
      && visits[m] in sessions && y - before < |sessions[visits[m]].sent| && y < |Heard(sessions, visits)|
      && Heard(sessions, visits)[y] == sessions[visits[m]].sent[y - before]
  {
    HeardParts(sessions, visits, m);
  }

  lemma SentFromStart(states: seq<State>, actions: seq<Action>, n: nat, i: nat, k: nat, y: nat)
    requires IsRun(states, actions) && n < |states| && SessionsSound(states[n], i)
    requires k in states[n].sessions && states[n].sessions[k].client == i && y < |states[n].sessions[k].sent|
    ensures states[n].sessions[k].sent[y] >= states[n].sessions[k].start
  {
    SessionTheorem(states, actions, n, k);
    RunInv(states, actions, n);
    var s, ses := states[n], states[n].sessions[k];
    assert SessionOk(s, k);
    var id := s.clients[i].id;
    OthersRise(s.log, id, ses.start, ses.seam);
    OthersRise(s.log, id, ses.joined, ServedTo(s, ses));
  }
}
