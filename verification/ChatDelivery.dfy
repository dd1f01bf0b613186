/** What a connected client receives, for one session and across reconnects. */
module ChatDelivery {
  import opened ChatProtocol
  import opened Options
  import opened ChatSafety

  // ----- positions -----

  lemma {:induction false} OthersMembers(log: seq<Msg>, id: nat, from: nat, to: nat, p: nat)
    requires to <= |log|
    ensures p in Others(log, id, from, to) <==> from <= p < to && log[p].id != id
  {
    if to > from {
      OthersMembers(log, id, from, to - 1, p);
      var before, last := Others(log, id, from, to - 1), if log[to - 1].id != id then [to - 1] else [];
      assert p in before + last <==> p in before || p in last;
    }
  }

  lemma {:induction false} OthersSplit(log: seq<Msg>, id: nat, from: nat, mid: nat, to: nat)
    requires from <= mid <= to <= |log|
    ensures Others(log, id, from, to) == Others(log, id, from, mid) + Others(log, id, mid, to)
  {
    if to > mid { OthersSplit(log, id, from, mid, to - 1); }
  }

  // ----- one session -----

  /** In every run, what has been written to a socket whose sends all succeeded is the log from
      the starting last read message through the end of the replay, then from the first
      broadcast after registration through the last completed one, each filtered by sender. */
  lemma SessionTheorem(states: seq<State>, actions: seq<Action>, n: nat, k: nat)
    requires IsRun(states, actions) && n < |states|
    requires k in states[n].sessions && !states[n].sessions[k].failed
    ensures var s := states[n];
      var ses := s.sessions[k];
      ses.client < |s.clients| && ses.start <= ses.seam <= |s.log| && ServedTo(s, ses) <= Broadcasted(s)
      && ses.sent == Others(s.log, s.clients[ses.client].id, ses.start, ses.seam)
                   + Others(s.log, s.clients[ses.client].id, ses.joined, ServedTo(s, ses))
      && (!ses.phase.Forwarded? ==> ses.seam <= ses.joined + 1)
  {
    RunInv(states, actions, n);
    assert SessionOk(states[n], k);
  }

  /** How far a session has been served, by its replay or by the broadcasts. */
  function ServedUpTo(s: State, ses: Session): nat {
    if ServedTo(s, ses) < ses.seam then ses.seam else ServedTo(s, ses)
  }

  /** Everything from `from` to `to`, once, or with the position before `seam` twice. */
  ghost predicate OnceOrSeamTwice(log: seq<Msg>, id: nat, sent: seq<nat>, from: nat, seam: nat, to: nat)
    requires seam <= to <= |log|
  {
    || sent == Others(log, id, from, to)
    || (seam > 0 && sent == Others(log, id, from, seam) + Others(log, id, seam - 1, seam) + Others(log, id, seam, to))
  }

  /** With no message logged and broadcast between replay and registration, a session gets
      everything from its start through the last broadcast, in order, apart from at most one
      adjacent repeat where the replay meets the broadcasts; the repeat is there exactly when the
      socket was registered before the broadcast of the last replayed message, and that broadcast
      has come. */
  lemma SeamTheorem(states: seq<State>, actions: seq<Action>, n: nat, k: nat)
    requires IsRun(states, actions) && n < |states|
    requires k in states[n].sessions && !states[n].sessions[k].failed && !states[n].sessions[k].phase.Forwarded?
    requires states[n].sessions[k].joined <= states[n].sessions[k].seam
    ensures var s := states[n];
      var ses := s.sessions[k];
      ses.client < |s.clients| && ServedUpTo(s, ses) <= |s.log| &&
      var id, to := s.clients[ses.client].id, ServedUpTo(s, ses);
      if ses.joined == ses.seam || ServedTo(s, ses) < ses.seam then ses.sent == Others(s.log, id, ses.start, to)
      else ses.joined == ses.seam - 1 &&
           ses.sent == Others(s.log, id, ses.start, ses.seam)
                     + Others(s.log, id, ses.seam - 1, ses.seam)
                     + Others(s.log, id, ses.seam, to)
  {
    SessionTheorem(states, actions, n, k);
    RunInv(states, actions, n);
    var s := states[n];
    var ses := s.sessions[k];
    assert SessionOk(s, k);
    var id := s.clients[ses.client].id;
    if ServedTo(s, ses) < ses.seam {
      assert Others(s.log, id, ses.joined, ServedTo(s, ses)) == [];
    } else if ses.joined == ses.seam {
      OthersSplit(s.log, id, ses.start, ses.seam, ServedTo(s, ses));
    } else {
      OthersSplit(s.log, id, ses.joined, ses.seam, ServedTo(s, ses));
    }
  }

  /** Strictly ascending, between `from` and `to`. */
  predicate Rising(r: seq<nat>, from: nat, to: nat) {
    && (forall x :: 0 <= x < |r| ==> from <= r[x] < to)
    && forall x, y :: 0 <= x < y < |r| ==> r[x] < r[y]
  }

  lemma {:induction false} OthersRise(log: seq<Msg>, id: nat, from: nat, to: nat)
    requires to <= |log|
    ensures Rising(Others(log, id, from, to), from, to)
  {
    if to > from {
      OthersRise(log, id, from, to - 1);
      var before, last := Others(log, id, from, to - 1), if log[to - 1].id != id then [to - 1] else [];
      assert Others(log, id, from, to) == before + last;
      assert Rising(before + last, from, to);
    }
  }

  /** What is written to a socket moves forwards through the log, and stands still at most once:
      where the replay meets the broadcasts. */
  lemma RepeatsOnlyAtSeam(states: seq<State>, actions: seq<Action>, n: nat, k: nat, x: nat)
    requires IsRun(states, actions) && n < |states|
    requires k in states[n].sessions && !states[n].sessions[k].failed
    requires x + 1 < |states[n].sessions[k].sent|
    ensures var ses := states[n].sessions[k];
      && ses.sent[x] <= ses.sent[x + 1]
      && (ses.sent[x] == ses.sent[x + 1] ==> ses.sent[x] == ses.seam - 1 == ses.joined)
  {
    SessionTheorem(states, actions, n, k);
    RunInv(states, actions, n);
    var s := states[n];
    var ses := s.sessions[k];
    assert SessionOk(s, k);
    var id := s.clients[ses.client].id;
    OthersRise(s.log, id, ses.start, ses.seam);
    OthersRise(s.log, id, ses.joined, ServedTo(s, ses));
  }

  /** A session that has been registered misses nothing exactly when every message logged after
      its replay and broadcast before its registration was its own client's. */
  lemma MissesNothingIff(states: seq<State>, actions: seq<Action>, n: nat, k: nat)
    requires IsRun(states, actions) && n < |states|
    requires k in states[n].sessions && !states[n].sessions[k].failed && !states[n].sessions[k].phase.Forwarded?
    ensures var s := states[n];
      var ses := s.sessions[k];
      ses.client < |s.clients| && ses.seam <= |s.log| && ses.joined <= ServedTo(s, ses) <= |s.log| &&
      var id := s.clients[ses.client].id;
      (forall p :: ses.start <= p < ServedTo(s, ses) && s.log[p].id != id ==> p in ses.sent)
      <==> (forall p :: ses.seam <= p < ses.joined ==> s.log[p].id == id)
  {
    SessionTheorem(states, actions, n, k);
    RunInv(states, actions, n);
    var s := states[n];
    var ses := s.sessions[k];
    assert SessionOk(s, k);
    var id := s.clients[ses.client].id;
    forall p: nat ensures p in ses.sent <==>
      (ses.start <= p < ses.seam || ses.joined <= p < ServedTo(s, ses)) && p < |s.log| && s.log[p].id != id
    {
      OthersMembers(s.log, id, ses.start, ses.seam, p);
      OthersMembers(s.log, id, ses.joined, ServedTo(s, ses), p);
    }
  }

  // ----- the window between replay and registration -----

  /** Between steps `a` and `b` some message was both appended and broadcast. */
  ghost predicate WholeMessageBetween(states: seq<State>, actions: seq<Action>, a: nat, b: nat)
    requires |states| == |actions| + 1
  {
    exists x, y :: a < x < y < b <= |actions| && AppendsAt(states, actions, x) && BroadcastsAt(states, actions, y)
      && |states[y].log| == |states[x].log| + 1
  }

  ghost predicate AppendsAt(states: seq<State>, actions: seq<Action>, x: nat)
    requires |states| == |actions| + 1
  {
    x < |actions| && actions[x].Append?
  }

  ghost predicate BroadcastsAt(states: seq<State>, actions: seq<Action>, y: nat)
    requires |states| == |actions| + 1
  {
    y < |actions| && actions[y].Broadcast?
  }

  /** Only a broadcast completes one more, and then of the whole log. */
  lemma BroadcastedStep(s: State, a: Action)
    requires Inv(s) && Enabled(s, a)
    ensures a.Broadcast? ==> |s.log| == Broadcasted(s) + 1 == Broadcasted(Next(s, a))
    ensures !a.Broadcast? ==> Broadcasted(Next(s, a)) == Broadcasted(s)
  {
  }

  lemma BroadcastedAt(states: seq<State>, actions: seq<Action>, n: nat)
    requires IsRun(states, actions) && n < |actions|
    ensures actions[n].Broadcast? ==> |states[n].log| == Broadcasted(states[n]) + 1 == Broadcasted(states[n + 1])
    ensures !actions[n].Broadcast? ==> Broadcasted(states[n + 1]) == Broadcasted(states[n])
  {
    RunInv(states, actions, n);
    assert StepOk(states[n], actions[n], states[n + 1]);
    BroadcastedStep(states[n], actions[n]);
  }

  /** The step at which the number of completed broadcasts first exceeds `bound`. */
  lemma {:induction false} FirstBroadcastBeyond(states: seq<State>, actions: seq<Action>, a: nat, b: nat, bound: nat)
    returns (y: nat)
    requires IsRun(states, actions) && a <= b < |states|
    requires Broadcasted(states[a]) <= bound < Broadcasted(states[b])
    ensures a <= y < b && actions[y].Broadcast? && |states[y].log| == bound + 1
    decreases b
  {
    BroadcastedAt(states, actions, b - 1);
    if Broadcasted(states[b - 1]) > bound {
      y := FirstBroadcastBeyond(states, actions, a, b - 1, bound);
    } else {
      y := b - 1;
    }
  }

  /** The step at which the log first grows beyond `bound`. */
  lemma {:induction false} FirstAppendBeyond(states: seq<State>, actions: seq<Action>, a: nat, b: nat, bound: nat)
    returns (x: nat)
    requires IsRun(states, actions) && a <= b < |states|
    requires |states[a].log| <= bound < |states[b].log|
    ensures a <= x < b && actions[x].Append? && |states[x].log| == bound
    decreases b
  {
    assert StepOk(states[b - 1], actions[b - 1], states[b]);
    if |states[b - 1].log| > bound {
      x := FirstAppendBeyond(states, actions, a, b - 1, bound);
    } else {
      x := b - 1;
    }
  }

  /** A socket registered at step `b` after a replay at step `a` has skipped log positions
      exactly when some message had both its append and its broadcast in between. */
  lemma WindowIff(states: seq<State>, actions: seq<Action>, a: nat, b: nat, i: nat, k: nat)
    requires IsRun(states, actions) && a < b < |actions|
    requires actions[a] == FastForward(i, k) && actions[b] == AddConnection(k)
    ensures k in states[a + 1].sessions && states[a + 1].sessions[k].seam == |states[a].log|
    ensures k in states[b + 1].sessions && states[b + 1].sessions[k].joined == Broadcasted(states[b])
    ensures WholeMessageBetween(states, actions, a, b) <==> Broadcasted(states[b]) > |states[a].log|
  {
    assert StepOk(states[a], actions[a], states[a + 1]);
    assert StepOk(states[b], actions[b], states[b + 1]);
    RunInv(states, actions, a);
    var bound := |states[a].log|;
    if Broadcasted(states[b]) > bound {
      var y := FirstBroadcastBeyond(states, actions, a, b, bound);
      var x := FirstAppendBeyond(states, actions, a, y, bound);
      assert AppendsAt(states, actions, x) && BroadcastsAt(states, actions, y);
    }
    if WholeMessageBetween(states, actions, a, b) {
      var x, y :| a < x < y < b && AppendsAt(states, actions, x) && BroadcastsAt(states, actions, y)
        && |states[y].log| == |states[x].log| + 1;
      assert StepOk(states[y], actions[y], states[y + 1]);
      LogTheorem(states, actions, a, x);
      LogTheorem(states, actions, y + 1, b);
    }
  }

  /** A session's history does not change once it is written down. */
  ghost predicate SameSession(x: Session, y: Session) {
    x.client == y.client && x.start == y.start && x.seam == y.seam
    && (!x.phase.Forwarded? ==> x.joined == y.joined && !y.phase.Forwarded?)
    && (x.failed ==> y.failed)
  }

  lemma SessionStepKept(s: State, a: Action, k: nat)
    requires Sane(s) && Enabled(s, a) && k in s.sessions
    ensures k in Next(s, a).sessions && SameSession(s.sessions[k], Next(s, a).sessions[k])
  {
    if a.Broadcast? {
      assert Next(s, a).sessions[k] == Delivered(s, a.unreachable, k);
    }
  }

  lemma {:induction false} SessionKept(states: seq<State>, actions: seq<Action>, m: nat, n: nat, k: nat)
    requires IsRun(states, actions) && m <= n < |states| && k in states[m].sessions
    ensures k in states[n].sessions && SameSession(states[m].sessions[k], states[n].sessions[k])
    decreases n
  {
    if m < n {
      SessionKept(states, actions, m, n - 1, k);
      assert StepOk(states[n - 1], actions[n - 1], states[n]);
      SessionStepKept(states[n - 1], actions[n - 1], k);
    }
  }

  /** The delivery theorem. Let a socket be replayed the log at step `a` and registered at step
      `b`, with no message both appended and broadcast in between, and let all its sends have
      succeeded by state `n`. Then it has been sent the log, filtered by sender, from the
      client's last read message at `a` through the last broadcast it was registered for (or the
      end of its replay, while that broadcast is pending), in order, apart from at most one adjacent
      repeat of the last replayed position. */
  lemma DeliveryTheorem(states: seq<State>, actions: seq<Action>, a: nat, b: nat, n: nat, i: nat, k: nat)
    requires IsRun(states, actions) && a < b < n < |states|
    requires actions[a] == FastForward(i, k) && actions[b] == AddConnection(k)
    requires !WholeMessageBetween(states, actions, a, b)
    requires k in states[n].sessions && !states[n].sessions[k].failed
    ensures var s, ses := states[n], states[n].sessions[k];
      i < |s.clients| && i < |states[a].clients| && |states[a].log| <= ServedUpTo(s, ses) <= |s.log| &&
      OnceOrSeamTwice(s.log, s.clients[i].id, ses.sent, ReplayFrom(states[a].clients[i]), |states[a].log|, ServedUpTo(s, ses))
  {
    WindowIff(states, actions, a, b, i, k);
    assert StepOk(states[a], actions[a], states[a + 1]);
    assert StepOk(states[b], actions[b], states[b + 1]);
    SessionKept(states, actions, a + 1, n, k);
    SessionKept(states, actions, b + 1, n, k);
    SeamTheorem(states, actions, n, k);
  }
}
