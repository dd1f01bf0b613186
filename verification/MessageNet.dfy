/** The framing of `message_net.c` over a byte stream that arrives and leaves in pieces of any
    size, and the receive loop of the server's listener built on it. */
module MessageNet {
  import opened CIntegers
  import opened Message
  import opened Options

  /** A connection: the bytes the peer has sent and nobody has read yet, and the bytes written
      to the peer. */
  class Socket {
    var incoming: seq<Byte>
    var outgoing: seq<Byte>
    var failed: bool

    /** `recv(fd, buf + at, most, 0)`: fails, or delivers at least one byte. */
    method Recv(buf: array<Byte>, at: nat, most: nat) returns (n: int)
      requires 0 < most && at + most <= buf.Length
      modifies this`incoming, this`failed, buf
      ensures n < 0 ==> failed && incoming == old(incoming) && buf[..] == old(buf[..])
      ensures n >= 0 ==> 0 < n <= most && n <= |old(incoming)| && failed == old(failed)
      ensures n >= 0 ==> incoming == old(incoming)[n..]
      ensures n >= 0 ==> buf[..] == old(buf[..at]) + old(incoming)[..n] + old(buf[at + n..])
    {
      var fails, amount: int := *, *;
      if fails || incoming == [] {
        failed := true;
        return -1;
      }
      var limit := if most <= |incoming| then most else |incoming|;
      n := if 1 <= amount <= limit then amount else limit;
      forall k | 0 <= k < n {
        buf[at + k] := incoming[k];
      }
      incoming := incoming[n..];
    }

    /** `send(fd, buf + at, most, 0)`: fails, or takes at least one byte. */
    method Send(buf: array<Byte>, at: nat, most: nat) returns (n: int)
      requires 0 < most && at + most <= buf.Length
      modifies this`outgoing, this`failed
      ensures n < 0 ==> failed && outgoing == old(outgoing)
      ensures n >= 0 ==> 0 < n <= most && failed == old(failed)
      ensures n >= 0 ==> outgoing == old(outgoing) + buf[at..at + n]
    {
      var fails, amount: int := *, *;
      if fails {
        failed := true;
        return -1;
      }
      n := if 1 <= amount <= most then amount else most;
      outgoing := outgoing + buf[at..at + n];
    }
  }

  // ----- what is read -----

  /** How many bytes `recv_payload` takes off the stream for a payload of this announced
      length: the discard loop runs only while the length, as an `int`, is not reached. */
  function Taken(length: UInt32): (n: nat)
    ensures n >= Capped(length) && n == if length < 0x8000_0000 then length else 2040
  {
    if length <= INT_MAX then length else MESG_MAX_LEN
  }

  /** The message as the receiver has it. */
  function Received(h: Mesg, bytes: seq<Byte>): (m: Mesg)
    requires 1 <= h.length && Capped(h.length) <= |bytes|
    ensures Proper(m)
  {
    Mesg(h.id, h.kind, Capped(h.length), Some(Terminated(bytes, h.length)))
  }

  predicate HeaderOnly(h: Mesg) {
    h.kind == MESG_CONN || h.kind == MESG_DCON
  }

  /** What a listener makes of a stream: the messages it hands on, the unread rest, and whether
      it has stopped rather than waiting for more. */
  datatype Heard = Heard(messages: seq<Mesg>, rest: seq<Byte>, stopped: bool)

  /** What a listener hands on for a header with this payload: duplicate connects are dropped. */
  function HandedOn(h: Mesg, bytes: seq<Byte>): seq<Mesg>
    requires HeaderOnly(h) || (1 <= h.length && Capped(h.length) <= |bytes|)
  {
    if h.kind == MESG_CONN then [] else if h.kind == MESG_DCON then [h] else [Received(h, bytes)]
  }

  function PayloadTaken(h: Mesg): nat {
    if HeaderOnly(h) then 0 else Taken(h.length)
  }

  /** The stream starts with everything the listener reads for its first message. */
  predicate Complete(stream: seq<Byte>) {
    && |stream| >= MESG_HEADER_LEN
    && |stream| >= MESG_HEADER_LEN + PayloadTaken(Announced(stream))
  }

  /** The stream after the listener has read one message. */
  function AfterOne(stream: seq<Byte>): seq<Byte>
    requires Complete(stream)
  {
    stream[MESG_HEADER_LEN + PayloadTaken(Announced(stream))..]
  }

  function Listened(stream: seq<Byte>): Heard
    requires NoEmptyPayload(stream)
    decreases |stream|
  {
    if !Complete(stream) then Heard([], stream, false)
    else
      var h := Announced(stream);
      var first := HandedOn(h, stream[MESG_HEADER_LEN..]);
      if h.kind == MESG_DCON then Heard(first, AfterOne(stream), true)
      else var later := Listened(AfterOne(stream)); later.(messages := first + later.messages)
  }

  /** No payload is announced as empty before the listener stops. */
  predicate NoEmptyPayload(stream: seq<Byte>)
    decreases |stream|
  {
    |stream| >= MESG_HEADER_LEN ==>
      var h := Announced(stream);
      && (HeaderOnly(h) || 1 <= h.length)
      && (Complete(stream) && h.kind != MESG_DCON ==> NoEmptyPayload(AfterOne(stream)))
  }

  lemma ListenedNext(stream: seq<Byte>)
    requires NoEmptyPayload(stream)
    ensures !Complete(stream) ==> Listened(stream) == Heard([], stream, false)
    ensures Complete(stream) && Announced(stream).kind == MESG_DCON ==>
              Listened(stream) == Heard(FirstHandedOn(stream), AfterOne(stream), true)
    ensures Complete(stream) && Announced(stream).kind != MESG_DCON ==>
              NoEmptyPayload(AfterOne(stream)) && Listened(stream) == Later(FirstHandedOn(stream), Listened(AfterOne(stream)))
  {
  }

  function FirstHandedOn(stream: seq<Byte>): seq<Mesg>
    requires NoEmptyPayload(stream) && Complete(stream)
  {
    HandedOn(Announced(stream), stream[MESG_HEADER_LEN..])
  }

  function Later(first: seq<Mesg>, heard: Heard): Heard {
    heard.(messages := first + heard.messages)
  }

  // ----- framing -----

  /** A message after which the receiver is at the start of the next one. */
  predicate Framed(m: Mesg) {
    && m.Valid()
    && if HeaderOnly(m) then m.length == 0 else 1 <= m.length <= INT_MAX
  }

  ghost predicate Sendable(m: Mesg) {
    m.Valid() && (HeaderOnly(m) || 1 <= m.length)
  }

  /** After any message the stream stands at what the receiver left of its payload, and so at
      the next message exactly when the message is `Framed`. */
  lemma AlignedIff(m: Mesg, rest: seq<Byte>)
    requires Sendable(m)
    ensures Complete(Wire(m) + rest)
    ensures AfterOne(Wire(m) + rest) == Body(m)[PayloadTaken(m)..] + rest
    ensures AfterOne(Wire(m) + rest) == rest <==> Framed(m)
  {
    var stream := Wire(m) + rest;
    WireRoundTrip(m, rest);
    AfterHeader(m, rest);
    DropPart(stream, MESG_HEADER_LEN, PayloadTaken(m));
    DropOfConcat(Body(m), rest, PayloadTaken(m));
    if Framed(m) {
      assert Body(m)[PayloadTaken(m)..] == [];
    } else {
      assert |AfterOne(stream)| > |rest|;
    }
  }

  lemma AfterHeader(m: Mesg, rest: seq<Byte>)
    requires m.Valid()
    ensures |Wire(m) + rest| >= MESG_HEADER_LEN && (Wire(m) + rest)[MESG_HEADER_LEN..] == Body(m) + rest
  {
    assert Wire(m) + rest == Header(m.id, m.kind, m.length) + (Body(m) + rest);
  }

  lemma DropPart(s: seq<Byte>, i: nat, j: nat)
    requires i + j <= |s|
    ensures s[i + j..] == s[i..][j..]
  {
  }

  lemma DropOfConcat(a: seq<Byte>, b: seq<Byte>, k: nat)
    requires k <= |a|
    ensures (a + b)[k..] == a[k..] + b
  {
  }

  predicate AllFramed(ms: seq<Mesg>) {
    forall k :: 0 <= k < |ms| ==> Framed(ms[k])
  }

  function Stream(ms: seq<Mesg>): seq<Byte>
    requires AllFramed(ms)
  {
    if ms == [] then [] else Wire(ms[0]) + Stream(ms[1..])
  }

  /** What is handed on for a list of messages. */
  function AllHandedOn(ms: seq<Mesg>): seq<Mesg>
    requires AllFramed(ms)
  {
    if ms == [] then [] else OneOf(ms[0]) + AllHandedOn(ms[1..])
  }

  function OneOf(m: Mesg): seq<Mesg>
    requires Framed(m)
  {
    HandedOn(m.(payload := None), Body(m))
  }

  lemma OneHandedOn(m: Mesg, rest: seq<Byte>)
    requires Framed(m)
    ensures Complete(Wire(m) + rest) && Announced(Wire(m) + rest) == m.(payload := None)
    ensures AfterOne(Wire(m) + rest) == rest
    ensures HandedOn(m.(payload := None), (Wire(m) + rest)[MESG_HEADER_LEN..]) == OneOf(m)
  {
    AlignedIff(m, rest);
    WireRoundTrip(m, rest);
    AfterHeader(m, rest);
    HandedOnPrefix(m.(payload := None), Body(m), rest);
    hide *;
  }

  /** Only the payload itself counts, not what follows. */
  lemma HandedOnPrefix(h: Mesg, bytes: seq<Byte>, rest: seq<Byte>)
    requires HeaderOnly(h) || (1 <= h.length && Capped(h.length) <= |bytes|)
    ensures HandedOn(h, bytes + rest) == HandedOn(h, bytes)
  {
    if !HeaderOnly(h) {
      assert (bytes + rest)[..Capped(h.length) - 1] == bytes[..Capped(h.length) - 1];
    }
  }

  lemma OneListened(m: Mesg, rest: seq<Byte>)
    requires Framed(m) && (m.kind != MESG_DCON ==> NoEmptyPayload(rest))
    ensures NoEmptyPayload(Wire(m) + rest)
    ensures m.kind == MESG_DCON ==> Listened(Wire(m) + rest) == Heard(OneOf(m), rest, true)
    ensures m.kind != MESG_DCON ==> Listened(Wire(m) + rest) == Later(OneOf(m), Listened(rest))
  {
    OneHandedOn(m, rest);
    assert NoEmptyPayload(Wire(m) + rest);
    ListenedNext(Wire(m) + rest);
  }

  /** However the stream of a list of messages is cut into reads, the messages come out in
      order, and what follows them is read as if it stood alone. */
  lemma {:induction false} StreamTheorem(ms: seq<Mesg>, rest: seq<Byte>)
    requires AllFramed(ms) && forall k :: 0 <= k < |ms| ==> ms[k].kind != MESG_DCON
    requires NoEmptyPayload(rest)
    ensures NoEmptyPayload(Stream(ms) + rest)
    ensures Listened(Stream(ms) + rest) == Later(AllHandedOn(ms), Listened(rest))
  {
    if ms == [] {
      assert Stream(ms) + rest == rest;
    } else {
      var tail := Stream(ms[1..]) + rest;
      assert Stream(ms) + rest == Wire(ms[0]) + tail;
      StreamTheorem(ms[1..], rest);
      OneListened(ms[0], tail);
      LaterTwice(OneOf(ms[0]), AllHandedOn(ms[1..]), Listened(rest));
    }
  }

  /** What becomes of a message that comes in, framed or not: a connect is dropped, a disconnect
      handed on as it is, and of any other one the sender, the kind and the first 2040 bytes, the
      last one zeroed. */
  lemma OneBecomes(m: Mesg, rest: seq<Byte>)
    requires Sendable(m)
    ensures var out := HandedOn(m.(payload := None), Body(m) + rest);
      && (m.kind == 1 ==> out == [])
      && (m.kind == 2 ==> out == [Mesg(m.id, 2, m.length, None)])
      && (m.kind != 1 && m.kind != 2 ==>
           && |out| == 1 && var r := out[0];
           && r.id == m.id && r.kind == m.kind && r.length == (if m.length <= 2040 then m.length else 2040)
           && r.payload.Some? && |r.payload.value| == r.length
           && forall k :: 0 <= k < r.length ==> r.payload.value[k] == if k == r.length - 1 then 0 else Body(m)[k])
    ensures Framed(m) ==> AllHandedOn([m]) == HandedOn(m.(payload := None), Body(m) + rest)
  {
    HandedOnPrefix(m.(payload := None), Body(m), rest);
  }

  /** A connect on an open connection leaves no trace. */
  lemma ConnectDropped(id: UInt16, rest: seq<Byte>)
    requires NoEmptyPayload(rest)
    ensures var m := Mesg(id, MESG_CONN, 0, None);
      NoEmptyPayload(Wire(m) + rest) && Listened(Wire(m) + rest) == Listened(rest)
  {
    var m := Mesg(id, MESG_CONN, 0, None);
    OneListened(m, rest);
    assert [] + Listened(rest).messages == Listened(rest).messages;
  }

  /** No connect is ever handed on. */
  lemma {:induction false} NoConnects(ms: seq<Mesg>)
    requires AllFramed(ms)
    ensures forall k :: 0 <= k < |AllHandedOn(ms)| ==> AllHandedOn(ms)[k].kind != 1
  {
    if ms != [] {
      NoConnects(ms[1..]);
      OneBecomes(ms[0], []);
      assert AllHandedOn([ms[0]]) == OneOf(ms[0]);
      hide OneOf, Framed;
    }
  }

  /** What is handed on for one list and then another is what is handed on for the two together. */
  lemma {:induction false} AllHandedOnJoins(ms: seq<Mesg>, more: seq<Mesg>)
    requires AllFramed(ms) && AllFramed(more)
    ensures AllFramed(ms + more) && AllHandedOn(ms + more) == AllHandedOn(ms) + AllHandedOn(more)
  {
    if ms == [] {
      assert ms + more == more;
    } else {
      AllHandedOnJoins(ms[1..], more);
      hide OneOf, Framed;
      assert (ms + more)[0] == ms[0] && (ms + more)[1..] == ms[1..] + more;
      ConcatThree(OneOf(ms[0]), AllHandedOn(ms[1..]), AllHandedOn(more));
    }
  }

  lemma ConcatThree(a: seq<Mesg>, b: seq<Mesg>, c: seq<Mesg>)
    ensures a + (b + c) == a + b + c
  {
  }

  lemma LaterTwice(a: seq<Mesg>, b: seq<Mesg>, heard: Heard)
    ensures Later(a, Later(b, heard)) == Later(a + b, heard)
  {
    assert a + (b + heard.messages) == a + b + heard.messages;
  }

  /** A disconnect ends the session there, whatever bytes follow. */
  lemma DisconnectTheorem(ms: seq<Mesg>, bye: Mesg, rest: seq<Byte>)
    requires AllFramed(ms) && forall k :: 0 <= k < |ms| ==> ms[k].kind != MESG_DCON
    requires Framed(bye) && bye.kind == MESG_DCON
    ensures NoEmptyPayload(Stream(ms) + (Wire(bye) + rest))
    ensures Listened(Stream(ms) + (Wire(bye) + rest)) == Heard(AllHandedOn(ms) + [bye.(payload := None)], rest, true)
  {
    OneListened(bye, rest);
    StreamTheorem(ms, Wire(bye) + rest);
  }

  lemma OneUnchanged(m: Mesg)
    requires Proper(m) && !HeaderOnly(m)
    ensures Framed(m) && OneOf(m) == [m]
  {
    var p := m.payload.value;
    assert Terminated(p, m.length) == p;
  }

  /** Messages made by `create_message` arrive as they were sent. */
  lemma {:induction false} CreatedArriveUnchanged(ms: seq<Mesg>)
    requires forall k :: 0 <= k < |ms| ==> Proper(ms[k]) && !HeaderOnly(ms[k])
    ensures AllFramed(ms) && AllHandedOn(ms) == ms
  {
    if ms != [] {
      OneUnchanged(ms[0]);
      CreatedArriveUnchanged(ms[1..]);
      assert ms == [ms[0]] + ms[1..];
    }
  }

  // ----- the code -----

  method RecvHeader(sock: Socket) returns (m: Message?)
    requires !sock.failed
    modifies sock`incoming, sock`failed
    ensures m == null <==> sock.failed
    ensures m != null ==> fresh(m) && m.Valid() && |old(sock.incoming)| >= MESG_HEADER_LEN
    ensures m != null ==> m.Value() == Announced(old(sock.incoming))
    ensures m != null ==> sock.incoming == old(sock.incoming)[MESG_HEADER_LEN..]
  {
    var recvd, recvBuf := 0, new Byte[MESG_HEADER_LEN](_ => 0);
    ghost var stream := sock.incoming;
    while recvd < MESG_HEADER_LEN
      invariant 0 <= recvd <= MESG_HEADER_LEN && recvd <= |stream| && !sock.failed
      invariant sock.incoming == stream[recvd..] && recvBuf[..recvd] == stream[..recvd]
    {
      var toRead := MESG_HEADER_LEN - recvd;
      var n := sock.Recv(recvBuf, recvd, toRead);
      if n < 0 {
        return null;
      }
      recvd := recvd + n;
    }
    assert recvBuf[..] == stream[..MESG_HEADER_LEN];
    SameHeader(recvBuf[..], stream);
    m := MessageUnmarshalHeader(recvBuf);
  }

  lemma SameHeader(buf: seq<Byte>, stream: seq<Byte>)
    requires |stream| >= MESG_HEADER_LEN && buf == stream[..MESG_HEADER_LEN]
    ensures Announced(buf) == Announced(stream)
  {
    assert buf[..2] == stream[..2] && buf[2..4] == stream[2..4] && buf[4..8] == stream[4..8];
  }

  method RecvPayload(sock: Socket, m: Message) returns (ret: int)
    requires !sock.failed && m.Valid() && m.length >= 1
    modifies sock`incoming, sock`failed, m`length, m`payload
    ensures ret == 0 <==> !sock.failed
    ensures ret == 0 ==> m.Valid() && Taken(old(m.length)) <= |old(sock.incoming)|
    ensures ret == 0 ==> m.Value() == Received(old(m.Value()), old(sock.incoming))
    ensures ret == 0 ==> sock.incoming == old(sock.incoming)[Taken(old(m.length))..]
  {
    ghost var stream, length := sock.incoming, m.length;
    var recvLen := ToInt32(m.length);
    m.length := if m.length <= MESG_MAX_LEN then m.length else MESG_MAX_LEN;
    m.payload := new Byte[m.length](_ => 0);
    ret := Fill(sock, m.payload);
    if ret < 0 {
      return;
    }
    ret := Discard(sock, m.length, recvLen);
    if ret < 0 {
      return;
    }
    // a terminated payload stays as it is
    AllTaken(stream, length, recvLen);
    ghost var whole := m.payload[..];
    m.payload[m.length - 1] := 0;
    assert m.payload[..] == whole[m.length - 1 := 0];
    LastByteZero(stream, length);
  }

  lemma AllTaken(stream: seq<Byte>, length: UInt32, recvLen: int)
    requires recvLen == ToInt32(length) && Capped(length) <= |stream|
    requires Capped(length) < recvLen ==> recvLen - Capped(length) <= |stream[Capped(length)..]|
    ensures Taken(length) <= |stream|
    ensures stream[Taken(length)..] ==
            if Capped(length) < recvLen then stream[Capped(length)..][recvLen - Capped(length)..] else stream[Capped(length)..]
  {
  }

  lemma LastByteZero(stream: seq<Byte>, length: UInt32)
    requires 1 <= length && Capped(length) <= |stream|
    ensures stream[..Capped(length)][Capped(length) - 1 := 0] == Terminated(stream, length)
  {
  }

  /** The first loop of `recv_payload`. */
  method Fill(sock: Socket, payload: array<Byte>) returns (ret: int)
    requires !sock.failed
    modifies sock`incoming, sock`failed, payload
    ensures ret == 0 || ret < 0
    ensures ret == 0 <==> !sock.failed
    ensures ret == 0 ==> payload.Length <= |old(sock.incoming)| && payload[..] == old(sock.incoming)[..payload.Length]
    ensures ret == 0 ==> sock.incoming == old(sock.incoming)[payload.Length..]
  {
    var recvd := 0;
    ghost var stream := sock.incoming;
    while recvd < payload.Length
      invariant 0 <= recvd <= payload.Length && recvd <= |stream| && !sock.failed
      invariant sock.incoming == stream[recvd..] && payload[..recvd] == stream[..recvd]
    {
      var toRecv := payload.Length - recvd;
      var n := sock.Recv(payload, recvd, toRecv);
      if n < 0 {
        return n;
      }
      recvd := recvd + n;
    }
    return 0;
  }

  /** The second loop of `recv_payload`, which throws the rest of a long payload away. */
  method Discard(sock: Socket, start: nat, recvLen: int) returns (ret: int)
    requires !sock.failed
    modifies sock`incoming, sock`failed
    ensures ret == 0 || ret < 0
    ensures ret == 0 <==> !sock.failed
    ensures ret == 0 && start >= recvLen ==> sock.incoming == old(sock.incoming)
    ensures ret == 0 && start < recvLen ==> recvLen - start <= |old(sock.incoming)|
    ensures ret == 0 && start < recvLen ==> sock.incoming == old(sock.incoming)[recvLen - start..]
  {
    var recvd: int := start;
    ghost var stream := sock.incoming;
    if recvd < recvLen {
      var discardBuf := new Byte[2048](_ => 0);
      while recvd < recvLen
        invariant start <= recvd <= recvLen && recvd - start <= |stream| && !sock.failed
        invariant sock.incoming == stream[recvd - start..]
      {
        var bytesLeft := recvLen - recvd;
        var toRecv := if bytesLeft < 2048 then bytesLeft else 2048;
        var n := sock.Recv(discardBuf, 0, toRecv);
        if n < 0 {
          return n;
        }
        recvd := recvd + n;
      }
    }
    return 0;
  }

  method SendMessage(sock: Socket, m: Message) returns (ret: int)
    requires m.Valid() && MESG_HEADER_LEN + m.length <= INT_MAX && !sock.failed
    modifies sock`outgoing, sock`failed
    ensures ret == 0 || ret == -1
    ensures ret == 0 <==> !sock.failed
    ensures ret == 0 ==> sock.outgoing == old(sock.outgoing) + Wire(m.Value())
    ensures old(sock.outgoing) <= sock.outgoing <= old(sock.outgoing) + Wire(m.Value())
  {
    var mesgBytes, sendLen := MessageMarshal(m);
    var sent := 0;
    ghost var before, w := sock.outgoing, Wire(m.Value());
    while sent < sendLen
      invariant 0 <= sent <= sendLen && !sock.failed
      invariant mesgBytes[..] == w && sock.outgoing == before + w[..sent]
    {
      var toSend := sendLen - sent;
      var n := sock.Send(mesgBytes, sent, toSend);
      if n < 0 {
        return -1;
      }
      NextPiece(before, w, sent, n);
      assert mesgBytes[sent..sent + n] == w[sent..sent + n];
      sent := sent + n;
    }
    assert w[..sent] == w;
    return 0;
  }

  lemma NextPiece(before: seq<Byte>, w: seq<Byte>, sent: nat, n: nat)
    requires sent + n <= |w|
    ensures before + w[..sent] + w[sent..sent + n] == before + w[..sent + n]
  {
  }

  /** The listener's loop over a connection, up to the peer's disconnect or a failed read. */
  method Listen(sock: Socket) returns (enqueued: seq<Mesg>)
    requires !sock.failed && NoEmptyPayload(sock.incoming)
    modifies sock`incoming, sock`failed
    ensures enqueued <= Listened(old(sock.incoming)).messages
    ensures !sock.failed ==> Heard(enqueued, sock.incoming, true) == Listened(old(sock.incoming))
  {
    enqueued := [];
    ghost var all := Listened(sock.incoming);
    while true
      invariant !sock.failed && NoEmptyPayload(sock.incoming)
      invariant all == Later(enqueued, Listened(sock.incoming))
      decreases |sock.incoming|
    {
      ghost var stream, before := sock.incoming, enqueued;
      ListenedNext(stream);
      var more, stop := ListenOnce(sock);
      enqueued := enqueued + more;
      if !stop {
        LaterTwice(before, more, Listened(sock.incoming));
      }
      if stop {
        return;
      }
    }
  }

  /** One round of the loop. */
  method ListenOnce(sock: Socket) returns (enqueued: seq<Mesg>, stop: bool)
    requires !sock.failed && NoEmptyPayload(sock.incoming)
    modifies sock`incoming, sock`failed
    ensures sock.failed ==> stop && enqueued == []
    ensures !sock.failed ==> Complete(old(sock.incoming)) && sock.incoming == AfterOne(old(sock.incoming))
    ensures !sock.failed ==> enqueued == FirstHandedOn(old(sock.incoming))
    ensures !sock.failed ==> stop == (Announced(old(sock.incoming)).kind == MESG_DCON)
  {
    var m := RecvHeader(sock);
    if m == null {
      return [], true;
    }
    if m.kind == MESG_DCON {
      return [m.Value()], true;
    } else if m.kind == MESG_CONN {
      // the connection is already open
      return [], false;
    }
    var ret := RecvPayload(sock, m);
    if ret != 0 {
      return [], true;
    }
    return [m.Value()], false;
  }
}
