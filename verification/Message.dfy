/** The wire format of `message.c`: an eight-byte header of sender id, kind and length in
    network byte order, then the payload. */
module Message {
  import opened CIntegers
  import opened Options

  type Byte = x: int | 0 <= x < 0x100
  type UInt16 = x: int | 0 <= x < 0x1_0000
  type UInt32 = x: int | 0 <= x < 0x1_0000_0000

  const MESG_DATA: UInt16 := 0
  const MESG_CONN: UInt16 := 1
  const MESG_DCON: UInt16 := 2

  const MESG_HEADER_LEN: int := 8
  const MESG_MAX_LEN: int := 2040

  /** What a `struct message` holds. A message with a payload has `length` bytes of it. */
  datatype Mesg = Mesg(id: UInt16, kind: UInt16, length: UInt32, payload: Option<seq<Byte>>) {
    predicate Valid() {
      payload.Some? ==> |payload.value| == length
    }
  }

  // ----- network byte order -----

  function Bytes16(x: UInt16): (r: seq<Byte>)
    ensures |r| == 2
  {
    [x / 0x100, x % 0x100]
  }

  function Bytes32(x: UInt32): (r: seq<Byte>)
    ensures |r| == 4
  {
    [x / 0x100_0000, x / 0x1_0000 % 0x100, x / 0x100 % 0x100, x % 0x100]
  }

  function Value16(b: seq<Byte>): UInt16
    requires |b| == 2
  {
    0x100 * (b[0] as int) + b[1]
  }

  function Value32(b: seq<Byte>): UInt32
    requires |b| == 4
  {
    0x100_0000 * (b[0] as int) + 0x1_0000 * (b[1] as int) + 0x100 * (b[2] as int) + b[3]
  }

  lemma RoundTrip16(x: UInt16, b: seq<Byte>)
    requires |b| == 2
    ensures Value16(Bytes16(x)) == x && Bytes16(Value16(b)) == b
  {
  }

  lemma DecodeEncode32(x: UInt32)
    ensures Value32(Bytes32(x)) == x
  {
    assert x / 0x100 / 0x100 == x / 0x1_0000;
    assert x / 0x1_0000 / 0x100 == x / 0x100_0000;
  }

  lemma EncodeDecode32(b: seq<Byte>)
    requires |b| == 4
    ensures Bytes32(Value32(b)) == b
  {
    var x := Value32(b);
    assert x / 0x100_0000 == b[0];
    assert x / 0x1_0000 == 0x100 * b[0] as int + b[1];
    assert x / 0x100 == 0x100 * (0x100 * b[0] as int + b[1]) + b[2];
  }

  // ----- the format -----

  function Zeros(n: nat): (r: seq<Byte>)
    ensures |r| == n && forall k :: 0 <= k < n ==> r[k] == 0
  {
    if n == 0 then [] else Zeros(n - 1) + [0]
  }

  function Header(id: UInt16, kind: UInt16, length: UInt32): (r: seq<Byte>)
    ensures |r| == MESG_HEADER_LEN
  {
    Bytes16(id) + Bytes16(kind) + Bytes32(length)
  }

  /** A message without a payload is sent with zeros in its place. */
  function Body(m: Mesg): (r: seq<Byte>)
    requires m.Valid()
    ensures |r| == m.length
  {
    match m.payload
    case None => Zeros(m.length)
    case Some(p) => p
  }

  function Wire(m: Mesg): (r: seq<Byte>)
    requires m.Valid()
    ensures |r| == MESG_HEADER_LEN + m.length
  {
    Header(m.id, m.kind, m.length) + Body(m)
  }

  /** The message that the first eight bytes announce. */
  function Announced(b: seq<Byte>): Mesg
    requires |b| >= MESG_HEADER_LEN
  {
    Mesg(Value16(b[..2]), Value16(b[2..4]), Value32(b[4..8]), None)
  }

  function Unmarshalled(b: seq<Byte>): (m: Mesg)
    requires |b| >= MESG_HEADER_LEN && |b| >= MESG_HEADER_LEN + Announced(b).length
    ensures m.Valid()
  {
    var h := Announced(b);
    h.(payload := Some(b[MESG_HEADER_LEN..MESG_HEADER_LEN + h.length]))
  }

  lemma AnnouncedOfHeader(id: UInt16, kind: UInt16, length: UInt32, rest: seq<Byte>)
    ensures Announced(Header(id, kind, length) + rest) == Mesg(id, kind, length, None)
  {
    var b := Header(id, kind, length) + rest;
    assert b[..2] == Bytes16(id) && b[2..4] == Bytes16(kind) && b[4..8] == Bytes32(length);
    RoundTrip16(id, Bytes16(id));
    RoundTrip16(kind, Bytes16(kind));
    DecodeEncode32(length);
  }

  /** Unmarshalling undoes marshalling, whatever follows, up to a missing payload coming back
      as zeros; and every buffer that can be unmarshalled is what the result marshals to. */
  lemma WireRoundTrip(m: Mesg, rest: seq<Byte>)
    requires m.Valid()
    ensures Announced(Wire(m) + rest) == m.(payload := None)
    ensures Unmarshalled(Wire(m) + rest) == m.(payload := Some(Body(m)))
  {
    var b := Wire(m) + rest;
    assert b == Header(m.id, m.kind, m.length) + (Body(m) + rest);
    AnnouncedOfHeader(m.id, m.kind, m.length, Body(m) + rest);
    assert b[MESG_HEADER_LEN..MESG_HEADER_LEN + m.length] == Body(m);
  }

  lemma UnmarshalRoundTrip(b: seq<Byte>)
    requires |b| >= MESG_HEADER_LEN && |b| >= MESG_HEADER_LEN + Announced(b).length
    ensures Wire(Unmarshalled(b)) == b[..MESG_HEADER_LEN + Announced(b).length]
  {
    RoundTrip16(0, b[..2]);
    RoundTrip16(0, b[2..4]);
    EncodeDecode32(b[4..8]);
    var h := Announced(b);
    assert Header(h.id, h.kind, h.length) == b[..8];
  }

  /** The layout of the wire form, digit by digit: the most significant byte comes first. */
  lemma WireLayout(m: Mesg)
    requires m.Valid()
    ensures var w := Wire(m);
      && 0x100 * w[0] as int + w[1] == m.id
      && 0x100 * w[2] as int + w[3] == m.kind
      && 0x100_0000 * w[4] as int + 0x1_0000 * w[5] as int + 0x100 * w[6] as int + w[7] == m.length
      && forall k :: 0 <= k < m.length ==> w[8 + k] == if m.payload.Some? then m.payload.value[k] else 0
  {
    var w := Wire(m);
    assert w[0] == Bytes16(m.id)[0] && w[1] == Bytes16(m.id)[1];
    assert w[2] == Bytes16(m.kind)[0] && w[3] == Bytes16(m.kind)[1];
    assert forall k :: 0 <= k < 4 ==> w[4 + k] == Bytes32(m.length)[k];
    Digits32(m.length);
    assert forall k :: 0 <= k < m.length ==> w[8 + k] == Body(m)[k];
  }

  lemma Digits32(x: UInt32)
    ensures var b := Bytes32(x);
      0x100_0000 * b[0] as int + 0x1_0000 * b[1] as int + 0x100 * b[2] as int + b[3] == x
  {
    assert x / 0x100 / 0x100 == x / 0x1_0000;
    assert x / 0x1_0000 / 0x100 == x / 0x100_0000;
  }

  /** What a header announces, digit by digit. */
  lemma AnnouncedLayout(b: seq<Byte>)
    requires |b| >= MESG_HEADER_LEN
    ensures var h := Announced(b);
      && h.id == 0x100 * b[0] as int + b[1]
      && h.kind == 0x100 * b[2] as int + b[3]
      && h.length == 0x100_0000 * b[4] as int + 0x1_0000 * b[5] as int + 0x100 * b[6] as int + b[7]
      && h.payload == None
  {
    var p, q, r := b[..2], b[2..4], b[4..8];
    assert p[0] == b[0] && p[1] == b[1] && q[0] == b[2] && q[1] == b[3];
    assert r[0] == b[4] && r[1] == b[5] && r[2] == b[6] && r[3] == b[7];
  }

  // ----- creating messages -----

  function Capped(length: UInt32): (n: UInt32)
    ensures n <= length && n <= 2040 && (n == length || n == 2040)
  {
    if length > MESG_MAX_LEN then MESG_MAX_LEN else length
  }

  /** The first `Capped(length)` bytes, with the last of them zero. */
  function Terminated(bytes: seq<Byte>, length: UInt32): (r: seq<Byte>)
    requires 1 <= length && Capped(length) <= |bytes|
    ensures |r| == Capped(length) && r[|r| - 1] == 0
    ensures forall k :: 0 <= k < |r| - 1 ==> r[k] == bytes[k]
  {
    bytes[..Capped(length) - 1] + [0]
  }

  /** What `create_message` makes: at most 2040 bytes, ending in a zero. */
  ghost predicate Proper(m: Mesg) {
    && m.Valid() && m.payload.Some?
    && 1 <= m.length <= MESG_MAX_LEN && m.payload.value[m.length - 1] == 0
  }

  // ----- the code -----

  class Message {
    var id: UInt16
    var kind: UInt16
    var length: UInt32
    var payload: array?<Byte>

    ghost predicate Valid()
      reads this
    {
      payload != null ==> payload.Length == length
    }

    function Value(): (m: Mesg)
      requires Valid()
      reads this, payload
      ensures m.Valid()
    {
      Mesg(id, kind, length, if payload == null then None else Some(payload[..]))
    }

    /** `create_message_header` */
    constructor Header(length: UInt32, id: UInt16, kind: UInt16)
      ensures Valid() && Value() == Mesg(id, kind, length, None)
    {
      this.length, this.id, this.kind := length, id, kind;
      payload := null;
    }

    /** `create_message` */
    constructor (length: UInt32, id: UInt16, kind: UInt16, payload: array<Byte>)
      requires 1 <= length && Capped(length) <= payload.Length
      ensures Valid() && fresh(this.payload)
      ensures Value() == Mesg(id, kind, Capped(length), Some(Terminated(payload[..], length)))
      ensures Proper(Value())
    {
      var n := if length > MESG_MAX_LEN then MESG_MAX_LEN else length;
      var copy := new Byte[n](_ => 0);
      CopyInto(copy, 0, payload, 0, n);
      // whatever was copied, the last byte ends the string
      copy[n - 1] := 0;
      this.length, this.id, this.kind := n, id, kind;
      this.payload := copy;
      new;
      assert copy[..] == Terminated(payload[..], length);
    }
  }

  /** `memcpy` between two buffers. */
  method CopyInto(dst: array<Byte>, at: nat, src: array<Byte>, from: nat, n: nat)
    requires dst != src && at + n <= dst.Length && from + n <= src.Length
    modifies dst
    ensures dst[..] == old(dst[..at]) + src[from..from + n] + old(dst[at + n..])
  {
    for k := 0 to n
      invariant dst[..] == old(dst[..at]) + src[from..from + k] + old(dst[at + k..])
    {
      dst[at + k] := src[from + k];
    }
  }

  /** `*short_ptr = htons(x)` */
  method Put16(out: array<Byte>, at: nat, x: UInt16)
    requires at + 2 <= out.Length
    modifies out
    ensures out[..] == old(out[..at]) + Bytes16(x) + old(out[at + 2..])
  {
    out[at], out[at + 1] := x / 0x100, x % 0x100;
  }

  /** `*int_ptr = htonl(x)` */
  method Put32(out: array<Byte>, at: nat, x: UInt32)
    requires at + 4 <= out.Length
    modifies out
    ensures out[..] == old(out[..at]) + Bytes32(x) + old(out[at + 4..])
  {
    out[at], out[at + 1], out[at + 2], out[at + 3]
      := x / 0x100_0000, x / 0x1_0000 % 0x100, x / 0x100 % 0x100, x % 0x100;
  }

  /** `message_marshal`. The size is an `int`, which the header and payload must fit. */
  method MessageMarshal(m: Message) returns (out: array<Byte>, outLen: int)
    requires m.Valid() && MESG_HEADER_LEN + m.length <= INT_MAX
    ensures fresh(out) && outLen == out.Length && out[..] == Wire(m.Value())
  {
    var size := 2 + 2 + 4 + m.length;
    out := new Byte[size](_ => 0);
    AllZero(out[MESG_HEADER_LEN..]);
    var cursor := PutHeader(out, m);
    if m.payload != null {
      CopyInto(out, cursor, m.payload, 0, m.length);
      assert m.payload[0..m.length] == m.payload[..];
    }
    outLen := size;
  }

  method PutHeader(out: array<Byte>, m: Message) returns (cursor: nat)
    requires out.Length >= MESG_HEADER_LEN
    modifies out
    ensures cursor == MESG_HEADER_LEN
    ensures out[..cursor] == Header(m.id, m.kind, m.length)
    ensures out[..] == out[..cursor] + old(out[cursor..])
  {
    cursor := 0;
    Put16(out, cursor, m.id);
    cursor := cursor + 2;
    Put16(out, cursor, m.kind);
    cursor := cursor + 2;
    Put32(out, cursor, m.length);
    cursor := cursor + 4;
  }

  lemma AllZero(s: seq<Byte>)
    requires forall k :: 0 <= k < |s| ==> s[k] == 0
    ensures s == Zeros(|s|)
  {
  }

  /** `message_unmarshal` */
  method MessageUnmarshal(data: array<Byte>) returns (m: Message)
    requires data.Length >= MESG_HEADER_LEN && data.Length >= MESG_HEADER_LEN + Announced(data[..]).length
    ensures fresh(m) && m.Valid() && m.Value() == Unmarshalled(data[..])
  {
    m := MessageUnmarshalHeader(data);
    var payload := new Byte[m.length](_ => 0);
    CopyInto(payload, 0, data, MESG_HEADER_LEN, m.length);
    m.payload := payload;
    assert payload[..] == data[..][MESG_HEADER_LEN..MESG_HEADER_LEN + m.length];
  }

  /** `message_unmarshal_header` */
  method MessageUnmarshalHeader(data: array<Byte>) returns (m: Message)
    requires data.Length >= MESG_HEADER_LEN
    ensures fresh(m) && m.Valid() && m.Value() == Announced(data[..])
  {
    var cursor := 0;
    var id := Value16(data[cursor..cursor + 2]);
    cursor := cursor + 2;
    var kind := Value16(data[cursor..cursor + 2]);
    cursor := cursor + 2;
    var length := Value32(data[cursor..cursor + 4]);
    m := new Message.Header(length, id, kind);
  }
}
