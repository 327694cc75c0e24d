/** The chat relay's wire format (server.rb, readPacket and sendPacket).
    A frame is the magic bytes 0x04 0x17, the payload length as 4 big-endian
    bytes, one type-code byte and the payload. The server decodes the packets
    a client sends and encodes the three kinds of packet it sends back. */
module Codec {
  import opened Wrappers

  /** An octet of the byte stream. */
  type Byte = b: int | 0 <= b < 256

  type Bytes = seq<Byte>

  /** The bytes of an ASCII literal. */
  function Ascii(s: string): (r: Bytes)
    ensures |r| == |s|
    ensures forall i :: 0 <= i < |s| ==> r[i] == s[i] as int % 256
  {
    seq(|s|, i requires 0 <= i < |s| => (s[i] as int % 256) as Byte)
  }

  const MAGIC: Bytes := [0x04, 0x17]
  const HELLO: Bytes := Ascii("Hello")

  const HELLO_TYPE: Byte := 0xFF
  const JOIN_TYPE: Byte := 0x17
  const LEAVE_TYPE: Byte := 0x18
  const LIST_ROOMS_TYPE: Byte := 0x19
  const LIST_USERS_TYPE: Byte := 0x1A
  const NICK_TYPE: Byte := 0x1B
  const PRIVATE_MESSAGE_TYPE: Byte := 0x1C
  const MESSAGE_TYPE: Byte := 0x1D
  const RESPONSE_TYPE: Byte := 0xFE

  /** A packet as the server decodes it from a client. */
  datatype Packet =
    | Hello
    | Join(room: Bytes, password: Option<Bytes>)
    | Leave
    | ListRooms
    | ListUsers
    | Nick(name: Bytes)
    | PrivateMessage(target: Bytes, body: Bytes)
    | Message(room: Bytes, body: Bytes)

  /** The data of a Response: absent, a string sent as it is, or a list of
      strings each sent behind a one-byte length. */
  datatype ResponseData = NoData | Text(text: Bytes) | Items(items: seq<Bytes>)

  /** A packet the server sends. */
  datatype OutPacket =
    | OutPrivateMessage(sender: Bytes, body: Bytes)
    | OutMessage(room: Bytes, sender: Bytes, body: Bytes)
    | Response(error: bool, data: ResponseData)

  /** A frame split into its type code and its payload. */
  datatype RawFrame = RawFrame(typeCode: Byte, payload: Bytes)

  function TypeCodeOf(p: Packet): Byte
  {
    match p
    case Hello => HELLO_TYPE
    case Join(_, _) => JOIN_TYPE
    case Leave => LEAVE_TYPE
    case ListRooms => LIST_ROOMS_TYPE
    case ListUsers => LIST_USERS_TYPE
    case Nick(_) => NICK_TYPE
    case PrivateMessage(_, _) => PRIVATE_MESSAGE_TYPE
    case Message(_, _) => MESSAGE_TYPE
  }

  /** The type codes the server accepts from a client. */
  predicate KnownType(t: Byte)
  {
    t == HELLO_TYPE || JOIN_TYPE <= t <= MESSAGE_TYPE
  }

  function Min(a: int, b: int): int
  {
    if a <= b then a else b
  }

  // ---------------------------------------------------------------------------
  // Big-endian integers ("S>" and "L>" in pack and unpack)
  // ---------------------------------------------------------------------------

  function Uint16(hi: Byte, lo: Byte): (n: nat)
    ensures n < 0x1_0000
    ensures n / 256 == hi && n % 256 == lo
  {
    DivMod256(hi, lo);
    hi as int * 256 + lo as int
  }

  function Uint32(b: Bytes): (n: nat)
    requires |b| == 4
    ensures n < 0x1_0000_0000
  {
    ((b[0] as int * 256 + b[1] as int) * 256 + b[2] as int) * 256 + b[3] as int
  }

  /** pack("S>"): the low 16 bits of n, high byte first. */
  function Uint16Bytes(n: nat): (r: Bytes)
    ensures |r| == 2 && Uint16(r[0], r[1]) == n % 0x1_0000
  {
    var m := n % 0x1_0000;
    [(m / 256) as Byte, (m % 256) as Byte]
  }

  /** pack("L>"): the low 32 bits of n, most significant byte first. */
  function Uint32Bytes(n: nat): (r: Bytes)
    ensures |r| == 4 && Uint32(r) == n % 0x1_0000_0000
  {
    var m := n % 0x1_0000_0000;
    var q1 := m / 256;
    var q2 := q1 / 256;
    [(q2 / 256) as Byte, (q2 % 256) as Byte, (q1 % 256) as Byte, (m % 256) as Byte]
  }

  lemma DivMod256(q: nat, r: Byte)
    ensures (q * 256 + r) / 256 == q && (q * 256 + r) % 256 == r
  {
  }

  lemma Uint16BytesOfUint16(hi: Byte, lo: Byte)
    ensures Uint16Bytes(Uint16(hi, lo)) == [hi, lo]
  {
    var n := Uint16(hi, lo);
    assert n % 0x1_0000 == n;
    DivMod256(hi, lo);
  }

  lemma Uint32BytesOfUint32(b: Bytes)
    requires |b| == 4
    ensures Uint32Bytes(Uint32(b)) == b
  {
    var n := Uint32(b);
    var q1 := (b[0] as int * 256 + b[1] as int) * 256 + b[2] as int;
    var q2 := b[0] as int * 256 + b[1] as int;
    assert n % 0x1_0000_0000 == n;
    DivMod256(q1, b[3]);
    DivMod256(q2, b[2]);
    DivMod256(b[0], b[1]);
    var r := Uint32Bytes(n);
    assert r[0] == b[0] && r[1] == b[1] && r[2] == b[2] && r[3] == b[3];
  }

  // ---------------------------------------------------------------------------
  // Ruby's String#slice on the received buffer
  // ---------------------------------------------------------------------------

  /** buf.slice(start, len) for a start inside the string: at most len bytes
      from start, cut short at the end of the string. */
  function Clip(buf: Bytes, start: nat, len: nat): (r: Bytes)
    requires start <= |buf|
    ensures |r| == Min(len, |buf| - start)
    ensures r == buf[start..start + |r|]
  {
    buf[start..Min(start + len, |buf|)]
  }

  /** buf.slice(start, len) for any start: a negative start counts back from
      the end, and a start outside [-length, length] gives nil. */
  function RubySlice(buf: Bytes, start: int, len: nat): (r: Option<Bytes>)
    ensures r.Some? <==> -|buf| <= start <= |buf|
    ensures 0 <= start <= |buf| ==> r == Some(Clip(buf, start, len))
    ensures -|buf| <= start < 0 ==> r == Some(Clip(buf, start + |buf|, len))
  {
    var from := if start < 0 then start + |buf| else start;
    if 0 <= from <= |buf| then Some(Clip(buf, from, len)) else None
  }

  // ---------------------------------------------------------------------------
  // Decoding what a client sends (readPacket)
  // ---------------------------------------------------------------------------

  /** Reads one frame off the front of the input and returns it with the
      bytes after it. Bad magic bytes fail; so does input that ends inside the
      header or before the promised payload length. */
  function ReadFrame(input: Bytes): (r: Option<(RawFrame, Bytes)>)
    ensures |input| < 2 || input[..2] != MAGIC ==> r.None?
    ensures r.Some? ==> EncodeFrame(r.value.0.typeCode, r.value.0.payload) + r.value.1 == input
  {
    if |input| < 2 || input[..2] != MAGIC then None
    else if |input| < 7 then None
    else
      var length := Uint32(input[2..6]);
      if |input| < 7 + length then None
      else
        var frame := RawFrame(input[6], input[7..7 + length]);
        var rest := input[7 + length..];
        assert EncodeFrame(frame.typeCode, frame.payload) + rest == input by {
          Uint32BytesOfUint32(input[2..6]);
          assert input == input[..2] + input[2..6] + [input[6]] + input[7..7 + length] + rest;
        }
        Some((frame, rest))
  }

  /** A Join payload: roomLen(1) room, then, if bytes remain after the room,
      a password length byte. The password is the LAST passLen bytes of the
      payload. When passLen exceeds the payload length the slice start is
      negative and counts back from the end once more, giving the last
      passLen - length bytes; beyond twice the length there is no password. */
  function ParseJoin(buf: Bytes): (r: Option<Packet>)
    ensures r.Some? <==> |buf| > 0
    ensures r.Some? ==> r.value.Join? && r.value.room == Clip(buf, 1, buf[0] as int)
    ensures r.Some? && |buf| <= buf[0] as int + 1 ==> r.value.password.None?
    ensures (r.Some? && buf[0] as int + 1 < |buf| && (buf[buf[0] as int + 1] as int) <= |buf|) ==>
              r.value.password == Some(buf[|buf| - (buf[buf[0] as int + 1] as int)..])
    ensures (r.Some? && buf[0] as int + 1 < |buf| && |buf| < (buf[buf[0] as int + 1] as int) <= 2 * |buf|) ==>
              r.value.password == Some(buf[2 * |buf| - (buf[buf[0] as int + 1] as int)..])
    ensures (r.Some? && buf[0] as int + 1 < |buf| && (buf[buf[0] as int + 1] as int) > 2 * |buf|) ==>
              r.value.password.None?
  {
    if |buf| == 0 then None
    else
      var roomLength := buf[0] as int;
      var room := Clip(buf, 1, roomLength);
      if |buf| > roomLength + 1 then
        var passLength := buf[roomLength + 1] as int;
        assert passLength <= |buf| ==> buf[|buf| - passLength..] == Clip(buf, |buf| - passLength, passLength);
        assert |buf| < passLength <= 2 * |buf| ==>
                 buf[2 * |buf| - passLength..] == Clip(buf, 2 * |buf| - passLength, passLength);
        Some(Join(room, RubySlice(buf, |buf| - passLength, passLength)))
      else
        Some(Join(room, None))
  }

  /** The payload shared by PrivateMessage and Message: a one-byte-length
      string (the target user or room), then a two-byte-length body. Both
      strings are cut short silently when the payload ends early, but the
      two length bytes of the body must be present. */
  function ParseAddressed(buf: Bytes): (r: Option<(Bytes, Bytes)>)
    ensures r.Some? <==> |buf| > 0 && buf[0] as int + 3 <= |buf|
    ensures r.Some? ==> r.value.0 == Clip(buf, 1, buf[0] as int)
    ensures r.Some? ==>
              r.value.1 == Clip(buf, buf[0] as int + 3, Uint16(buf[buf[0] as int + 1], buf[buf[0] as int + 2]))
  {
    if |buf| == 0 then None
    else
      var targetLength := buf[0] as int;
      var target := Clip(buf, 1, targetLength);
      var offset := 1 + targetLength;
      if |buf| < offset + 2 then None
      else Some((target, Clip(buf, offset + 2, Uint16(buf[offset], buf[offset + 1]))))
  }

  /** The conditions under which a frame's payload is refused: an unknown
      type code, a Hello that is not literally "Hello", or a payload too short
      for its first length field (and, for the two message types, for the
      body's two length bytes). */
  predicate PayloadRejected(t: Byte, buf: Bytes)
  {
    || !KnownType(t)
    || (t == HELLO_TYPE && buf != HELLO)
    || ((t == JOIN_TYPE || t == NICK_TYPE) && |buf| == 0)
    || ((t == PRIVATE_MESSAGE_TYPE || t == MESSAGE_TYPE) && (|buf| == 0 || |buf| < buf[0] as int + 3))
  }

  function ParsePayload(t: Byte, buf: Bytes): (r: Option<Packet>)
    ensures r.None? <==> PayloadRejected(t, buf)
    ensures r.Some? ==> KnownType(t) && TypeCodeOf(r.value) == t
  {
    if t == HELLO_TYPE then
      if buf == HELLO then Some(Hello) else None
    else if t == JOIN_TYPE then
      ParseJoin(buf)
    else if t == LEAVE_TYPE then
      Some(Leave)
    else if t == LIST_ROOMS_TYPE then
      Some(ListRooms)
    else if t == LIST_USERS_TYPE then
      Some(ListUsers)
    else if t == NICK_TYPE then
      if |buf| == 0 then None else Some(Nick(Clip(buf, 1, buf[0] as int)))
    else if t == PRIVATE_MESSAGE_TYPE then
      match ParseAddressed(buf)
      case None => None
      case Some((target, body)) => Some(PrivateMessage(target, body))
    else if t == MESSAGE_TYPE then
      match ParseAddressed(buf)
      case None => None
      case Some((room, body)) => Some(Message(room, body))
    else
      None
  }

  /** Reads one packet off the front of the input stream and returns it with
      the rest of the stream; None where the source returns nil (or would
      raise on input cut short). */
  function ReadPacket(input: Bytes): (r: Option<(Packet, Bytes)>)
    ensures |input| < 2 || input[..2] != MAGIC ==> r.None?
    ensures ReadFrame(input).Some? ==>
              (r.None? <==> PayloadRejected(ReadFrame(input).value.0.typeCode, ReadFrame(input).value.0.payload))
    ensures r.Some? ==> |r.value.1| + 7 <= |input| && r.value.1 == input[|input| - |r.value.1|..]
  {
    match ReadFrame(input)
    case None => None
    case Some((frame, rest)) =>
      match ParsePayload(frame.typeCode, frame.payload)
      case None => None
      case Some(p) => Some((p, rest))
  }

  // ---------------------------------------------------------------------------
  // Encoding what the server sends (sendPacket)
  // ---------------------------------------------------------------------------

  /** pack("CA<n>"): the length as one byte (pack "C" keeps its low 8 bits),
      then the string itself. */
  function Prefixed8(s: Bytes): (r: Bytes)
    ensures |r| == 1 + |s| && r[1..] == s
    ensures |s| < 256 ==> r[0] as int == |s|
  {
    [(|s| % 256) as Byte] + s
  }

  /** pack("S>A<n>"): the length as two bytes (low 16 bits), then the string. */
  function Prefixed16(s: Bytes): (r: Bytes)
    ensures |r| == 2 + |s| && r[2..] == s
    ensures Uint16(r[0], r[1]) == |s| % 0x1_0000
  {
    Uint16Bytes(|s|) + s
  }

  /** The items of a list, each behind its one-byte length, appended one
      after the other as the source's loop does. */
  function JoinItems(items: seq<Bytes>): (r: Bytes)
    ensures |r| == |items| + TotalLength(items)
    ensures r == [] <==> items == []
  {
    if items == [] then []
    else JoinItems(items[..|items| - 1]) + Prefixed8(items[|items| - 1])
  }

  /** The total number of bytes in the items of a list. */
  function TotalLength(items: seq<Bytes>): nat
  {
    if items == [] then 0 else TotalLength(items[..|items| - 1]) + |items[|items| - 1]|
  }

  /** The data of a Response: nothing, a string as it is, or a list of items
      that a client splits back into exactly those items when each fits its
      one-byte length. */
  function ResponseBytes(d: ResponseData): (r: Bytes)
    ensures d.NoData? ==> r == []
    ensures d.Text? ==> r == d.text
    ensures d.Items? && (forall i :: 0 <= i < |d.items| ==> |d.items[i]| < 256) ==>
              ParseItems(r) == Some(d.items)
  {
    match d
    case NoData => []
    case Text(s) => s
    case Items(xs) =>
      assert (forall i :: 0 <= i < |xs| ==> |xs[i]| < 256) ==> ParseItems(JoinItems(xs)) == Some(xs) by {
        if forall i :: 0 <= i < |xs| ==> |xs[i]| < 256 {
          ItemsRoundTrip(xs);
        }
      }
      JoinItems(xs)
  }

  function OutTypeCode(p: OutPacket): Byte
  {
    match p
    case OutPrivateMessage(_, _) => PRIVATE_MESSAGE_TYPE
    case OutMessage(_, _, _) => MESSAGE_TYPE
    case Response(_, _) => RESPONSE_TYPE
  }

  /** The payload of an outgoing packet. A Response is one flag byte (0x01
      for an error, 0x00 otherwise) followed by its data. */
  function Payload(p: OutPacket): (r: Bytes)
    ensures p.Response? ==> |r| == 1 + |ResponseBytes(p.data)|
    ensures p.Response? ==> r[0] == (if p.error then 0x01 else 0x00) && r[1..] == ResponseBytes(p.data)
    ensures p.Response? && p.data.NoData? ==> |r| == 1
  {
    match p
    case OutPrivateMessage(sender, body) => Prefixed8(sender) + Prefixed16(body)
    case OutMessage(room, sender, body) => Prefixed8(room) + Prefixed8(sender) + Prefixed16(body)
    case Response(error, data) => [if error then 0x01 else 0x00] + ResponseBytes(data)
  }

  /** The frame around a payload: magic, length (low 32 bits), type, payload. */
  function EncodeFrame(t: Byte, payload: Bytes): (r: Bytes)
    ensures |r| == 7 + |payload|
    ensures r[..2] == MAGIC && r[6] == t && r[7..] == payload
    ensures Uint32(r[2..6]) == |payload| % 0x1_0000_0000
  {
    MAGIC + Uint32Bytes(|payload|) + [t] + payload
  }

  /** The frame the server sends for an outgoing packet. */
  function Encode(p: OutPacket): (r: Bytes)
    ensures |r| == 7 + |Payload(p)| && r[..2] == MAGIC && r[7..] == Payload(p)
    ensures r[6] == OutTypeCode(p) && Uint32(r[2..6]) == |Payload(p)| % 0x1_0000_0000
    ensures p.Response? ==> r[6] == RESPONSE_TYPE && r[7] == (if p.error then 0x01 else 0x00)
  {
    EncodeFrame(OutTypeCode(p), Payload(p))
  }

  /** The decoder reads back exactly the header the encoder writes. */
  lemma FrameRoundTrip(t: Byte, payload: Bytes, rest: Bytes)
    requires |payload| < 0x1_0000_0000
    ensures ReadFrame(EncodeFrame(t, payload) + rest) == Some((RawFrame(t, payload), rest))
  {
    var frame := EncodeFrame(t, payload);
    var input := frame + rest;
    assert input[..2] == frame[..2];
    assert input[2..6] == frame[2..6];
    assert input[6] == t;
    assert input[7..7 + |payload|] == payload;
    assert input[7 + |payload|..] == rest;
  }

  // ---------------------------------------------------------------------------
  // What a conforming client sends: the inverse of ReadPacket
  // ---------------------------------------------------------------------------

  /** Every string fits the width of its length field. */
  predicate Encodable(p: Packet)
  {
    match p
    case Join(room, password) => |room| < 256 && (password.Some? ==> |password.value| < 256)
    case Nick(name) => |name| < 256
    case PrivateMessage(target, body) => |target| < 256 && |body| < 0x1_0000
    case Message(room, body) => |room| < 256 && |body| < 0x1_0000
    case _ => true
  }

  function RequestPayload(p: Packet): Bytes
  {
    match p
    case Hello => HELLO
    case Join(room, None) => Prefixed8(room)
    case Join(room, Some(password)) => Prefixed8(room) + Prefixed8(password)
    case Leave => []
    case ListRooms => []
    case ListUsers => []
    case Nick(name) => Prefixed8(name)
    case PrivateMessage(target, body) => Prefixed8(target) + Prefixed16(body)
    case Message(room, body) => Prefixed8(room) + Prefixed16(body)
  }

  /** The frame a client sends for a packet, following the payload layouts. */
  function EncodeRequest(p: Packet): Bytes
  {
    EncodeFrame(TypeCodeOf(p), RequestPayload(p))
  }

  lemma ParseAddressedOf(target: Bytes, body: Bytes)
    requires |target| < 256 && |body| < 0x1_0000
    ensures ParseAddressed(Prefixed8(target) + Prefixed16(body)) == Some((target, body))
  {
    var buf := Prefixed8(target) + Prefixed16(body);
    var offset := 1 + |target|;
    assert buf[0] as int == |target|;
    assert buf[1..offset] == target;
    assert buf[offset] == Uint16Bytes(|body|)[0] && buf[offset + 1] == Uint16Bytes(|body|)[1];
    assert Uint16(buf[offset], buf[offset + 1]) == |body|;
    assert buf[offset + 2..] == body;
    assert Clip(buf, offset + 2, |body|) == body;
  }

  lemma AddressedPayloads(target: Bytes, body: Bytes)
    requires |target| < 256 && |body| < 0x1_0000
    ensures ParsePayload(PRIVATE_MESSAGE_TYPE, Prefixed8(target) + Prefixed16(body)) == Some(PrivateMessage(target, body))
    ensures ParsePayload(MESSAGE_TYPE, Prefixed8(target) + Prefixed16(body)) == Some(Message(target, body))
  {
    ParseAddressedOf(target, body);
  }

  lemma NickPayload(name: Bytes)
    requires |name| < 256
    ensures ParsePayload(NICK_TYPE, Prefixed8(name)) == Some(Nick(name))
  {
    assert Prefixed8(name)[1..1 + |name|] == name;
  }

  /** A Join payload without a password byte gives that room and no password;
      one followed by exactly passLen and the password gives that password. */
  lemma JoinPayloads(room: Bytes, password: Bytes)
    requires |room| < 256 && |password| < 256
    ensures ParsePayload(JOIN_TYPE, Prefixed8(room)) == Some(Join(room, None))
    ensures ParsePayload(JOIN_TYPE, Prefixed8(room) + Prefixed8(password)) == Some(Join(room, Some(password)))
  {
    var buf := Prefixed8(room) + Prefixed8(password);
    assert buf[0] as int == |room|;
    assert buf[1..1 + |room|] == room;
    assert buf[|room| + 1] == |password|;
    assert buf[|buf| - |password|..] == password;
    assert Prefixed8(room)[1..1 + |room|] == room;
  }

  /** Each client payload layout is parsed back into the packet it encodes. */
  lemma RequestPayloadParses(p: Packet)
    requires Encodable(p)
    ensures ParsePayload(TypeCodeOf(p), RequestPayload(p)) == Some(p)
  {
    match p {
      case Hello =>
      case Join(room, password) =>
        JoinPayloads(room, if password.Some? then password.value else []);
      case Leave =>
      case ListRooms =>
      case ListUsers =>
      case Nick(name) =>
        NickPayload(name);
      case PrivateMessage(target, body) =>
        AddressedPayloads(target, body);
      case Message(room, body) =>
        AddressedPayloads(room, body);
    }
  }

  /** decode(encode(p)) == p for every client packet whose strings fit. */
  lemma RequestRoundTrip(p: Packet, rest: Bytes)
    requires Encodable(p)
    ensures ReadPacket(EncodeRequest(p) + rest) == Some((p, rest))
  {
    assert |RequestPayload(p)| < 0x1_0000_0000;
    FrameRoundTrip(TypeCodeOf(p), RequestPayload(p), rest);
    RequestPayloadParses(p);
  }

  /** The server's outgoing PrivateMessage (sender, body) has the layout of a
      client's PrivateMessage, so the server's own decoder reads it back with
      target = sender. */
  lemma PrivateMessageRoundTrip(user: Bytes, msg: Bytes, rest: Bytes)
    requires |user| < 256 && |msg| < 0x1_0000
    ensures ReadPacket(Encode(OutPrivateMessage(user, msg)) + rest) == Some((PrivateMessage(user, msg), rest))
  {
    assert Encode(OutPrivateMessage(user, msg)) == EncodeRequest(PrivateMessage(user, msg));
    RequestRoundTrip(PrivateMessage(user, msg), rest);
  }

  // ---------------------------------------------------------------------------
  // What a client reads back: the inverse of Encode
  // ---------------------------------------------------------------------------

  /** Splits a one-byte-length string off the front of buf. */
  function TakePrefixed8(buf: Bytes): (r: Option<(Bytes, Bytes)>)
    ensures r.Some? ==> |r.value.0| < 256 && Prefixed8(r.value.0) + r.value.1 == buf
  {
    if |buf| == 0 || |buf| < 1 + buf[0] as int then None
    else
      var n := buf[0] as int;
      assert Prefixed8(buf[1..1 + n]) + buf[1 + n..] == buf;
      Some((buf[1..1 + n], buf[1 + n..]))
  }

  /** Splits a two-byte-length string off the front of buf. */
  function TakePrefixed16(buf: Bytes): (r: Option<(Bytes, Bytes)>)
    ensures r.Some? ==> |r.value.0| < 0x1_0000 && Prefixed16(r.value.0) + r.value.1 == buf
  {
    if |buf| < 2 || |buf| < 2 + Uint16(buf[0], buf[1]) then None
    else
      var n := Uint16(buf[0], buf[1]);
      assert Prefixed16(buf[2..2 + n]) + buf[2 + n..] == buf by {
        Uint16BytesOfUint16(buf[0], buf[1]);
        assert buf == [buf[0], buf[1]] + buf[2..2 + n] + buf[2 + n..];
      }
      Some((buf[2..2 + n], buf[2 + n..]))
  }

  lemma TakePrefixed8Of(s: Bytes, rest: Bytes)
    requires |s| < 256
    ensures TakePrefixed8(Prefixed8(s) + rest) == Some((s, rest))
  {
    var buf := Prefixed8(s) + rest;
    assert buf[1..1 + |s|] == s && buf[1 + |s|..] == rest;
  }

  lemma TakePrefixed16Of(s: Bytes, rest: Bytes)
    requires |s| < 0x1_0000
    ensures TakePrefixed16(Prefixed16(s) + rest) == Some((s, rest))
  {
    var buf := Prefixed16(s) + rest;
    assert buf[0] == Uint16Bytes(|s|)[0] && buf[1] == Uint16Bytes(|s|)[1];
    assert buf[2..2 + |s|] == s && buf[2 + |s|..] == rest;
  }

  /** Splits a list's data back into its items. */
  function ParseItems(data: Bytes): Option<seq<Bytes>>
    decreases |data|
  {
    if data == [] then Some([])
    else
      match TakePrefixed8(data)
      case None => None
      case Some((item, rest)) =>
        match ParseItems(rest)
        case None => None
        case Some(items) => Some([item] + items)
  }

  /** Appending one more item to the list appends its encoding. */
  lemma JoinItemsSnoc(items: seq<Bytes>, item: Bytes)
    ensures JoinItems(items + [item]) == JoinItems(items) + Prefixed8(item)
  {
    assert (items + [item])[..|items|] == items;
  }

  lemma {:induction false} JoinItemsCons(x: Bytes, xs: seq<Bytes>)
    ensures JoinItems([x] + xs) == Prefixed8(x) + JoinItems(xs)
    decreases |xs|
  {
    if xs != [] {
      var ys := [x] + xs;
      assert ys[..|ys| - 1] == [x] + xs[..|xs| - 1];
      JoinItemsCons(x, xs[..|xs| - 1]);
    }
  }

  /** A list whose items each fit a one-byte length is read back item by item. */
  lemma {:induction false} ItemsRoundTrip(xs: seq<Bytes>)
    requires forall i :: 0 <= i < |xs| ==> |xs[i]| < 256
    ensures ParseItems(JoinItems(xs)) == Some(xs)
    decreases |xs|
  {
    if xs != [] {
      JoinItemsCons(xs[0], xs[1..]);
      assert [xs[0]] + xs[1..] == xs;
      TakePrefixed8Of(xs[0], JoinItems(xs[1..]));
      ItemsRoundTrip(xs[1..]);
    }
  }

  /** How a client reads the payload of a packet from the server. A
      Response's data comes back as raw bytes (a list is not told apart from
      a string on the wire). */
  function ParseOutgoing(t: Byte, payload: Bytes): Option<OutPacket>
  {
    if t == PRIVATE_MESSAGE_TYPE then
      match TakePrefixed8(payload)
      case None => None
      case Some((sender, rest)) =>
        match TakePrefixed16(rest)
        case None => None
        case Some((body, tail)) => if tail == [] then Some(OutPrivateMessage(sender, body)) else None
    else if t == MESSAGE_TYPE then
      match TakePrefixed8(payload)
      case None => None
      case Some((room, rest)) =>
        match TakePrefixed8(rest)
        case None => None
        case Some((sender, rest')) =>
          match TakePrefixed16(rest')
          case None => None
          case Some((body, tail)) => if tail == [] then Some(OutMessage(room, sender, body)) else None
    else if t == RESPONSE_TYPE && |payload| > 0 && payload[0] <= 0x01 then
      Some(Response(payload[0] == 0x01, Text(payload[1..])))
    else
      None
  }

  function ReadServerPacket(input: Bytes): Option<(OutPacket, Bytes)>
  {
    match ReadFrame(input)
    case None => None
    case Some((frame, rest)) =>
      match ParseOutgoing(frame.typeCode, frame.payload)
      case None => None
      case Some(p) => Some((p, rest))
  }

  /** Every string fits its length field, and the payload fits the frame. */
  predicate Sendable(p: OutPacket)
  {
    match p
    case OutPrivateMessage(sender, body) => |sender| < 256 && |body| < 0x1_0000
    case OutMessage(room, sender, body) => |room| < 256 && |sender| < 256 && |body| < 0x1_0000
    case Response(_, data) => |ResponseBytes(data)| < 0x1_0000_0000 - 1
  }

  /** A packet as the client sees it: Response data as its raw bytes. */
  function AsReceived(p: OutPacket): OutPacket
  {
    match p
    case Response(error, data) => Response(error, Text(ResponseBytes(data)))
    case _ => p
  }

  /** Every packet the server sends is read back by a client. */
  lemma {:induction false} ServerPacketRoundTrip(p: OutPacket, rest: Bytes)
    requires Sendable(p)
    ensures ReadServerPacket(Encode(p) + rest) == Some((AsReceived(p), rest))
  {
    var payload := Payload(p);
    assert |payload| < 0x1_0000_0000;
    FrameRoundTrip(OutTypeCode(p), payload, rest);
    ParseOutgoingPayload(p);
  }

  lemma ParseOutgoingPayload(p: OutPacket)
    requires Sendable(p)
    ensures ParseOutgoing(OutTypeCode(p), Payload(p)) == Some(AsReceived(p))
  {
    match p {
      case OutPrivateMessage(sender, body) =>
        assert Payload(p) == Prefixed8(sender) + (Prefixed16(body) + []);
        TakePrefixed8Of(sender, Prefixed16(body) + []);
        TakePrefixed16Of(body, []);
      case OutMessage(room, sender, body) =>
        assert Payload(p) == Prefixed8(room) + (Prefixed8(sender) + (Prefixed16(body) + []));
        TakePrefixed8Of(room, Prefixed8(sender) + (Prefixed16(body) + []));
        TakePrefixed8Of(sender, Prefixed16(body) + []);
        TakePrefixed16Of(body, []);
      case Response(error, data) =>
    }
  }
}
