# re-chat-server in Dafny

A model of the chat relay in `server.rb`. Clients connect over a byte stream
and exchange frames in a small binary protocol. A frame is:

- the magic bytes `0x04 0x17`;
- the payload length as four big-endian bytes;
- a one-byte type code;
- the payload.

Clients say Hello, join and leave password-protected rooms, list rooms and
users, change their nick, and send private or room messages. The server
answers each of these requests with a Response packet. The exceptions are:

- a Hello after the handshake, which is only logged;
- ListUsers from a user in a room, which raises before replying (see
  "## Findings");
- a Response whose frame Ruby cannot concatenate because of string
  encodings, which raises while sending (see `Session.Step` under
  "## Left out").

It relays PrivateMessage and Message packets to their recipients.

The project has three modules:

- `Wrappers` (`wrappers.dfy`): `Option`, which stands where the Ruby code
  has `nil`.
- `Codec` (`codec.dfy`): `readPacket` and `sendPacket` as pure functions on
  byte sequences. The module also proves properties of them:
  - decoding fails on bad magic bytes, a bad Hello, an unknown type or a
    short payload;
  - the frame layout;
  - round trips against reference encoders and decoders for the client side.
- `Session` (`session.dfy`): `handleClient` together with the global
  `$users`, `$rooms` and `$userCounter`. These become the class
  `Session.Server`:
  - one method per packet type;
  - the Hello handshake;
  - the removal at the end of a session.

  Packets the server sends are appended to an `outbox` of
  (recipient id, packet) pairs. The functions and lemmas next to the class
  state who receives each fan-out, how a Join is decided and which error a
  Message gets. The same state as a value, `ServerState`, is what the
  functions `Step` (one packet), `Run` (the packets after the Hello) and
  `Serve` (a whole connection) describe. The dispatcher and the session
  loop are proved to produce exactly those states.

Ruby hashes iterate in insertion order:

- `$users` only ever gains a fresh id, larger than every earlier one, so
  iterating it means visiting ids `0 .. counter-1` in increasing order.
  `Session.Select` models this. This holds because sessions run one at a
  time here. In the source, the id is taken under `$counterLock`
  (server.rb:169-172) but the user is inserted after the lock is released
  (server.rb:174). Two concurrent handshakes could therefore insert their
  ids in the opposite order.
- The keys of `$rooms` are kept in creation order in the field
  `roomOrder`. `Valid()` keeps it in step with `rooms`.

Ruby's `String#slice` is modelled exactly:

- the slice is cut short at the end of the string;
- a negative start counts back from the end;
- a start out of range gives `nil`.

`pack("C")`, `pack("S>")` and `pack("L>")` keep the low 8, 16 and 32 bits of
a length. This truncation is written out explicitly.

## Model

| member | source | states |
|---|---|---|
| Codec.ReadFrame | server.rb:45-59 | wrong or missing magic bytes fail; on success, the frame (type code, payload) re-encoded and followed by the unread rest is exactly the input |
| Codec.ParseJoin | server.rb:68-77 | an empty payload fails, anything else decodes; the room is the slice after the length byte; with no bytes after the room there is no password; otherwise, for passLen up to the payload length, the password is the LAST passLen bytes of the payload; for passLen between the length and twice the length, the negative slice start wraps once more and the password is the last passLen - length bytes; beyond twice the length there is no password |
| Codec.ParseAddressed | server.rb:89-110 | decodes exactly when the first length byte and the two body-length bytes are present; the target is the slice after the first length byte; the body is the slice of the declared two-byte length after those bytes, cut short at the end of the payload |
| Codec.ParsePayload | server.rb:60-114 | fails exactly under PayloadRejected: unknown type code, Hello payload other than "Hello", or a payload too short for its length fields; a packet it returns carries the type code it was read with |
| Codec.ReadPacket | server.rb:45-116 | wrong magic fails; for a well-formed frame, decoding fails iff the payload is rejected; on success, the rest is a proper suffix of the input, at least seven bytes shorter |
| Codec.RubySlice | server.rb:75 | nil exactly when the start lies outside [-length, length]; for a non-negative start, the clipped slice from that start; for a negative start, the clipped slice from start + length |
| Codec.Clip | server.rb:71 | at most len bytes from start, cut short at the end of the buffer |
| Codec.Uint16 | server.rb:96 | unpack("S>"): the big-endian value of two bytes, below 2^16, whose high and low bytes are the two bytes read; Uint16BytesOfUint16 proves pack("S>") inverts it |
| Codec.Uint32 | server.rb:51 | unpack("L>"): the big-endian value of four bytes, below 2^32; Uint32BytesOfUint32 proves pack("L>") inverts it |
| Codec.Uint16Bytes | server.rb:128 | two bytes whose big-endian value is n modulo 2^16 |
| Codec.Uint32Bytes | server.rb:155 | four bytes whose big-endian value is n modulo 2^32 |
| Codec.Uint16BytesOfUint16 | server.rb:96 | pack("S>") inverts unpack("S>") |
| Codec.Uint32BytesOfUint32 | server.rb:51 | pack("L>") inverts unpack("L>") |
| Codec.Payload | server.rb:125-149 | a Response payload is one flag byte, 0x01 for an error and 0x00 otherwise, followed by its data; no data gives a one-byte payload |
| Codec.Prefixed8 | server.rb:144 | pack("CA<n>"): one length byte then the string; the length byte is the string's length whenever it is below 256; TakePrefixed8Of proves it is split back off exactly |
| Codec.Prefixed16 | server.rb:128 | pack("S>A<n>"): two length bytes whose big-endian value is the length mod 2^16, then the string; TakePrefixed16Of proves it is split back off exactly |
| Codec.JoinItems | server.rb:141-145 | the `data +=` loop and the `.map{pack}.join("")` of ListRooms and ListUsers (server.rb:206-208, 212-214): its length is one byte per item plus the items' total length, and it is empty iff the list is; JoinItemsCons and ItemsRoundTrip prove it is split back into exactly the items |
| Codec.ResponseBytes | server.rb:139-148 | the data after the flag byte: nothing when there is no data, a string as it is, and a list that a client splits back into exactly its items when each fits a one-byte length |
| Codec.Encode | server.rb:122-157 | the frame sent at server.rb:155: magic bytes, the payload length mod 2^32 big-endian, the packet's type code, then the payload; a Response carries type 0xFE and its flag byte first; ServerPacketRoundTrip proves a client reads every sendable packet back |
| Codec.EncodeFrame | server.rb:155 | the frame is seven bytes longer than the payload: magic bytes, then the payload length mod 2^32 big-endian, then the type code, then the payload |
| Codec.FrameRoundTrip | server.rb:45-59 | the decoder reads back the type code and payload of any frame the encoder writes, leaving the following bytes unread |
| Codec.NickPayload | server.rb:84-88 | a length-prefixed name decodes to that Nick |
| Codec.AddressedPayloads | server.rb:89-110 | target behind a one-byte length, then body behind a two-byte length, decodes to PrivateMessage(target, body), and likewise to Message |
| Codec.JoinPayloads | server.rb:68-77 | both Join layouts decode correctly: room alone gives no password; room then passLen and password gives that password |
| Codec.RequestPayloadParses | server.rb:60-114 | every packet type's payload layout decodes to the packet it encodes |
| Codec.RequestRoundTrip | server.rb:45-116 | decoding a client frame of any packet whose strings fit their length fields gives that packet back, and the rest of the stream |
| Codec.PrivateMessageRoundTrip | server.rb:126-128 | the server's outgoing PrivateMessage has the client layout, so its own decoder reads it back with the sender as target |
| Codec.TakePrefixed8 | server.rb:144 | a split-off item, put back behind its one-byte length, rebuilds the input |
| Codec.TakePrefixed16 | server.rb:128 | a split-off string, put back behind its two-byte length, rebuilds the input |
| Codec.TakePrefixed8Of | server.rb:144 | pack("CA<n>") is read back by the one-byte-length reader |
| Codec.TakePrefixed16Of | server.rb:128 | pack("S>A<n>") is read back by the two-byte-length reader |
| Codec.JoinItemsCons | server.rb:141-145 | the joined list of a list starting with x is x's item followed by the joined rest |
| Codec.ItemsRoundTrip | server.rb:141-145 | a list whose items each fit a one-byte length is split back into exactly those items |
| Codec.ParseOutgoingPayload | server.rb:125-149 | a client reads every outgoing payload layout back into its packet; Response data comes back as raw bytes |
| Codec.ServerPacketRoundTrip | server.rb:122-157 | every frame the server sends is read back by a client as the packet sent, leaving the following bytes unread |
| Session.Digits | server.rb:173 | the decimal rendering of an id is non-empty and all digits |
| Session.DigitsRoundTrip | server.rb:173 | the decimal rendering of an id denotes that id |
| Session.DefaultNick | server.rb:173 | "rand#{userId}": the prefix "rand" followed by decimal digits that denote the id; DefaultNickInjective proves distinct ids get distinct nicks |
| Session.DefaultNickInjective | server.rb:173 | two different ids never get the same default nick "rand<id>" |
| Session.Select | server.rb:227-232 | the ids a loop over $users acts on are all registered, below the bound and included by the audience |
| Session.SelectIncreasing | server.rb:227-232 | the visited ids are strictly increasing, so each user is visited at most once and in id order |
| Session.SelectComplete | server.rb:227-232 | every included user below the bound is visited |
| Session.SelectExactly | server.rb:247-251 | when all ids are below the counter, a user is visited iff it is registered and the audience includes it |
| Session.BroadcastAudience | server.rb:247-251 | a room Message reaches exactly the other members of the room, never the sender |
| Session.PrivateAudience | server.rb:226-237 | a PrivateMessage reaches exactly the users with the target name; nobody at all iff no user has that name |
| Session.NamesOf | server.rb:212-214 | the listed names are the names of the visited users, in the same order |
| Session.Deliver | server.rb:227-231 | one copy of the packet per recipient, in visiting order |
| Session.JoinDecision | server.rb:186-195 | a Join creates the room iff it is unknown; it is refused iff the room exists with a different password; otherwise the user enters |
| Session.MessageError | server.rb:239-244 | a Message is accepted iff the sender is in the named, non-empty room; any other room, or no room, gives "Room mismatch"; the empty room name gives "not in a room" |
| Session.ListUsersScope | server.rb:210-221 | ListUsers lists every user when the caller is in no room, and exactly the members of the caller's room otherwise |
| Session.ListUsersAsWritten | server.rb:210-221 | as written, ListUsers replies (with success) iff the caller is in no room |
| Session.ListUsersAsWrittenInRoom | server.rb:217 | a user alone in a room gets no reply, while the same-room filter would list that user |
| Session.Server.constructor | server.rb:35-39 | the directory starts empty with counter 0 |
| Session.Server.Register | server.rb:168-175 | the new user's id is the old counter, not yet in use; the counter goes up by one; the user is entered with nick "rand<id>" and no room; the nick is sent back |
| Session.Server.JoinRoom | server.rb:185-196 | by JoinDecision: an unknown room is created with the given password and appended to the room order; otherwise rooms are unchanged; the user enters and gets success, or is left alone and gets "Wrong password" |
| Session.Server.LeaveRoom | server.rb:197-204 | the room is cleared and success is sent; the session continues iff the user was in a room |
| Session.Server.SendRoomList | server.rb:205-209 | one success Response listing every room ever created, in creation order |
| Session.Server.SendUserList | server.rb:210-221 | one success Response listing the names of all users (caller in no room) or of the caller's room members, in id order |
| Session.Server.Rename | server.rb:222-224 | only the caller's name changes; success is sent |
| Session.Server.SendTo | server.rb:227-232 | the packet is queued for every user the audience includes, in id order; the flag says whether anyone got it |
| Session.Server.SendPrivate | server.rb:225-237 | copies to every user with the target name, then success to the sender, or "User doesn't exist" when there is none |
| Session.Server.Broadcast | server.rb:238-252 | on MessageError, only the error Response; otherwise success to the sender, then a copy to every other member of the room |
| Session.Server.Disconnect | server.rb:258 | the user's record is removed; rooms stay |
| Session.Step | server.rb:184-255 | the effect of one packet per type (Join by JoinDecision, Leave, ListRooms, ListUsers, Nick, PrivateMessage, Message by MessageError); the session ends only on Leave outside a room; only a Hello leaves the state unchanged, every other packet gets an answer; no user is added or removed, other users and existing rooms are unchanged, the counter stays and the outbox only grows |
| Session.LeaveEndsSession | server.rb:197-201 | a Leave from a user in no room is answered with success and ends the run: the frames after it are never handled and the state is otherwise unchanged |
| Session.Run | server.rb:177-256 | the decoded packets after the Hello are handled in turn until decoding fails or the session ends; the counter stays, no user is added or removed, other users and existing rooms are unchanged, the outbox only grows |
| Session.Admit | server.rb:168-175 | the handshake takes the counter as id, raises the counter by one, enters the user as "rand<id>" with no room and sends the nick; rooms are unchanged |
| Session.Serve | server.rb:160-259 | nothing changes unless the stream starts with a valid Hello; otherwise the counter goes up by one, the greeting is the first packet sent, and the user is gone at the end, leaving the other users as they were; rooms are never removed or changed; the outbox only grows |
| Session.Server.Dispatch | server.rb:184-255 | the new state and whether the session goes on are exactly those Step gives for the packet |
| Session.Server.HandleClient | server.rb:160-259 | a session id is returned iff the stream starts with a valid Hello, and it is the old counter; the new state is exactly the one Serve gives |

## Left out

- Command-line parsing, the TCP accept loop and the thread per connection
  (server.rb:14-32 and 264-271) are not modelled. Sessions run one at a
  time, so `$counterLock` and any interleaving of sessions are not modelled
  either.
- Socket I/O is not modelled. The socket becomes an input byte sequence,
  which `Session.Server.HandleClient` consumes packet by packet. A frame
  is read only when the whole header and payload are present. Sends become
  appends to `outbox`.
- Codec.ReadFrame: a payload shorter than its declared length is a decode
  failure, which ends the session. In the source, `recv(payloadLength)`
  (server.rb:56) returns whatever bytes remain and the packet is parsed
  from them. For example, the final frame `04 17 00 00 00 03 18` is a Leave
  in the source. Join, Nick, PrivateMessage and Message would likewise be
  parsed from the shorter buffer.
- Session.Server.HandleClient: a Ruby exception while decoding is modelled
  as a decode failure. The exceptions are `buf[0]` or a slice being nil, a
  short header, and an unknown type code: the error message at
  server.rb:112 calls `unpack` on the Integer `typeCode`, so it raises
  instead of returning nil.
  That ends the loop and removes the user. In the source, the exception
  escapes `handleClient`, so `$users.delete` never runs and the user stays
  registered.
- Session.Step: every request other than a Hello gets its Response in the
  model. In the source, a Response send can raise instead. The type byte
  `"\xfe"` (server.rb:133) is a UTF-8 string holding an invalid byte. The
  frame concatenation at server.rb:155 then raises
  `Encoding::CompatibilityError` in two cases. One is a byte of the packed
  4-byte length of 0x80 or more, for example a payload of 128 to 255
  bytes. The other is a binary payload containing a byte of 0x80 or more,
  such as a listed room name containing 0xE9. Two examples:
  - a ListUsers reply listing twenty default nicks is 131 bytes long, so
    it is not sent;
  - once a room name with such a byte exists, every ListRooms reply fails.

  As with any other exception in a session, no reply goes out, the session
  ends and the user stays registered. The model does not track Ruby string
  encodings, so Responses always go out.
- Debug output (`puts`, `p pack`) is not modelled.
- Ruby measures strings in characters. The model measures them in bytes,
  which matches the binary strings `recv` returns.
- The `sendPacket` branch for an unknown packet type (server.rb:150-153)
  cannot be reached with the typed `OutPacket`, so it is not modelled.
- A roomless Message: the code checks for a room mismatch first
  (server.rb:241), so a sender in no room is told "Room mismatch". The
  not-in-a-room message (server.rb:243-244) is reached only by a user in the
  room named by the empty string. The model keeps this order
  (`Session.MessageError`).
- A Hello received after the handshake falls into the source's `else`
  branch: it is only logged, and the session goes on. `Session.Server.Dispatch`
  does nothing for it.

## Findings

| source | as written | input that shows it | evidently intended | confidence | as-written member | corrected member |
|---|---|---|---|---|---|---|
| server.rb:217 | the ListUsers filter for a caller in a room compares against `$users[userId.room]`; `userId` is an Integer, so the lookup raises NoMethodError and the caller gets no reply; the exception escapes `handleClient`, so the session ends and `$users.delete` (server.rb:258) never runs, leaving the user registered | a user in room "lobby" sends ListUsers | list the names of the users whose room is the caller's room | not executed | Session.ListUsersAsWritten, Session.ListUsersAsWrittenInRoom | Session.Server.SendUserList, Session.ListUsersScope |
