/** The server's shared directory of users and rooms and the per-connection
    session that drives it (server.rb, handleClient). Sessions run one at a
    time here: the directory is a class whose fields are the global hashes
    $users and $rooms and the counter $userCounter, and the packets the server
    sends are appended to an outbox as (recipient id, packet). */
module Session {
  import opened Wrappers
  import opened Codec

  /** User ids: the value of the counter when the user said Hello. */
  type Id = nat

  /** A connected user: display name and current room (None: no room). */
  datatype User = User(name: Bytes, room: Option<Bytes>)

  const WRONG_PASSWORD: Bytes := Ascii("Wrong password")
  const NO_SUCH_USER: Bytes := Ascii("User doesn't exist")
  const ROOM_MISMATCH: Bytes :=
    Ascii("Room mismatch (You can't speak in a room you're not in; you're not a good enough ventriloquist.")
  const NOT_IN_ROOM: Bytes := Ascii("You're not in a room (You shout into the void. There is no response.)")
  const RAND: Bytes := Ascii("rand")

  // ---------------------------------------------------------------------------
  // Default nick names: "rand" followed by the id in decimal
  // ---------------------------------------------------------------------------

  predicate IsDigit(b: Byte)
  {
    '0' as int <= b <= '9' as int
  }

  /** The decimal digits of n, most significant first, as Ruby's string
      interpolation writes them. */
  function Digits(n: nat): (r: Bytes)
    ensures |r| > 0 && forall i :: 0 <= i < |r| ==> IsDigit(r[i])
  {
    if n < 10 then [48 + n] else Digits(n / 10) + [48 + n % 10]
  }

  /** The number a string of decimal digits denotes. */
  function DigitsValue(s: Bytes): nat
    requires forall i :: 0 <= i < |s| ==> IsDigit(s[i])
  {
    if s == [] then 0
    else
      assert IsDigit(s[|s| - 1]);
      DigitsValue(s[..|s| - 1]) * 10 + (s[|s| - 1] as int - 48)
  }

  lemma {:induction false} DigitsRoundTrip(n: nat)
    ensures DigitsValue(Digits(n)) == n
  {
    var d := Digits(n);
    if n < 10 {
      assert d[..|d| - 1] == [];
    } else {
      assert d[..|d| - 1] == Digits(n / 10);
      DigitsRoundTrip(n / 10);
    }
  }

  /** The nick a user gets at registration: "rand<id>". */
  function DefaultNick(id: Id): (r: Bytes)
    ensures |r| > |RAND| && r[..|RAND|] == RAND
    ensures forall i :: |RAND| <= i < |r| ==> IsDigit(r[i])
    ensures DigitsValue(r[|RAND|..]) == id
  {
    var r := RAND + Digits(id);
    assert r[|RAND|..] == Digits(id);
    DigitsRoundTrip(id);
    r
  }

  /** Two users never get the same default nick. */
  lemma DefaultNickInjective(a: Id, b: Id)
    ensures DefaultNick(a) == DefaultNick(b) ==> a == b
  {
    if DefaultNick(a) == DefaultNick(b) {
      assert Digits(a) == DefaultNick(a)[|RAND|..];
      assert Digits(b) == DefaultNick(b)[|RAND|..];
      DigitsRoundTrip(a);
      DigitsRoundTrip(b);
    }
  }

  // ---------------------------------------------------------------------------
  // Iterating over $users
  // ---------------------------------------------------------------------------

  /** Which users a loop over $users acts on. */
  datatype Audience =
    | Everyone                          // ListUsers outside a room
    | NamedAs(name: Bytes)              // recipients of a PrivateMessage
    | MembersOf(room: Bytes)            // ListUsers inside a room
    | PeersOf(room: Bytes, sender: Id)  // recipients of a room Message

  predicate Includes(a: Audience, id: Id, u: User)
  {
    match a
    case Everyone => true
    case NamedAs(name) => u.name == name
    case MembersOf(room) => u.room == Some(room)
    case PeersOf(room, sender) => u.room == Some(room) && id != sender
  }

  /** The ids below n of the users the audience includes, in increasing
      order. $users is only ever extended with a fresh, larger id, so this is
      the order in which the source's loops visit them. */
  function Select(users: map<Id, User>, n: nat, a: Audience): (ids: seq<Id>)
    ensures forall i :: 0 <= i < |ids| ==> ids[i] < n && ids[i] in users && Includes(a, ids[i], users[ids[i]])
  {
    if n == 0 then []
    else Select(users, n - 1, a) + (if n - 1 in users && Includes(a, n - 1, users[n - 1]) then [n - 1] else [])
  }

  lemma {:induction false} SelectComplete(users: map<Id, User>, n: nat, a: Audience, id: Id)
    requires id < n && id in users && Includes(a, id, users[id])
    ensures id in Select(users, n, a)
  {
    if id < n - 1 {
      SelectComplete(users, n - 1, a, id);
    }
  }

  /** The ids come out strictly increasing, so each user is visited once
      and in id order. */
  predicate Increasing(ids: seq<Id>)
  {
    forall i, j :: 0 <= i < j < |ids| ==> ids[i] < ids[j]
  }

  lemma {:induction false} SelectIncreasing(users: map<Id, User>, n: nat, a: Audience)
    ensures Increasing(Select(users, n, a))
  {
    if n > 0 {
      SelectIncreasing(users, n - 1, a);
      var prev := Select(users, n - 1, a);
      var ids := Select(users, n, a);
      forall i, j | 0 <= i < j < |ids|
        ensures ids[i] < ids[j]
      {
        assert ids[i] == prev[i];
        if j < |prev| {
          assert ids[j] == prev[j];
          assert prev[i] < prev[j];
        } else {
          assert ids[j] == n - 1;
          assert prev[i] < n - 1;
        }
      }
    }
  }

  /** When every id is below n, Select picks exactly the included users. */
  lemma SelectExactly(users: map<Id, User>, n: nat, a: Audience, id: Id)
    requires forall k :: k in users ==> k < n
    ensures id in Select(users, n, a) <==> id in users && Includes(a, id, users[id])
  {
    if id in users && Includes(a, id, users[id]) {
      SelectComplete(users, n, a, id);
    }
  }

  /** A room Message reaches every other member of the room and never the
      sender. */
  lemma BroadcastAudience(users: map<Id, User>, n: nat, room: Bytes, sender: Id, id: Id)
    requires forall k :: k in users ==> k < n
    ensures id in Select(users, n, PeersOf(room, sender)) <==>
              id in users && users[id].room == Some(room) && id != sender
  {
    SelectExactly(users, n, PeersOf(room, sender), id);
  }

  /** A PrivateMessage reaches every user with the target name (display names
      need not be unique), and no one at all exactly when no user has it. */
  lemma PrivateAudience(users: map<Id, User>, n: nat, target: Bytes)
    requires forall k :: k in users ==> k < n
    ensures forall id :: id in Select(users, n, NamedAs(target)) <==> id in users && users[id].name == target
    ensures Select(users, n, NamedAs(target)) == [] <==> forall id :: id in users ==> users[id].name != target
  {
    forall id | true
      ensures id in Select(users, n, NamedAs(target)) <==> id in users && users[id].name == target
    {
      SelectExactly(users, n, NamedAs(target), id);
    }
    var ids := Select(users, n, NamedAs(target));
    if ids != [] {
      assert ids[0] in users && users[ids[0]].name == target;
    }
  }

  /** The names of the given users, in the same order. */
  function NamesOf(users: map<Id, User>, ids: seq<Id>): (names: seq<Bytes>)
    requires forall i :: 0 <= i < |ids| ==> ids[i] in users
    ensures |names| == |ids|
    ensures forall i :: 0 <= i < |ids| ==> names[i] == users[ids[i]].name
  {
    if ids == [] then []
    else NamesOf(users, ids[..|ids| - 1]) + [users[ids[|ids| - 1]].name]
  }

  /** One copy of the packet for each recipient, in order. */
  function Deliver(ids: seq<Id>, p: OutPacket): (out: seq<(Id, OutPacket)>)
    ensures |out| == |ids|
    ensures forall i :: 0 <= i < |ids| ==> out[i] == (ids[i], p)
  {
    if ids == [] then [] else Deliver(ids[..|ids| - 1], p) + [(ids[|ids| - 1], p)]
  }

  /** One more step of a loop over the ids. */
  lemma SelectStep(users: map<Id, User>, k: nat, a: Audience)
    ensures Select(users, k + 1, a) ==
              Select(users, k, a) + (if k in users && Includes(a, k, users[k]) then [k] else [])
  {
  }

  lemma NamesOfSnoc(users: map<Id, User>, ids: seq<Id>, id: Id)
    requires forall i :: 0 <= i < |ids| ==> ids[i] in users
    requires id in users
    ensures NamesOf(users, ids + [id]) == NamesOf(users, ids) + [users[id].name]
  {
    assert (ids + [id])[..|ids|] == ids;
  }

  /** One more step of the loop that lists user names. */
  lemma UserListStep(users: map<Id, User>, k: nat, a: Audience)
    ensures JoinItems(NamesOf(users, Select(users, k + 1, a))) ==
              JoinItems(NamesOf(users, Select(users, k, a))) +
              (if k in users && Includes(a, k, users[k]) then Prefixed8(users[k].name) else [])
  {
    SelectStep(users, k, a);
    if k in users && Includes(a, k, users[k]) {
      NamesOfSnoc(users, Select(users, k, a), k);
      JoinItemsSnoc(NamesOf(users, Select(users, k, a)), users[k].name);
    } else {
      assert Select(users, k + 1, a) == Select(users, k, a);
    }
  }

  /** One more step of a loop that sends a packet to an audience: the queue
      built for the ids below k, extended by k when the audience includes
      it, is the queue for the ids below k + 1. */
  lemma DeliverStep(users: map<Id, User>, k: nat, a: Audience, p: OutPacket,
                    start: seq<(Id, OutPacket)>, queue: seq<(Id, OutPacket)>)
    requires queue == start + Deliver(Select(users, k, a), p)
    ensures k in users && Includes(a, k, users[k]) ==> queue + [(k, p)] == start + Deliver(Select(users, k + 1, a), p)
    ensures !(k in users && Includes(a, k, users[k])) ==> queue == start + Deliver(Select(users, k + 1, a), p)
  {
    SelectStep(users, k, a);
    var before := Select(users, k, a);
    if k in users && Includes(a, k, users[k]) {
      DeliverSnoc(before, k, p);
      SnocAssociates(start, Deliver(before, p), (k, p));
    } else {
      assert Select(users, k + 1, a) == before;
    }
  }

  /** Appending one element after a concatenation. */
  lemma SnocAssociates<T>(xs: seq<T>, ys: seq<T>, z: T)
    ensures xs + ys + [z] == xs + (ys + [z])
  {
  }

  lemma DeliverSnoc(ids: seq<Id>, id: Id, p: OutPacket)
    ensures Deliver(ids + [id], p) == Deliver(ids, p) + [(id, p)]
  {
    assert (ids + [id])[..|ids|] == ids;
  }

  // ---------------------------------------------------------------------------
  // Decisions the handlers take
  // ---------------------------------------------------------------------------

  datatype JoinOutcome = Created | Entered | WrongPassword

  /** A Join creates an unknown room with the given password, enters a known
      room whose password is equal to the given one (both absent counts as
      equal), and is refused otherwise. */
  function JoinDecision(rooms: map<Bytes, Option<Bytes>>, room: Bytes, password: Option<Bytes>): (o: JoinOutcome)
    ensures o == Created <==> room !in rooms
    ensures o == WrongPassword <==> room in rooms && rooms[room] != password
  {
    if room !in rooms then Created
    else if rooms[room] == password then Entered
    else WrongPassword
  }

  /** The error a room Message is answered with, if any. The room comparison
      comes first, so a user in no room is told "Room mismatch"; only a user
      in the room named by the empty string is told "not in a room". */
  function MessageError(current: Option<Bytes>, room: Bytes): (err: Option<Bytes>)
    ensures err.None? <==> current == Some(room) && room != []
    ensures current != Some(room) ==> err == Some(ROOM_MISMATCH)
    ensures current == Some([]) && room == [] ==> err == Some(NOT_IN_ROOM)
  {
    if current != Some(room) then Some(ROOM_MISMATCH)
    else if room == [] then Some(NOT_IN_ROOM)
    else None
  }

  /** Whose names ListUsers reports: everyone when the caller is in no room,
      the members of the caller's room otherwise. */
  function ListUsersAudience(current: Option<Bytes>): Audience
  {
    match current
    case None => Everyone
    case Some(room) => MembersOf(room)
  }

  /** ListUsers reports exactly all users when the caller is in no room, and
      exactly the users in the caller's room otherwise. */
  lemma ListUsersScope(users: map<Id, User>, n: nat, caller: Id, id: Id)
    requires forall k :: k in users ==> k < n
    requires caller in users
    ensures id in Select(users, n, ListUsersAudience(users[caller].room)) <==>
              id in users && (users[caller].room.Some? ==> users[id].room == users[caller].room)
  {
    SelectExactly(users, n, ListUsersAudience(users[caller].room), id);
  }

  /** The reply to ListUsers as the source has it. Inside a room the filter
      looks up $users[userId.room]; an Integer has no method room, so the
      handler raises and sends nothing (None). */
  function ListUsersAsWritten(users: map<Id, User>, n: nat, caller: Id): (r: Option<OutPacket>)
    requires caller in users
    ensures r.None? <==> users[caller].room.Some?
    ensures r.Some? ==> r.value.Response? && !r.value.error
  {
    if users[caller].room.None? then
      Some(Response(false, Text(JoinItems(NamesOf(users, Select(users, n, Everyone))))))
    else
      None
  }

  /** A user alone in room "lobby" asks for the user list: the source sends
      no reply, while the same-room filter would list that user. */
  lemma ListUsersAsWrittenInRoom()
    ensures var users := map[0 := User(DefaultNick(0), Some(Ascii("lobby")))];
      && ListUsersAsWritten(users, 1, 0).None?
      && Select(users, 1, ListUsersAudience(users[0].room)) == [0]
  {
  }

  // ---------------------------------------------------------------------------
  // The directory and the session
  // ---------------------------------------------------------------------------

  /** The first packet of the stream is a valid Hello. */
  predicate StartsWithHello(input: Bytes)
  {
    ReadPacket(input).Some? && ReadPacket(input).value.0 == Hello
  }

  /** The shared state as a value: the directory and everything sent. */
  datatype ServerState = ServerState(
    users: map<Id, User>,
    rooms: map<Bytes, Option<Bytes>>,
    roomOrder: seq<Bytes>,
    counter: nat,
    outbox: seq<(Id, OutPacket)>)

  /** What handling one decoded packet from user id does to the state, and
      whether the session goes on. Only a Hello (which the loop ignores)
      leaves the state as it was; every other packet is answered. */
  function Step(st: ServerState, id: Id, p: Packet): (r: (ServerState, bool))
    requires id in st.users
    ensures r.1 <==> !(p.Leave? && st.users[id].room.None?)
    ensures r.0 == st <==> p.Hello?
    ensures !p.Hello? ==> |r.0.outbox| > |st.outbox|
    ensures st.outbox <= r.0.outbox
    ensures r.0.counter == st.counter
    ensures r.0.users.Keys == st.users.Keys
    ensures forall k :: k in st.users && k != id ==> r.0.users[k] == st.users[k]
    ensures forall room :: room in st.rooms ==> room in r.0.rooms && r.0.rooms[room] == st.rooms[room]
  {
    var u := st.users[id];
    var ok := Response(false, NoData);
    match p
    case Hello => (st, true)
    case Join(room, password) =>
      (match JoinDecision(st.rooms, room, password)
       case Created =>
         st.(users := st.users[id := u.(room := Some(room))], rooms := st.rooms[room := password],
             roomOrder := st.roomOrder + [room], outbox := st.outbox + [(id, ok)])
       case Entered =>
         st.(users := st.users[id := u.(room := Some(room))], outbox := st.outbox + [(id, ok)])
       case WrongPassword =>
         st.(outbox := st.outbox + [(id, Response(true, Text(WRONG_PASSWORD)))]),
       true)
    case Leave =>
      (st.(users := st.users[id := u.(room := None)], outbox := st.outbox + [(id, ok)]), u.room.Some?)
    case ListRooms =>
      (st.(outbox := st.outbox + [(id, Response(false, Text(JoinItems(st.roomOrder))))]), true)
    case ListUsers =>
      var names := NamesOf(st.users, Select(st.users, st.counter, ListUsersAudience(u.room)));
      (st.(outbox := st.outbox + [(id, Response(false, Text(JoinItems(names))))]), true)
    case Nick(name) =>
      (st.(users := st.users[id := u.(name := name)], outbox := st.outbox + [(id, ok)]), true)
    case PrivateMessage(target, body) =>
      var recipients := Select(st.users, st.counter, NamedAs(target));
      var reply := if recipients == [] then Response(true, Text(NO_SUCH_USER)) else ok;
      (st.(outbox := st.outbox + Deliver(recipients, OutPrivateMessage(u.name, body)) + [(id, reply)]), true)
    case Message(room, body) =>
      match MessageError(u.room, room)
      case Some(err) => (st.(outbox := st.outbox + [(id, Response(true, Text(err)))]), true)
      case None =>
        var peers := Select(st.users, st.counter, PeersOf(room, id));
        (st.(outbox := st.outbox + [(id, ok)] + Deliver(peers, OutMessage(room, u.name, body))), true)
  }

  /** The packets of a session after the Hello: each one read off the
      stream is handled in turn, until the stream no longer decodes or a
      Leave outside any room ends the session. */
  function Run(st: ServerState, id: Id, input: Bytes): (fin: ServerState)
    requires id in st.users
    ensures st.outbox <= fin.outbox
    ensures fin.counter == st.counter
    ensures fin.users.Keys == st.users.Keys
    ensures forall k :: k in st.users && k != id ==> fin.users[k] == st.users[k]
    ensures forall room :: room in st.rooms ==> room in fin.rooms && fin.rooms[room] == st.rooms[room]
    decreases |input|
  {
    match ReadPacket(input)
    case None => st
    case Some((p, rest)) =>
      var r := Step(st, id, p);
      if r.1 then Run(r.0, id, rest) else r.0
  }

  /** A Leave from a user in no room is answered with success and ends the
      session: whatever follows it on the stream is never handled. */
  lemma LeaveEndsSession(st: ServerState, id: Id, more: Bytes)
    requires id in st.users && st.users[id].room.None?
    ensures Run(st, id, EncodeRequest(Leave) + more) == st.(outbox := st.outbox + [(id, Response(false, NoData))])
  {
    RequestRoundTrip(Leave, more);
    assert st.users[id := st.users[id].(room := None)] == st.users;
  }

  /** The Hello handshake: the counter's value becomes the id, the counter
      goes up, the user enters with nick "rand<id>" and no room, and is sent
      the nick. */
  function Admit(st: ServerState): (r: ServerState)
    ensures r.counter == st.counter + 1
    ensures r.users == st.users[st.counter := User(DefaultNick(st.counter), None)]
    ensures r.outbox == st.outbox + [(st.counter, Response(false, Text(DefaultNick(st.counter))))]
    ensures r.rooms == st.rooms && r.roomOrder == st.roomOrder
  {
    var id := st.counter;
    st.(users := st.users[id := User(DefaultNick(id), None)], counter := id + 1,
        outbox := st.outbox + [(id, Response(false, Text(DefaultNick(id))))])
  }

  /** A whole connection: nothing happens unless the stream starts with a
      valid Hello; otherwise the user is admitted, the rest of the stream is
      run, and the user's record is removed again. */
  function Serve(st: ServerState, input: Bytes): (r: ServerState)
    ensures !StartsWithHello(input) ==> r == st
    ensures StartsWithHello(input) ==>
              r.counter == st.counter + 1 && st.counter !in r.users &&
              |r.outbox| > |st.outbox| &&
              r.outbox[|st.outbox|] == (st.counter, Response(false, Text(DefaultNick(st.counter))))
    ensures (forall k :: k in st.users ==> k < st.counter) ==> r.users == st.users
    ensures forall room :: room in st.rooms ==> room in r.rooms && r.rooms[room] == st.rooms[room]
    ensures st.outbox <= r.outbox
  {
    match ReadPacket(input)
    case Some((Hello, rest)) =>
      var fin := Run(Admit(st), st.counter, rest);
      fin.(users := fin.users - {st.counter})
    case _ => st
  }

  class Server {
    /** $users: connected users by id. */
    var users: map<Id, User>
    /** $rooms: each room's password (None: no password). */
    var rooms: map<Bytes, Option<Bytes>>
    /** The keys of $rooms in insertion order, the order $rooms.keys gives. */
    var roomOrder: seq<Bytes>
    /** $userCounter: the id the next user gets. */
    var counter: nat
    /** Every packet sent so far, with the id of the user it was sent to. */
    var outbox: seq<(Id, OutPacket)>

    ghost predicate Valid()
      reads this
    {
      && (forall id :: id in users ==> id < counter)
      && (forall i, j :: 0 <= i < j < |roomOrder| ==> roomOrder[i] != roomOrder[j])
      && (forall r :: r in rooms <==> r in roomOrder)
      && (forall id :: id in users && users[id].room.Some? ==> users[id].room.value in rooms)
    }

    /** The current state as a value. */
    function Snapshot(): ServerState
      reads this
    {
      ServerState(users, rooms, roomOrder, counter, outbox)
    }

    constructor ()
      ensures Valid()
      ensures users == map[] && rooms == map[] && roomOrder == [] && counter == 0 && outbox == []
    {
      users, rooms, roomOrder, counter, outbox := map[], map[], [], 0, [];
    }

    /** The Hello handshake: the user takes the counter as id, the counter
        goes up by one, the user is entered with nick "rand<id>" and no room,
        and the nick is sent back. */
    method Register() returns (id: Id)
      requires Valid()
      modifies this`users, this`counter, this`outbox
      ensures Valid()
      ensures id == old(counter) && counter == old(counter) + 1
      ensures id !in old(users)
      ensures users == old(users)[id := User(DefaultNick(id), None)]
      ensures outbox == old(outbox) + [(id, Response(false, Text(DefaultNick(id))))]
    {
      id := counter;
      counter := counter + 1;
      users := users[id := User(DefaultNick(id), None)];
      outbox := outbox + [(id, Response(false, Text(DefaultNick(id))))];
    }

    method JoinRoom(id: Id, room: Bytes, password: Option<Bytes>)
      requires Valid() && id in users
      modifies this`users, this`rooms, this`roomOrder, this`outbox
      ensures Valid()
      ensures JoinDecision(old(rooms), room, password) == Created ==>
                rooms == old(rooms)[room := password] && roomOrder == old(roomOrder) + [room]
      ensures JoinDecision(old(rooms), room, password) != Created ==>
                rooms == old(rooms) && roomOrder == old(roomOrder)
      ensures JoinDecision(old(rooms), room, password) == WrongPassword ==>
                users == old(users) && outbox == old(outbox) + [(id, Response(true, Text(WRONG_PASSWORD)))]
      ensures JoinDecision(old(rooms), room, password) != WrongPassword ==>
                users == old(users)[id := old(users)[id].(room := Some(room))] &&
                outbox == old(outbox) + [(id, Response(false, NoData))]
    {
      if room !in rooms {
        rooms := rooms[room := password];
        roomOrder := roomOrder + [room];
        users := users[id := users[id].(room := Some(room))];
      } else if rooms[room] == password {
        users := users[id := users[id].(room := Some(room))];
      } else {
        outbox := outbox + [(id, Response(true, Text(WRONG_PASSWORD)))];
        return;
      }
      outbox := outbox + [(id, Response(false, NoData))];
    }

    /** Leave clears the user's room and succeeds; in no room it succeeds and
        ends the session (stay is false). */
    method LeaveRoom(id: Id) returns (stay: bool)
      requires Valid() && id in users
      modifies this`users, this`outbox
      ensures Valid()
      ensures stay <==> old(users)[id].room.Some?
      ensures users == old(users)[id := old(users)[id].(room := None)]
      ensures outbox == old(outbox) + [(id, Response(false, NoData))]
    {
      if users[id].room.None? {
        assert users[id].(room := None) == users[id];
        outbox := outbox + [(id, Response(false, NoData))];
        stay := false;
      } else {
        users := users[id := users[id].(room := None)];
        outbox := outbox + [(id, Response(false, NoData))];
        stay := true;
      }
    }

    /** ListRooms: the names of all rooms ever created, in creation order,
        each behind its one-byte length. */
    method SendRoomList(id: Id)
      modifies this`outbox
      ensures outbox == old(outbox) + [(id, Response(false, Text(JoinItems(roomOrder))))]
    {
      var data: Bytes := [];
      var i := 0;
      while i < |roomOrder|
        invariant 0 <= i <= |roomOrder|
        invariant data == JoinItems(roomOrder[..i])
        invariant outbox == old(outbox)
      {
        JoinItemsSnoc(roomOrder[..i], roomOrder[i]);
        assert roomOrder[..i + 1] == roomOrder[..i] + [roomOrder[i]];
        data := data + Prefixed8(roomOrder[i]);
        i := i + 1;
      }
      assert roomOrder[..i] == roomOrder;
      outbox := outbox + [(id, Response(false, Text(data)))];
    }

    /** ListUsers: the names of all users when the caller is in no room, of
        the users in the caller's room otherwise, in id order. */
    method SendUserList(id: Id)
      requires id in users
      modifies this`outbox
      ensures outbox == old(outbox) +
                [(id, Response(false, Text(JoinItems(NamesOf(users, Select(users, counter, ListUsersAudience(users[id].room)))))))]
    {
      var audience := ListUsersAudience(users[id].room);
      var data: Bytes := [];
      var k := 0;
      while k < counter
        invariant 0 <= k <= counter
        invariant data == JoinItems(NamesOf(users, Select(users, k, audience)))
        invariant outbox == old(outbox)
      {
        UserListStep(users, k, audience);
        if k in users && Includes(audience, k, users[k]) {
          data := data + Prefixed8(users[k].name);
        }
        k := k + 1;
      }
      outbox := outbox + [(id, Response(false, Text(data)))];
    }

    method Rename(id: Id, name: Bytes)
      requires Valid() && id in users
      modifies this`users, this`outbox
      ensures Valid()
      ensures users == old(users)[id := old(users)[id].(name := name)]
      ensures outbox == old(outbox) + [(id, Response(false, NoData))]
    {
      users := users[id := users[id].(name := name)];
      outbox := outbox + [(id, Response(false, NoData))];
    }

    /** The loop PrivateMessage and Message share: the packet is queued
        for every registered user the audience includes, visiting ids in
        increasing order; the result says whether anyone got it. */
    method SendTo(audience: Audience, packet: OutPacket) returns (sent: bool)
      modifies this`outbox
      ensures outbox == old(outbox) + Deliver(Select(users, counter, audience), packet)
      ensures sent <==> Select(users, counter, audience) != []
    {
      var directory, n := users, counter;
      ghost var start := outbox;
      sent := false;
      var k := 0;
      while k < n
        invariant 0 <= k <= n
        invariant outbox == start + Deliver(Select(directory, k, audience), packet)
        invariant sent <==> |outbox| > |start|
      {
        DeliverStep(directory, k, audience, packet, start, outbox);
        if k in directory && Includes(audience, k, directory[k]) {
          outbox := outbox + [(k, packet)];
          sent := true;
        }
        k := k + 1;
      }
    }

    /** PrivateMessage: a copy, carrying the sender's name, to every user
        with the target name, then success to the sender, or an error when
        no user has that name. */
    method SendPrivate(id: Id, target: Bytes, body: Bytes)
      requires id in users
      modifies this`outbox
      ensures var recipients := Select(users, counter, NamedAs(target));
        outbox == old(outbox) + Deliver(recipients, OutPrivateMessage(users[id].name, body)) +
                  [(id, if recipients == [] then Response(true, Text(NO_SUCH_USER)) else Response(false, NoData))]
    {
      var sent := SendTo(NamedAs(target), OutPrivateMessage(users[id].name, body));
      if sent {
        outbox := outbox + [(id, Response(false, NoData))];
      } else {
        outbox := outbox + [(id, Response(true, Text(NO_SUCH_USER)))];
      }
    }

    /** Message: refused unless the sender is in the named, non-empty room;
        otherwise success to the sender, then a copy to every other member. */
    method Broadcast(id: Id, room: Bytes, body: Bytes)
      requires id in users
      modifies this`outbox
      ensures MessageError(users[id].room, room).Some? ==>
                outbox == old(outbox) + [(id, Response(true, Text(MessageError(users[id].room, room).value)))]
      ensures MessageError(users[id].room, room).None? ==>
                outbox == old(outbox) + [(id, Response(false, NoData))] +
                          Deliver(Select(users, counter, PeersOf(room, id)), OutMessage(room, users[id].name, body))
    {
      var current := users[id].room;
      var name := users[id].name;
      if current != Some(room) {
        outbox := outbox + [(id, Response(true, Text(ROOM_MISMATCH)))];
      } else if room == [] {
        outbox := outbox + [(id, Response(true, Text(NOT_IN_ROOM)))];
      } else {
        outbox := outbox + [(id, Response(false, NoData))];
        var _ := SendTo(PeersOf(room, id), OutMessage(room, name, body));
      }
    }

    /** The user's record goes when the session ends; rooms stay. */
    method Disconnect(id: Id)
      requires Valid()
      modifies this`users
      ensures Valid()
      ensures users == old(users) - {id}
    {
      users := users - {id};
    }

    /** Hands one decoded packet to its handler; the new state and whether
        the session goes on are those Step gives. */
    method Dispatch(id: Id, p: Packet) returns (stay: bool)
      requires Valid() && id in users
      modifies this
      ensures Valid()
      ensures (Snapshot(), stay) == Step(old(Snapshot()), id, p)
    {
      ghost var before := Snapshot();
      stay := true;
      match p {
        case Hello =>
        case Join(room, password) =>
          JoinRoom(id, room, password);
          assert Snapshot() == Step(before, id, p).0;
        case Leave =>
          stay := LeaveRoom(id);
          assert Snapshot() == Step(before, id, p).0;
        case ListRooms =>
          SendRoomList(id);
          assert Snapshot() == Step(before, id, p).0;
        case ListUsers =>
          SendUserList(id);
          assert Snapshot() == Step(before, id, p).0;
        case Nick(name) =>
          Rename(id, name);
          assert Snapshot() == Step(before, id, p).0;
        case PrivateMessage(target, body) =>
          SendPrivate(id, target, body);
          assert Snapshot() == Step(before, id, p).0;
        case Message(room, body) =>
          Broadcast(id, room, body);
          assert Snapshot() == Step(before, id, p).0;
      }
    }

    /** One connection from Hello to the end, as Serve describes it: packets
        are handled until one fails to decode or a Leave outside any room,
        then the user is removed again. */
    method HandleClient(input: Bytes) returns (session: Option<Id>)
      requires Valid()
      modifies this
      ensures Valid()
      ensures session.Some? <==> StartsWithHello(input)
      ensures session.Some? ==> session.value == old(counter)
      ensures Snapshot() == Serve(old(Snapshot()), input)
    {
      var first := ReadPacket(input);
      if first.None? || first.value.0 != Hello {
        return None;
      }
      var id := Register();
      assert Snapshot() == Admit(old(Snapshot()));
      var rest := first.value.1;
      ghost var target := Run(Snapshot(), id, rest);
      var stay := true;
      while stay
        invariant Valid() && id in users
        invariant stay ==> Run(Snapshot(), id, rest) == target
        invariant !stay ==> Snapshot() == target
        decreases |rest|
      {
        var next := ReadPacket(rest);
        if next.None? {
          break;
        }
        rest := next.value.1;
        stay := Dispatch(id, next.value.0);
      }
      Disconnect(id);
      session := Some(id);
    }
  }
}
