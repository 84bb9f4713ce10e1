/** The signaling relay of signaling-server/server.js, as values: the client
    records, the frames in and out, the admission rule, the room bookkeeping
    shared by `join_room` and `close`, who a room broadcast reaches, and the
    invariant that ties the two client indexes and the room table together. */
module RelaySpec {
  import opened Common

  /** A WebSocket connection handle (the `ws` object of the source). */
  type Conn = nat

  const ALLOWED_ORIGINS: seq<string> := [
    "http://localhost:3000",
    "http://127.0.0.1:3000",
    "https://share-file-nuxt.netlify.app",
    "https://spacex-launch-timeline-nuxt.netlify.app"
  ]

  /** The message kinds that are relayed point to point. */
  const FORWARD_KINDS: set<string> := {
    "offer", "answer", "candidate",
    "file_transfer_request", "file_transfer_accepted",
    "file_transfer_rejected", "file_transfer_cancelled"
  }

  /** The per-connection wrapper `{ ws, id, roomId, name, avatar, isAlive }`;
      `open` is `ws.readyState === WebSocket.OPEN`. */
  datatype ClientRec = ClientRec(
    id: string, name: string, avatar: string,
    roomId: Option<string>, isAlive: bool, open: bool)

  /** An entry of the `existing_users` list and the payload of `user_joined`. */
  datatype UserInfo = UserInfo(id: string, name: string, avatar: string)

  function Info(c: ClientRec): UserInfo
  {
    UserInfo(c.id, c.name, c.avatar)
  }

  /** The reason an `error` frame reports to its sender. */
  datatype ErrorReason =
    | InvalidJson                      // 'Invalid JSON message'
    | InvalidRoomId                    // 'Invalid roomId for join_room'
    | NotInRoom                        // 'You are not in a room to broadcast.'
    | NoData                           // 'No data to broadcast.'
    | Unreachable(targetId: Json)      // 'User <targetId> not found or not connected.'
    | UnknownType(kind: Option<Json>)  // 'Unknown message type: <type>'

  /** Everything the server puts on a socket: a JSON frame or a ping. */
  datatype OutMsg =
    | Error(reason: ErrorReason)
    | ExistingUsers(users: seq<UserInfo>)
    | RoomJoined(roomId: string, clientId: string, id: string, name: string, avatar: string)
    | UserJoined(user: UserInfo)
    | UserLeft(id: string)
    | RoomMessage(senderId: string, senderName: string, data: Json)
    | Forwarded(kind: string, payload: map<string, Json>)
    | Ping

  /** A text frame as it arrives: JSON that did not parse, or the parsed value. */
  datatype Frame = Unparsable | Parsed(message: Json)

  // ---------------------------------------------------------------- admission

  predicate IsLocalhost(host: Option<string>)
  {
    host.Some? && ("localhost" <= host.value || "127.0.0.1" <= host.value)
  }

  /** The origin check of the connection handler, written as its two nested tests. */
  function Admit(origin: Option<string>, host: Option<string>): (accepted: bool)
    ensures accepted <==> (origin.Some? && origin.value in ALLOWED_ORIGINS) || IsLocalhost(host)
  {
    if origin.None? || origin.value == "" || origin.value !in ALLOWED_ORIGINS then
      var originListed := origin.Some? && origin.value in ALLOWED_ORIGINS;
      originListed || IsLocalhost(host)
    else
      true
  }

  // ---------------------------------------------------------------- dispatch

  /** `message.type` as the model reads it: the own `type` property of an
      object, and none for every other value, `null` included. */
  function TypeField(message: Json): (r: Option<Json>)
    ensures r.Some? <==> message.JObj? && "type" in message.fields
    ensures r.Some? ==> r.value == message.fields["type"]
  {
    Prop(Some(message), "type")
  }

  datatype Route = Join | Broadcast | Forward(kind: string) | Unknown

  /** The `switch (message.type)`, which compares with `===` against strings. */
  function RouteOf(kind: Option<Json>): (r: Route)
    ensures r.Forward? ==> r.kind in FORWARD_KINDS
    ensures r.Unknown? <==> !(kind.Some? && kind.value.JStr?
                              && (kind.value.s in FORWARD_KINDS || kind.value.s in {"join_room", "broadcast_message"}))
  {
    if kind == Some(JStr("join_room")) then Join
    else if kind == Some(JStr("broadcast_message")) then Broadcast
    else if kind.Some? && kind.value.JStr? && kind.value.s in FORWARD_KINDS then Forward(kind.value.s)
    else Unknown
  }

  /** What the `switch (message.type)` does with a parsed frame: it throws,
      or it takes a route with the type it read. */
  datatype Dispatch = Throws | Takes(route: Route, kind: Option<Json>)

  /** The switch as written: reading `type` of `null` throws a TypeError out
      of the handler before any branch runs. */
  function DispatchAsWritten(message: Json): Dispatch
  {
    if message.JNull? then Throws
    else
      var kind := Prop(Some(message), "type");
      Takes(RouteOf(kind), kind)
  }

  /** The switch as the model runs it, on `TypeField`. */
  function DispatchOf(message: Json): Dispatch
  {
    Takes(RouteOf(TypeField(message)), TypeField(message))
  }

  /** The two switches agree on every frame except `null`. As written, that
      frame throws; once corrected, it is answered like any frame without a
      type. */
  lemma NullFrameThrowsAsWritten(message: Json)
    ensures DispatchAsWritten(message).Throws? <==> message.JNull?
    ensures !message.JNull? ==> DispatchAsWritten(message) == DispatchOf(message)
    ensures DispatchOf(JNull) == Takes(Unknown, None)
  {
  }

  /** `{ ...payload, senderId }`: the payload with the true sender written over
      whatever `senderId` the sender supplied. */
  function Stamp(payload: map<string, Json>, senderId: string): (r: map<string, Json>)
    ensures "senderId" in r && r["senderId"] == JStr(senderId)
    ensures forall k | k != "senderId" :: (k in r <==> k in payload)
    ensures forall k | k in payload && k != "senderId" :: r[k] == payload[k]
  {
    payload["senderId" := JStr(senderId)]
  }

  // ---------------------------------------------------------------- broadcast

  /** Whether `broadcastToRoom` sends to this member. */
  predicate Receives(c: ClientRec, exclude: Option<string>)
  {
    (exclude.None? || c.id != exclude.value) && c.open
  }

  /** The sends of `room.forEach` in `broadcastToRoom`, in the room's order.
      (A member always has a record while the relay is consistent; one without
      a record would have no socket to send on.) */
  function Deliveries(members: seq<Conn>, clients: map<Conn, ClientRec>, msg: OutMsg, exclude: Option<string>)
    : seq<(Conn, OutMsg)>
  {
    if members == [] then []
    else
      var last := members[|members| - 1];
      Deliveries(members[..|members| - 1], clients, msg, exclude)
        + (if last in clients && Receives(clients[last], exclude) then [(last, msg)] else [])
  }

  /** A broadcast reaches exactly the open members other than the excluded id,
      each with the broadcast message. */
  lemma {:induction false} DeliveriesExactly(
    members: seq<Conn>, clients: map<Conn, ClientRec>, msg: OutMsg, exclude: Option<string>, w: Conn, m: OutMsg)
    ensures (w, m) in Deliveries(members, clients, msg, exclude)
        <==> w in members && w in clients && Receives(clients[w], exclude) && m == msg
  {
    if members != [] {
      var init := members[..|members| - 1];
      assert members == init + [members[|members| - 1]];
      DeliveriesExactly(init, clients, msg, exclude, w, m);
    }
  }

  /** Each member receives a broadcast at most once, in the room's order. */
  lemma {:induction false} DeliveriesOncePerMember(
    members: seq<Conn>, clients: map<Conn, ClientRec>, msg: OutMsg, exclude: Option<string>)
    requires Distinct(members)
    ensures Distinct(Deliveries(members, clients, msg, exclude))
    ensures |Deliveries(members, clients, msg, exclude)| <= |members|
  {
    if members != [] {
      var init := members[..|members| - 1];
      var last := members[|members| - 1];
      assert members == init + [last];
      DeliveriesOncePerMember(init, clients, msg, exclude);
      assert last !in init;
      forall m | (last, m) in Deliveries(init, clients, msg, exclude)
        ensures false
      {
        DeliveriesExactly(init, clients, msg, exclude, last, m);
      }
    }
  }

  /** A broadcast depends only on the records of the room's members. */
  lemma {:induction false} DeliveriesFrame(
    members: seq<Conn>, c1: map<Conn, ClientRec>, c2: map<Conn, ClientRec>, msg: OutMsg, exclude: Option<string>)
    requires forall v | v in members :: (v in c1 <==> v in c2) && (v in c1 ==> c1[v] == c2[v])
    ensures Deliveries(members, c1, msg, exclude) == Deliveries(members, c2, msg, exclude)
  {
    if members != [] {
      DeliveriesFrame(members[..|members| - 1], c1, c2, msg, exclude);
    }
  }

  // ---------------------------------------------------------------- rooms

  /** The members of a room, or none when the room does not exist. */
  function MembersOf(rooms: map<string, seq<Conn>>, r: string): seq<Conn>
  {
    if r in rooms then rooms[r] else []
  }

  /** Detaching a client from the room it names, shared by `join_room` and
      `close`: the room loses it and is deleted once it has no members. */
  function Leave(rooms: map<string, seq<Conn>>, w: Conn, from: Option<string>): map<string, seq<Conn>>
  {
    if from.Some? && from.value in rooms then
      var rest := Without(rooms[from.value], w);
      if |rest| == 0 then rooms - {from.value} else rooms[from.value := rest]
    else
      rooms
  }

  /** The `user_left` notice, announcing `id`, that follows a detach when the
      room survives. */
  function LeaveNotices(rooms: map<string, seq<Conn>>, clients: map<Conn, ClientRec>, w: Conn, from: Option<string>,
                        id: string): seq<(Conn, OutMsg)>
  {
    if from.Some? && from.value in rooms && |Without(rooms[from.value], w)| != 0 then
      Deliveries(Without(rooms[from.value], w), clients, UserLeft(id), None)
    else
      []
  }

  /** What a detach does to the rooms: only the named room changes; it keeps
      every member but the one leaving, and is deleted exactly when no other
      member is left. A missing or unknown room leaves the rooms alone. */
  lemma LeaveEffect(rooms: map<string, seq<Conn>>, w: Conn, from: Option<string>)
    ensures var left := Leave(rooms, w, from);
      && left.Keys <= rooms.Keys
      && (forall r | r in left && Some(r) != from :: left[r] == rooms[r])
      && (forall r | r in rooms && Some(r) != from :: r in left)
    ensures from.Some? && from.value in rooms ==>
      var left := Leave(rooms, w, from);
      && (from.value in left <==> exists v :: v in rooms[from.value] && v != w)
      && (from.value in left ==> forall v :: v in left[from.value] <==> v in rooms[from.value] && v != w)
  {
    if from.Some? && from.value in rooms {
      WithoutKeepsOthers(rooms[from.value], w);
      var rest := Without(rooms[from.value], w);
      if |rest| != 0 {
        assert rest[0] in rest;
      }
    }
  }

  /** Lazily creating the room and adding the client last (`room.add`). */
  function Enter(rooms: map<string, seq<Conn>>, w: Conn, r: string): map<string, seq<Conn>>
  {
    rooms[r := MembersOf(rooms, r) + [w]]
  }

  function UsersOf(members: seq<Conn>, clients: map<Conn, ClientRec>): seq<UserInfo>
    requires forall v | v in members :: v in clients
  {
    seq(|members|, i requires 0 <= i < |members| => Info(clients[members[i]]))
  }

  // ---------------------------------------------------------------- heartbeat

  /** A tick's effect on one client that answered the previous ping: it must
      answer again before the next tick. */
  function Suspect(c: ClientRec): ClientRec { c.(isAlive := false) }

  /** A tick's effect on a client that did not answer: `ws.terminate()` leaves
      the socket no longer open; its `close` event follows. */
  function Terminated(c: ClientRec): ClientRec { c.(open := false) }

  /** A tick's effect on one registered client: afterwards it has not
      answered, and it stays open only if it was open and had answered. */
  function SweepOne(c: ClientRec): (r: ClientRec)
    ensures !r.isAlive
    ensures r.open <==> c.open && c.isAlive
  {
    if c.isAlive then Suspect(c) else Terminated(c)
  }

  /** The pings of one tick, in the order of `wss.clients`. */
  function Pings(sockets: seq<Conn>, clients: map<Conn, ClientRec>): (r: seq<(Conn, OutMsg)>)
  {
    if sockets == [] then []
    else
      var last := sockets[|sockets| - 1];
      Pings(sockets[..|sockets| - 1], clients) + (if last in clients && clients[last].isAlive then [(last, Ping)] else [])
  }

  /** The connections one tick terminates, in the order of `wss.clients`:
      those without a record and those whose client did not answer. */
  function Dead(sockets: seq<Conn>, clients: map<Conn, ClientRec>): (r: seq<Conn>)
  {
    if sockets == [] then []
    else
      var last := sockets[|sockets| - 1];
      Dead(sockets[..|sockets| - 1], clients) + (if last !in clients || !clients[last].isAlive then [last] else [])
  }

  /** One more socket of the heartbeat's iteration adds its own ping or
      termination and nothing else. */
  lemma SweepStep(sockets: seq<Conn>, i: nat, clients: map<Conn, ClientRec>)
    requires i < |sockets|
    ensures Pings(sockets[..i + 1], clients)
         == Pings(sockets[..i], clients)
            + (if sockets[i] in clients && clients[sockets[i]].isAlive then [(sockets[i], Ping)] else [])
    ensures Dead(sockets[..i + 1], clients)
         == Dead(sockets[..i], clients) + (if sockets[i] !in clients || !clients[sockets[i]].isAlive then [sockets[i]] else [])
  {
    assert sockets[..i + 1][..i] == sockets[..i];
  }

  /** A tick terminates exactly the connections whose client did not answer the
      previous ping, and pings exactly the others. */
  lemma {:induction false} SweepPartition(sockets: seq<Conn>, clients: map<Conn, ClientRec>, w: Conn, m: OutMsg)
    ensures w in Dead(sockets, clients) <==> w in sockets && (w !in clients || !clients[w].isAlive)
    ensures (w, m) in Pings(sockets, clients) <==> w in sockets && w in clients && clients[w].isAlive && m == Ping
  {
    if sockets != [] {
      var init := sockets[..|sockets| - 1];
      assert sockets == init + [sockets[|sockets| - 1]];
      SweepPartition(init, clients, w, m);
    }
  }

  /** Every connection of a tick is either pinged or terminated, never both. */
  lemma {:induction false} DeadPingsCount(sockets: seq<Conn>, clients: map<Conn, ClientRec>)
    ensures |Dead(sockets, clients)| + |Pings(sockets, clients)| == |sockets|
  {
    if sockets != [] {
      DeadPingsCount(sockets[..|sockets| - 1], clients);
    }
  }

  lemma {:induction false} DeadDistinct(sockets: seq<Conn>, clients: map<Conn, ClientRec>)
    requires Distinct(sockets)
    ensures Distinct(Dead(sockets, clients))
  {
    if sockets != [] {
      var init := sockets[..|sockets| - 1];
      var last := sockets[|sockets| - 1];
      assert sockets == init + [last];
      DeadDistinct(init, clients);
      SweepPartition(init, clients, last, Ping);
    }
  }

  /** A client survives two ticks only by answering a ping in between: after a
      tick every surviving client is marked as not having answered, so a second
      tick with no pong in between terminates it. */
  lemma EvictedAfterSilentTick(c: ClientRec)
    ensures !SweepOne(c).isAlive
    ensures c.isAlive ==> SweepOne(c).open == c.open
    ensures !SweepOne(SweepOne(c)).open
  {
  }

  // ---------------------------------------------------------------- invariant

  /** `clientsByWs` and `clientsById` hold the same clients: each is keyed by
      the client's own socket or id, and each is the inverse of the other. */
  ghost predicate IndexesAgree(byWs: map<Conn, ClientRec>, byId: map<string, Conn>)
  {
    && (forall w | w in byWs :: byWs[w].id in byId && byId[byWs[w].id] == w)
    && (forall i | i in byId :: byId[i] in byWs && byWs[byId[i]].id == i)
  }

  /** `wss.clients` is the set of registered sockets. */
  ghost predicate SocketsTracked(sockets: seq<Conn>, byWs: map<Conn, ClientRec>)
  {
    Distinct(sockets) && forall w :: w in sockets <==> w in byWs
  }

  /** No room is empty, members are registered clients whose `roomId` names
      the room, and every client with a `roomId` is in that room. No room is
      named by the empty string, so neither is any client's `roomId`. */
  ghost predicate RoomsAgree(rooms: map<string, seq<Conn>>, byWs: map<Conn, ClientRec>)
  {
    && (forall r | r in rooms :: rooms[r] != [] && Distinct(rooms[r]))
    && (forall r, w | r in rooms && w in rooms[r] :: w in byWs && byWs[w].roomId == Some(r))
    && (forall w | w in byWs && byWs[w].roomId.Some? :: byWs[w].roomId.value in rooms && w in rooms[byWs[w].roomId.value])
    && "" !in rooms
  }

  /** Under the invariant a client's `roomId` is present exactly when it is
      truthy, so the handlers' presence tests agree with the source's
      truthiness tests. */
  lemma RoomIdsTruthy(rooms: map<string, seq<Conn>>, byWs: map<Conn, ClientRec>, w: Conn)
    requires RoomsAgree(rooms, byWs) && w in byWs
    ensures byWs[w].roomId.Some? ==> byWs[w].roomId.value != ""
  {
  }

  ghost predicate Consistent(sockets: seq<Conn>, byWs: map<Conn, ClientRec>, byId: map<string, Conn>,
                             rooms: map<string, seq<Conn>>)
  {
    SocketsTracked(sockets, byWs) && IndexesAgree(byWs, byId) && RoomsAgree(rooms, byWs)
  }

  /** A client is a member of at most one room. */
  lemma AtMostOneRoom(rooms: map<string, seq<Conn>>, byWs: map<Conn, ClientRec>, w: Conn, r1: string, r2: string)
    requires RoomsAgree(rooms, byWs)
    requires r1 in rooms && r2 in rooms && w in rooms[r1] && w in rooms[r2]
    ensures r1 == r2
  {
    assert byWs[w].roomId == Some(r1);
  }

  /** Two clients never share an id, so excluding a sender's id from a
      broadcast excludes exactly the sender. */
  lemma IdsUnique(byWs: map<Conn, ClientRec>, byId: map<string, Conn>, v: Conn, w: Conn)
    requires IndexesAgree(byWs, byId)
    requires v in byWs && w in byWs && byWs[v].id == byWs[w].id
    ensures v == w
  {
  }

  /** After a detach the client is in no room, every remaining room is
      non-empty and other clients keep their rooms. */
  lemma {:induction false} LeaveDetaches(rooms: map<string, seq<Conn>>, byWs: map<Conn, ClientRec>, w: Conn)
    requires RoomsAgree(rooms, byWs) && w in byWs
    ensures var left := Leave(rooms, w, byWs[w].roomId);
      && (forall r | r in left :: w !in left[r] && left[r] != [] && Distinct(left[r]))
      && (forall r, v | r in left && v in left[r] :: v in byWs && byWs[v].roomId == Some(r))
      && (forall v | v in byWs && v != w && byWs[v].roomId.Some? ::
            byWs[v].roomId.value in left && v in left[byWs[v].roomId.value])
      && left.Keys <= rooms.Keys
  {
    var from := byWs[w].roomId;
    var left := Leave(rooms, w, from);
    if from.Some? && from.value in rooms {
      WithoutKeepsOthers(rooms[from.value], w);
    }
    forall r | r in left
      ensures w !in left[r] && left[r] != [] && Distinct(left[r])
    {
      if from.Some? && r == from.value {
      } else {
        assert left[r] == rooms[r];
      }
    }
  }

  /** `close` keeps the invariant: both indexes lose the client, `wss.clients`
      loses the socket and the room table loses the member. */
  lemma {:induction false} CloseKeepsConsistent(sockets: seq<Conn>, byWs: map<Conn, ClientRec>, byId: map<string, Conn>,
                                                rooms: map<string, seq<Conn>>, w: Conn)
    requires Consistent(sockets, byWs, byId, rooms) && w in byWs
    ensures Consistent(Without(sockets, w), byWs - {w}, byId - {byWs[w].id}, Leave(rooms, w, byWs[w].roomId))
  {
    RemoveKeepsIndexes(byWs, byId, w);
    LeaveDetaches(rooms, byWs, w);
    WithoutKeepsOthers(sockets, w);
    var left := Leave(rooms, w, byWs[w].roomId);
    var byWs' := byWs - {w};
    assert forall r, v | r in left && v in left[r] :: v in byWs';
  }

  lemma RemoveKeepsIndexes(byWs: map<Conn, ClientRec>, byId: map<string, Conn>, w: Conn)
    requires IndexesAgree(byWs, byId) && w in byWs
    ensures IndexesAgree(byWs - {w}, byId - {byWs[w].id})
  {
    var byWs' := byWs - {w};
    var byId' := byId - {byWs[w].id};
    forall i | i in byId'
      ensures byId'[i] in byWs' && byWs'[byId'[i]].id == i
    {
      assert byId[i] != w;
    }
  }

  /** Accepting a connection keeps the invariant: the new socket joins
      `wss.clients` and both indexes, and its client is in no room. */
  lemma ConnectKeepsConsistent(sockets: seq<Conn>, byWs: map<Conn, ClientRec>, byId: map<string, Conn>,
                               rooms: map<string, seq<Conn>>, w: Conn, c: ClientRec)
    requires Consistent(sockets, byWs, byId, rooms)
    requires w !in byWs && c.id !in byId && c.roomId.None?
    ensures Consistent(sockets + [w], byWs[w := c], byId[c.id := w], rooms)
  {
    assert w !in sockets;
  }

  /** A valid `join_room` keeps the invariant: the client leaves its old room
      and becomes the last member of the target room, whose name it records. */
  lemma {:induction false} JoinKeepsConsistent(sockets: seq<Conn>, byWs: map<Conn, ClientRec>, byId: map<string, Conn>,
                                               rooms: map<string, seq<Conn>>, w: Conn, r: string)
    requires Consistent(sockets, byWs, byId, rooms) && w in byWs && r != ""
    ensures Consistent(sockets, byWs[w := byWs[w].(roomId := Some(r))], byId,
                       Enter(Leave(rooms, w, byWs[w].roomId), w, r))
  {
    LeaveDetaches(rooms, byWs, w);
    var left := Leave(rooms, w, byWs[w].roomId);
    var byWs' := byWs[w := byWs[w].(roomId := Some(r))];
    var rooms' := Enter(left, w, r);
    assert w !in MembersOf(left, r);
    forall v | v in byWs' && byWs'[v].roomId.Some?
      ensures byWs'[v].roomId.value in rooms' && v in rooms'[byWs'[v].roomId.value]
    {
      if v != w {
        assert byWs[v].roomId.value in left;
      }
    }
    forall i | i in byId
      ensures byId[i] in byWs' && byWs'[byId[i]].id == i
    {
    }
  }

  /** After a valid join the client is a member of exactly the target room. */
  lemma {:induction false} JoinedExactlyOneRoom(rooms: map<string, seq<Conn>>, byWs: map<Conn, ClientRec>, w: Conn, r: string)
    requires RoomsAgree(rooms, byWs) && w in byWs
    ensures var rooms' := Enter(Leave(rooms, w, byWs[w].roomId), w, r);
      && r in rooms' && w in rooms'[r]
      && (forall x | x in rooms' && x != r :: w !in rooms'[x])
      && w !in MembersOf(Leave(rooms, w, byWs[w].roomId), r)
  {
    LeaveDetaches(rooms, byWs, w);
  }

  /** What the two halves of a valid `join_room` need of the state: the old
      room's other members are registered, and once the record names `r` the
      client is not yet among `r`'s members, all of which are registered. */
  lemma {:induction false} JoinSteps(rooms: map<string, seq<Conn>>, byWs: map<Conn, ClientRec>, w: Conn, r: string)
    requires RoomsAgree(rooms, byWs) && w in byWs
    ensures var from := byWs[w].roomId;
      from.Some? && from.value in rooms ==> forall v | v in rooms[from.value] && v != w :: v in byWs
    ensures var left := Leave(rooms, w, byWs[w].roomId);
      var byWs' := byWs[w := byWs[w].(roomId := Some(r))];
      && w !in MembersOf(left, r)
      && forall v | v in MembersOf(left, r) :: v in byWs'
  {
    LeaveDetaches(rooms, byWs, w);
  }

  /** The client's old room loses it and is deleted exactly when it had no
      other member; a `user_left` notice goes out exactly when it survives. */
  lemma {:induction false} LeaveDeletesEmptyRoom(rooms: map<string, seq<Conn>>, byWs: map<Conn, ClientRec>, w: Conn)
    requires RoomsAgree(rooms, byWs) && w in byWs && byWs[w].roomId.Some?
    ensures var prev := byWs[w].roomId.value;
      var left := Leave(rooms, w, byWs[w].roomId);
      && (prev !in left <==> rooms[prev] == [w])
      && (prev in left ==> left[prev] == Without(rooms[prev], w))
      && (LeaveNotices(rooms, byWs, w, byWs[w].roomId, byWs[w].id) == [] <== rooms[prev] == [w])
  {
    var prev := byWs[w].roomId.value;
    var rest := Without(rooms[prev], w);
    WithoutKeepsOthers(rooms[prev], w);
    if |rest| == 0 {
      assert forall v | v in rooms[prev] :: v == w;
      assert rooms[prev][0] == w;
      assert rooms[prev] == [w];
    } else {
      assert rooms[prev] != [w];
    }
  }

  /** Changing only the liveness or socket state of records keeps the invariant. */
  lemma RecordsKeepConsistent(sockets: seq<Conn>, byWs: map<Conn, ClientRec>, byWs': map<Conn, ClientRec>,
                              byId: map<string, Conn>, rooms: map<string, seq<Conn>>)
    requires Consistent(sockets, byWs, byId, rooms)
    requires byWs'.Keys == byWs.Keys
    requires forall v | v in byWs :: byWs'[v].id == byWs[v].id && byWs'[v].roomId == byWs[v].roomId
    ensures Consistent(sockets, byWs', byId, rooms)
  {
  }

  /** A detach announces nothing but the departure, and not to the one leaving. */
  lemma LeaveNoticesAreUserLeft(rooms: map<string, seq<Conn>>, clients: map<Conn, ClientRec>, w: Conn, from: Option<string>,
                                id: string)
    ensures forall e | e in LeaveNotices(rooms, clients, w, from, id) :: e.1 == UserLeft(id) && e.0 != w
  {
    if from.Some? && from.value in rooms {
      WithoutKeepsOthers(rooms[from.value], w);
      forall e | e in LeaveNotices(rooms, clients, w, from, id)
        ensures e.1 == UserLeft(id) && e.0 != w
      {
        DeliveriesExactly(Without(rooms[from.value], w), clients, UserLeft(id), None, e.0, e.1);
      }
    }
  }
}
