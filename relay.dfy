/** The connection, message, close and heartbeat handlers of
    signaling-server/server.js over the module-level maps `clientsByWs`,
    `clientsById` and `rooms`. Every `ws.send` and `ws.ping` is appended to
    `outbox` as (socket, frame). */
module Relay {
  import opened Common
  import opened RelaySpec

  class SignalingServer {
    /** `wss.clients`: the sockets of accepted connections, in accept order. */
    var sockets: seq<Conn>
    var clientsByWs: map<Conn, ClientRec>
    /** id to the socket whose record carries that id. */
    var clientsById: map<string, Conn>
    /** room id to its members, in insertion order. */
    var rooms: map<string, seq<Conn>>
    var outbox: seq<(Conn, OutMsg)>

    ghost predicate Valid()
      reads this
    {
      Consistent(sockets, clientsByWs, clientsById, rooms)
    }

    constructor ()
      ensures sockets == [] && clientsByWs == map[] && clientsById == map[] && rooms == map[] && outbox == []
      ensures Valid()
    {
      sockets, clientsByWs, clientsById, rooms, outbox := [], map[], map[], map[], [];
    }

    /** Nothing but the outbox changed. */
    twostate predicate OnlySent()
      reads this
    {
      sockets == old(sockets) && clientsByWs == old(clientsByWs)
      && clientsById == old(clientsById) && rooms == old(rooms)
    }

    /** Whether a forward to this `targetId` finds an open connection. */
    predicate Reachable(target: Json)
      reads this
    {
      target.JStr? && target.s in clientsById && clientsById[target.s] in clientsByWs
      && clientsByWs[clientsById[target.s]].open
    }

    // ------------------------------------------------------------ connection

    /** A connection attempt. `w` is the new socket; `id`, `name` and `avatar`
        are what `uuidv4` and the random pools produce. */
    method Connect(w: Conn, origin: Option<string>, host: Option<string>, id: string, name: string, avatar: string)
      returns (accepted: bool)
      requires Valid()
      requires w !in clientsByWs && id !in clientsById
      modifies this
      ensures accepted == Admit(origin, host)
      ensures accepted ==>
        && sockets == old(sockets) + [w]
        && clientsByWs == old(clientsByWs)[w := ClientRec(id, name, avatar, None, true, true)]
        && clientsById == old(clientsById)[id := w]
        && rooms == old(rooms) && outbox == old(outbox)
      ensures !accepted ==> OnlySent() && outbox == old(outbox)
      ensures Valid()
    {
      if !Admit(origin, host) {
        return false;
      }
      var client := ClientRec(id, name, avatar, None, true, true);
      ConnectKeepsConsistent(sockets, clientsByWs, clientsById, rooms, w, client);
      sockets := sockets + [w];
      clientsByWs := clientsByWs[w := client];
      clientsById := clientsById[id := w];
      return true;
    }

    /** The `pong` handler: the client answered the last ping. */
    method Pong(w: Conn)
      requires Valid()
      modifies this
      ensures sockets == old(sockets) && clientsById == old(clientsById) && rooms == old(rooms) && outbox == old(outbox)
      ensures clientsByWs == if w in old(clientsByWs) then old(clientsByWs)[w := old(clientsByWs)[w].(isAlive := true)]
                             else old(clientsByWs)
      ensures Valid()
    {
      if w in clientsByWs {
        var before := clientsByWs;
        clientsByWs := clientsByWs[w := clientsByWs[w].(isAlive := true)];
        RecordsKeepConsistent(sockets, before, clientsByWs, clientsById, rooms);
      }
    }

    /** The transport leaves the OPEN state (a closing handshake or a network
        failure) ahead of the `close` event. */
    method SocketClosing(w: Conn)
      requires Valid()
      modifies this
      ensures sockets == old(sockets) && clientsById == old(clientsById) && rooms == old(rooms) && outbox == old(outbox)
      ensures clientsByWs == if w in old(clientsByWs) then old(clientsByWs)[w := Terminated(old(clientsByWs)[w])]
                             else old(clientsByWs)
      ensures Valid()
    {
      if w in clientsByWs {
        var before := clientsByWs;
        clientsByWs := clientsByWs[w := Terminated(clientsByWs[w])];
        RecordsKeepConsistent(sockets, before, clientsByWs, clientsById, rooms);
      }
    }

    /** The `close` handler: both indexes forget the client, and its room loses
        it (deleted when empty, otherwise told `user_left`). */
    method Close(w: Conn)
      requires Valid()
      modifies this
      ensures w !in old(clientsByWs) ==> OnlySent() && outbox == old(outbox)
      ensures w in old(clientsByWs) ==>
        var c := old(clientsByWs)[w];
        && sockets == Without(old(sockets), w)
        && clientsByWs == old(clientsByWs) - {w}
        && clientsById == old(clientsById) - {c.id}
        && rooms == Leave(old(rooms), w, c.roomId)
        && outbox == old(outbox) + LeaveNotices(old(rooms), clientsByWs, w, c.roomId, c.id)
      ensures Valid()
    {
      if w !in clientsByWs {
        return;
      }
      var c := clientsByWs[w];
      CloseKeepsConsistent(sockets, clientsByWs, clientsById, rooms, w);
      sockets := Without(sockets, w);
      clientsByWs := clientsByWs - {w};
      clientsById := clientsById - {c.id};
      assert Consistent(sockets, clientsByWs, clientsById, Leave(old(rooms), w, c.roomId));
      Detach(w, c.roomId, c.id);
    }

    /** Removing `w` from the room `from` names, shared by `join_room` and
        `close`: an emptied room is deleted, otherwise its remaining members
        are told that `id` left. */
    method Detach(w: Conn, from: Option<string>, id: string)
      requires from.Some? && from.value in rooms ==> forall v | v in rooms[from.value] && v != w :: v in clientsByWs
      modifies this`rooms, this`outbox
      ensures rooms == Leave(old(rooms), w, from)
      ensures outbox == old(outbox) + LeaveNotices(old(rooms), clientsByWs, w, from, id)
    {
      if from.Some? && from.value in rooms {
        var r := from.value;
        var rest := Without(rooms[r], w);
        WithoutKeepsOthers(rooms[r], w);
        if |rest| == 0 {
          rooms := rooms - {r};
        } else {
          rooms := rooms[r := rest];
          BroadcastToRoom(r, UserLeft(id), None);
        }
      }
    }

    /** `broadcastToRoom`: every open member of the room whose id differs from
        `exclude` is sent `msg`, in the room's order. */
    method BroadcastToRoom(roomId: string, msg: OutMsg, exclude: Option<string>)
      requires roomId in rooms ==> forall v | v in rooms[roomId] :: v in clientsByWs
      modifies this`outbox
      ensures outbox == old(outbox)
        + if roomId in rooms then Deliveries(rooms[roomId], clientsByWs, msg, exclude) else []
    {
      if roomId in rooms {
        var members := rooms[roomId];
        var i := 0;
        while i < |members|
          invariant 0 <= i <= |members|
          invariant outbox == old(outbox) + Deliveries(members[..i], clientsByWs, msg, exclude)
        {
          var client := clientsByWs[members[i]];
          if (exclude.None? || client.id != exclude.value) && client.open {
            outbox := outbox + [(members[i], msg)];
          }
          assert members[..i + 1][..i] == members[..i];
          i := i + 1;
        }
        assert members[..i] == members;
      }
    }

    // ------------------------------------------------------------ messages

    /** The effect of a `join_room` frame whose `payload.roomId` is `roomId`. */
    twostate predicate Joined(w: Conn, roomId: Option<Json>)
      reads this
    {
      old(Valid()) && w in old(clientsByWs)
      && sockets == old(sockets) && clientsById == old(clientsById)
      && if !NonEmptyString(roomId) then
           clientsByWs == old(clientsByWs) && rooms == old(rooms)
           && outbox == old(outbox) + [(w, Error(InvalidRoomId))]
         else
           var r := roomId.value.s;
           var c := old(clientsByWs)[w];
           var left := Leave(old(rooms), w, c.roomId);
           JoinSteps(old(rooms), old(clientsByWs), w, r);
           && clientsByWs == old(clientsByWs)[w := c.(roomId := Some(r))]
           && rooms == Enter(left, w, r)
           && outbox == old(outbox)
                + LeaveNotices(old(rooms), old(clientsByWs), w, c.roomId, c.id)
                + [(w, ExistingUsers(UsersOf(MembersOf(left, r), clientsByWs))),
                   (w, RoomJoined(r, c.id, c.id, c.name, c.avatar))]
                + Deliveries(rooms[r], clientsByWs, UserJoined(Info(c)), Some(c.id))
    }

    /** The effect of a `broadcast_message` frame whose `payload.data` is `data`. */
    twostate predicate Broadcasted(w: Conn, data: Option<Json>)
      reads this
    {
      old(Valid()) && w in old(clientsByWs) && OnlySent()
      && var c := clientsByWs[w];
         if c.roomId.None? then outbox == old(outbox) + [(w, Error(NotInRoom))]
         else if !Truthy(data) then outbox == old(outbox) + [(w, Error(NoData))]
         else outbox == old(outbox)
                + Deliveries(rooms[c.roomId.value], clientsByWs, RoomMessage(c.id, c.name, data.value), Some(c.id))
    }

    /** The effect of a point-to-point frame of kind `kind` and payload `payload`. */
    twostate predicate Forwarded(w: Conn, kind: string, payload: Option<Json>)
      reads this
    {
      old(Valid()) && w in old(clientsByWs) && OnlySent()
      && var target := Prop(payload, "targetId");
         if !Truthy(target) then outbox == old(outbox)
         else if Reachable(target.value) then
           outbox == old(outbox)
             + [(clientsById[target.value.s], OutMsg.Forwarded(kind, Stamp(payload.value.fields, clientsByWs[w].id)))]
         else outbox == old(outbox) + [(w, Error(Unreachable(target.value)))]
    }

    method JoinRoom(w: Conn, roomId: Option<Json>)
      requires Valid() && w in clientsByWs
      modifies this
      ensures Joined(w, roomId)
      ensures Valid()
    {
      if !NonEmptyString(roomId) {
        outbox := outbox + [(w, Error(InvalidRoomId))];
        return;
      }
      var r := roomId.value.s;
      var c := clientsByWs[w];
      JoinKeepsConsistent(sockets, clientsByWs, clientsById, rooms, w, r);
      JoinedExactlyOneRoom(rooms, clientsByWs, w, r);
      // leave the previous room first
      Detach(w, c.roomId, c.id);
      clientsByWs := clientsByWs[w := c.(roomId := Some(r))];
      AddToRoom(w, r);
      assert rooms == Enter(Leave(old(rooms), w, c.roomId), w, r);
    }

    /** The second half of `join_room`, once the client's record names room
        `r`: the room is created if missing, the client is sent the members
        already there, joins as the last member, is sent `room_joined`, and
        every other open member is sent `user_joined`. */
    method AddToRoom(w: Conn, r: string)
      requires w in clientsByWs && w !in MembersOf(rooms, r)
      requires forall v | v in MembersOf(rooms, r) :: v in clientsByWs
      modifies this`rooms, this`outbox
      ensures rooms == Enter(old(rooms), w, r)
      ensures var c := clientsByWs[w];
        outbox == old(outbox)
          + [(w, ExistingUsers(UsersOf(MembersOf(old(rooms), r), clientsByWs))),
             (w, RoomJoined(r, c.id, c.id, c.name, c.avatar))]
          + Deliveries(rooms[r], clientsByWs, UserJoined(Info(c)), Some(c.id))
    {
      var c := clientsByWs[w];
      if r !in rooms {
        rooms := rooms[r := []];
      }
      var before := rooms[r];
      assert before == MembersOf(old(rooms), r);
      outbox := outbox + [(w, ExistingUsers(UsersOf(before, clientsByWs)))];
      rooms := rooms[r := before + [w]];
      outbox := outbox + [(w, RoomJoined(r, c.id, c.id, c.name, c.avatar))];
      BroadcastToRoom(r, UserJoined(Info(c)), Some(c.id));
    }

    method BroadcastMessage(w: Conn, data: Option<Json>)
      requires Valid() && w in clientsByWs
      modifies this
      ensures Broadcasted(w, data)
      ensures Valid()
    {
      var c := clientsByWs[w];
      if c.roomId.None? {
        outbox := outbox + [(w, Error(NotInRoom))];
        return;
      }
      if !Truthy(data) {
        outbox := outbox + [(w, Error(NoData))];
        return;
      }
      BroadcastToRoom(c.roomId.value, RoomMessage(c.id, c.name, data.value), Some(c.id));
    }

    /** `forwardMessage`. */
    method ForwardMessage(w: Conn, kind: string, payload: Option<Json>)
      requires Valid() && w in clientsByWs
      modifies this
      ensures Forwarded(w, kind, payload)
      ensures Valid()
    {
      var target := Prop(payload, "targetId");
      if !Truthy(target) {
        return;
      }
      if Reachable(target.value) {
        var stamped := Stamp(payload.value.fields, clientsByWs[w].id);
        outbox := outbox + [(clientsById[target.value.s], OutMsg.Forwarded(kind, stamped))];
      } else {
        outbox := outbox + [(w, Error(Unreachable(target.value)))];
      }
    }

    /** The effect of the `message` handler on a frame from `w`. */
    twostate predicate Handled(w: Conn, frame: Frame)
      reads this
    {
      && (frame.Unparsable? ==> OnlySent() && outbox == old(outbox) + [(w, Error(InvalidJson))])
      && (frame.Parsed? && w !in old(clientsByWs) ==> OnlySent() && outbox == old(outbox))
      && (frame.Parsed? && w in old(clientsByWs) ==>
            var kind := TypeField(frame.message);
            var payload := Prop(Some(frame.message), "payload");
            match RouteOf(kind)
            case Join => Joined(w, Prop(payload, "roomId"))
            case Broadcast => Broadcasted(w, Prop(payload, "data"))
            case Forward(k) => Forwarded(w, k, payload)
            case Unknown => OnlySent() && outbox == old(outbox) + [(w, Error(UnknownType(kind)))])
    }

    /** The `message` handler, with a frame of `null` read as a frame without
        a type. */
    method Message(w: Conn, frame: Frame)
      requires Valid()
      modifies this
      ensures Handled(w, frame)
      ensures frame == Parsed(JNull) && w in old(clientsByWs) ==>
        OnlySent() && outbox == old(outbox) + [(w, Error(UnknownType(None)))]
      ensures Valid()
    {
      if frame.Unparsable? {
        outbox := outbox + [(w, Error(InvalidJson))];
        return;
      }
      if w !in clientsByWs {
        return;
      }
      var kind := TypeField(frame.message);
      var payload := Prop(Some(frame.message), "payload");
      match RouteOf(kind)
      case Join =>
        JoinRoom(w, Prop(payload, "roomId"));
      case Broadcast =>
        BroadcastMessage(w, Prop(payload, "data"));
      case Forward(k) =>
        ForwardMessage(w, k, payload);
      case Unknown =>
        outbox := outbox + [(w, Error(UnknownType(kind)))];
    }

    /** The `message` handler as written: a frame of `null` from a registered
        client throws out of the handler before anything is sent or changed;
        `threw` reports that. Every other frame is handled as by `Message`. */
    method MessageAsWritten(w: Conn, frame: Frame) returns (threw: bool)
      requires Valid()
      modifies this
      ensures threw <==> frame.Parsed? && w in old(clientsByWs) && DispatchAsWritten(frame.message).Throws?
      ensures threw ==> OnlySent() && outbox == old(outbox)
      ensures !threw ==> Handled(w, frame)
      ensures Valid()
    {
      if frame.Parsed? && w in clientsByWs && frame.message.JNull? {
        return true;
      }
      threw := false;
      Message(w, frame);
    }

    // ------------------------------------------------------------ heartbeat

    /** The `wss.clients.forEach` loop of the heartbeat, in the order of
        `wss.clients`: a connection without a record or whose client did not
        answer the previous ping is terminated, every other client is marked
        and pinged. */
    method Sweep() returns (dead: seq<Conn>)
      requires Distinct(sockets)
      modifies this`clientsByWs, this`outbox
      ensures dead == Dead(sockets, old(clientsByWs))
      ensures outbox == old(outbox) + Pings(sockets, old(clientsByWs))
      ensures forall v :: v in clientsByWs <==> v in old(clientsByWs)
      ensures forall v | v in clientsByWs ::
                clientsByWs[v] == if v in sockets then SweepOne(old(clientsByWs)[v]) else old(clientsByWs)[v]
    {
      ghost var before := clientsByWs;
      dead := [];
      var i := 0;
      while i < |sockets|
        invariant 0 <= i <= |sockets|
        invariant forall v :: v in clientsByWs <==> v in before
        invariant forall v | v in clientsByWs ::
                    clientsByWs[v] == if v in sockets[..i] then SweepOne(before[v]) else before[v]
        invariant dead == Dead(sockets[..i], before)
        invariant outbox == old(outbox) + Pings(sockets[..i], before)
      {
        var w := sockets[i];
        assert w !in sockets[..i];
        SweepStep(sockets, i, before);
        if w !in clientsByWs || !clientsByWs[w].isAlive {
          dead := dead + [w];
          if w in clientsByWs {
            clientsByWs := clientsByWs[w := Terminated(clientsByWs[w])];
          }
        } else {
          clientsByWs := clientsByWs[w := Suspect(clientsByWs[w])];
          outbox := outbox + [(w, Ping)];
        }
        i := i + 1;
      }
      assert sockets[..i] == sockets;
    }

    /** The heartbeat interval's callback. Every connection whose client did
        not answer the previous ping is terminated (its `close` event then
        arrives as a separate `Close`); every other client is marked as not
        having answered and is pinged. */
    method Heartbeat() returns (terminated: seq<Conn>)
      requires Valid()
      modifies this
      ensures terminated == Dead(old(sockets), old(clientsByWs))
      ensures outbox == old(outbox) + Pings(old(sockets), old(clientsByWs))
      ensures forall v :: v in clientsByWs <==> v in old(clientsByWs)
      ensures forall v | v in clientsByWs :: clientsByWs[v] == SweepOne(old(clientsByWs)[v])
      ensures sockets == old(sockets) && clientsById == old(clientsById) && rooms == old(rooms)
      ensures Valid()
    {
      ghost var before := clientsByWs;
      terminated := Sweep();
      RecordsKeepConsistent(sockets, before, clientsByWs, clientsById, rooms);
    }
  }
}
