/** app/composables/useWebSocketSignaling.ts: a browser's connection to the
    relay. It opens the socket, joins the room once the socket is open, keeps
    a duplicate-free list of the room's users from the relay's frames, and
    resets everything when the socket closes. The socket itself is outside
    the model: its events are the methods `OnOpen`, `OnClose`, `OnError` and
    `HandleSocketMessage`, and what is written to it is recorded in `sent`. */
module SignalingClient {
  import opened Common
  import opened ClientModel

  /** `WebSocket.readyState`. */
  datatype ReadyState = Connecting | Open | Closing | Closed

  /** A text frame as the socket delivers it: not JSON, or the parsed value. */
  datatype Inbound = Garbled | Parsed(msg: ServerMsg)

  /** The entry for a user the relay announced, if it names an id, a name and
      an avatar. */
  function Announced(u: User): Option<User>
  {
    if Present(u.id) && Present(u.name) && Present(u.avatar) then Some(User(u.id, u.name, u.avatar, None)) else None
  }

  /** Append `u` unless a user with its id is already listed. */
  function AddIfAbsent(users: seq<User>, u: User): (r: seq<User>)
    ensures HasId(r, u.id)
    ensures |users| <= |r| <= |users| + 1 && r[..|users|] == users
    ensures |r| == |users| + 1 ==> r[|users|] == u
    ensures forall v | v in r :: v in users || v == u
    ensures UniqueIds(users) ==> UniqueIds(r)
  {
    if FindIndex(users, u.id) >= 0 then users
    else
      assert (users + [u])[|users|] == u;
      users + [u]
  }

  /** The `forEach` over `existing_users`, each user added unless listed:
      the old entries stay in front, every received id is listed afterwards,
      and whatever was appended was received. */
  function AddEachIfAbsent(users: seq<User>, us: seq<User>): (r: seq<User>)
    ensures UniqueIds(users) ==> UniqueIds(r)
    ensures |users| <= |r| <= |users| + |us| && r[..|users|] == users
    ensures forall k | 0 <= k < |us| :: HasId(r, us[k].id)
    ensures forall v | v in r[|users|..] :: v in us
    decreases |us|
  {
    if us == [] then users
    else
      var before := AddEachIfAbsent(users, us[..|us| - 1]);
      var r := AddIfAbsent(before, us[|us| - 1]);
      assert forall k | 0 <= k < |us| - 1 :: HasId(r, us[k].id) by {
        forall k | 0 <= k < |us| - 1 ensures HasId(r, us[k].id) {
          assert us[k] == us[..|us| - 1][k];
          var j :| 0 <= j < |before| && before[j].id == us[k].id;
          assert r[..|before|][j] == before[j];
        }
      }
      assert r[..|users|] == r[..|before|][..|users|];
      assert forall v | v in r[|users|..] :: v in us by {
        forall v | v in r[|users|..] ensures v in us {
          var i :| |users| <= i < |r| && r[i] == v;
          if i < |before| {
            assert r[..|before|][i] == before[i];
            assert before[i] in before[|users|..];
            assert v in us[..|us| - 1];
          }
        }
      }
      r
  }

  class Signaling {
    /** The room id the composable was created for, if it is a string. */
    const roomId: Option<string>
    /** `ws.value`: no socket, or the readyState of the open one. */
    var socket: Option<ReadyState>
    var messages: seq<LogEntry>
    var usersInRoom: seq<User>
    var myClientId: Option<string>
    var myName: Option<string>
    var myAvatar: Option<string>
    var isConnected: bool
    /** The frames written to the socket, as (type, payload). */
    var sent: seq<(string, Json)>

    /** No user is listed twice, and the connected flag is set exactly while
        a socket is held. */
    ghost predicate Valid()
      reads this
    {
      UniqueIds(usersInRoom) && (isConnected <==> socket.Some?)
    }

    constructor (roomId: Option<string>)
      ensures this.roomId == roomId && socket == None && messages == [] && usersInRoom == []
      ensures myClientId == None && myName == None && myAvatar == None && !isConnected && sent == []
      ensures Valid()
    {
      this.roomId := roomId;
      socket, messages, usersInRoom := None, [], [];
      myClientId, myName, myAvatar := None, None, None;
      isConnected, sent := false, [];
    }

    /** `handleSocketMessage`. A frame that does not parse, or that parses to
        `null` (reading its type throws), adds an `error` entry; a parsed
        frame is logged first. */
    method HandleSocketMessage(frame: Inbound)
      requires Valid()
      modifies this`messages, this`usersInRoom, this`myClientId, this`myName, this`myAvatar
      ensures frame.Garbled? ==> messages == old(messages) + [Error]
      ensures frame == Parsed(NullMessage) ==> messages == old(messages) + [Received(NullMessage), Error]
      ensures frame.Parsed? && !frame.msg.NullMessage? ==> messages == old(messages) + [Received(frame.msg)]
      ensures frame.Parsed? && frame.msg.RoomJoined? ==>
        && myClientId == frame.msg.clientId && myName == frame.msg.user.name && myAvatar == frame.msg.user.avatar
        && usersInRoom == if Present(myClientId) && Present(myName) && Present(myAvatar)
                          then AddIfAbsent(old(usersInRoom), User(myClientId, myName, myAvatar, None))
                          else old(usersInRoom)
      ensures !(frame.Parsed? && frame.msg.RoomJoined?) ==>
        myClientId == old(myClientId) && myName == old(myName) && myAvatar == old(myAvatar)
      ensures frame.Parsed? && frame.msg.ExistingUsers? ==>
        usersInRoom == if frame.msg.users.Some? then AddEachIfAbsent(old(usersInRoom), frame.msg.users.value)
                       else old(usersInRoom)
      ensures frame.Parsed? && frame.msg.UserJoined? ==>
        var u := Announced(frame.msg.user);
        usersInRoom == if u.Some? && u.value.id != old(myClientId) then AddIfAbsent(old(usersInRoom), u.value)
                       else old(usersInRoom)
      ensures frame.Parsed? && frame.msg.UserLeft? ==>
        usersInRoom == if Present(frame.msg.leftId) then WithoutId(old(usersInRoom), frame.msg.leftId)
                       else old(usersInRoom)
      ensures !(frame.Parsed? && (frame.msg.RoomJoined? || frame.msg.ExistingUsers? || frame.msg.UserJoined? || frame.msg.UserLeft?)) ==>
        usersInRoom == old(usersInRoom)
      ensures Valid()
    {
      if frame.Garbled? {
        messages := messages + [Error];
        return;
      }
      var m := frame.msg;
      messages := messages + [Received(m)];
      match m
      case NullMessage =>
        messages := messages + [Error];
      case RoomJoined(clientId, user) =>
        myClientId := clientId;
        myName := user.name;
        myAvatar := user.avatar;
        if Present(myClientId) && Present(myName) && Present(myAvatar) {
          var selfUser := User(myClientId, myName, myAvatar, None);
          if FindIndex(usersInRoom, selfUser.id) < 0 {
            usersInRoom := usersInRoom + [selfUser];
          }
        }
      case ExistingUsers(users) =>
        if users.Some? {
          AddExisting(users.value);
        }
      case UserJoined(payload) =>
        if Present(payload.id) && Present(payload.name) && Present(payload.avatar) {
          var userToAdd := User(payload.id, payload.name, payload.avatar, None);
          if userToAdd.id != myClientId && FindIndex(usersInRoom, userToAdd.id) < 0 {
            usersInRoom := usersInRoom + [userToAdd];
          }
        }
      case UserLeft(leftId) =>
        if Present(leftId) {
          usersInRoom := WithoutId(usersInRoom, leftId);
        }
      case _ =>
    }

    /** The loop over `existing_users`. */
    method AddExisting(users: seq<User>)
      modifies this`usersInRoom
      ensures usersInRoom == AddEachIfAbsent(old(usersInRoom), users)
    {
      var i := 0;
      while i < |users|
        invariant 0 <= i <= |users|
        invariant usersInRoom == AddEachIfAbsent(old(usersInRoom), users[..i])
      {
        var newUser := users[i];
        if FindIndex(usersInRoom, newUser.id) < 0 {
          usersInRoom := usersInRoom + [newUser];
        }
        assert users[..i + 1][..i] == users[..i];
        i := i + 1;
      }
      assert users[..i] == users;
    }

    /** `connect`: an invalid room id is only reported; an open socket is
        kept; otherwise a new socket is created, whose events follow. */
    method Connect() returns (created: bool)
      requires Valid()
      modifies this`messages
      ensures created <==> Present(roomId) && socket != Some(Open)
      ensures !Present(roomId) ==> messages == old(messages) + [LocalError]
      ensures Present(roomId) && socket == Some(Open) ==> messages == old(messages)
      ensures created ==> messages == old(messages) + [LocalInfo]
      ensures Valid()
    {
      if !Present(roomId) {
        messages := messages + [LocalError];
        return false;
      }
      if socket == Some(Open) {
        return false;
      }
      messages := messages + [LocalInfo];
      return true;
    }

    /** The socket's `onopen`: connected, and the `join_room` frame for the
        room goes out. */
    method OnOpen()
      requires Valid()
      requires Present(roomId)
      modifies this`messages, this`isConnected, this`socket, this`sent
      ensures isConnected && socket == Some(Open)
      ensures sent == old(sent) + [("join_room", JObj(map["roomId" := JStr(roomId.value)]))]
      ensures messages == old(messages) + [LocalInfo, Sent("join_room")]
      ensures Valid()
    {
      messages := messages + [LocalInfo];
      isConnected := true;
      socket := Some(Open);
      sent := sent + [("join_room", JObj(map["roomId" := JStr(roomId.value)]))];
      messages := messages + [Sent("join_room")];
    }

    /** The socket's `onerror`: logged only. */
    method OnError()
      requires Valid()
      modifies this`messages
      ensures messages == old(messages) + [Error]
      ensures Valid()
    {
      messages := messages + [Error];
    }

    /** The socket's `onclose`: disconnected, no own identity, no users. */
    method OnClose()
      requires Valid()
      modifies this`messages, this`isConnected, this`socket, this`myClientId, this`myName, this`myAvatar, this`usersInRoom
      ensures messages == old(messages) + [LocalInfo]
      ensures !isConnected && socket == None
      ensures myClientId == None && myName == None && myAvatar == None && usersInRoom == []
      ensures Valid()
    {
      messages := messages + [LocalInfo];
      isConnected := false;
      socket := None;
      myClientId := None;
      myName := None;
      myAvatar := None;
      usersInRoom := [];
    }

    /** `sendMessage`: written and logged when the socket is open, otherwise
        a local error; the result says which. */
    method SendMessage(kind: string, payload: Json) returns (ok: bool)
      requires Valid()
      modifies this`messages, this`sent
      ensures ok <==> socket == Some(Open)
      ensures ok ==> sent == old(sent) + [(kind, payload)] && messages == old(messages) + [Sent(kind)]
      ensures !ok ==> sent == old(sent) && messages == old(messages) + [LocalError]
      ensures Valid()
    {
      if socket == Some(Open) {
        sent := sent + [(kind, payload)];
        messages := messages + [Sent(kind)];
        return true;
      } else {
        messages := messages + [LocalError];
        return false;
      }
    }

    /** `disconnect`: closing an open socket starts the closing handshake;
        `OnClose` follows once it ends. */
    method Disconnect()
      requires Valid()
      modifies this`socket
      ensures socket == if old(socket) == Some(Open) || old(socket) == Some(Connecting) then Some(Closing) else old(socket)
      ensures Valid()
    {
      if socket.Some? && (socket.value == Open || socket.value == Connecting) {
        socket := Some(Closing);
      }
    }
  }
}
