/** app/composables/useRoom.ts: the room page's view of the relay. It keeps
    the user list up to date from the relay's frames, gates the manual start
    of a peer connection, and tracks which file is offered to which peer. The
    WebRTC manager and the WebSocket store are outside the model: the calls
    made into them are recorded in `rtcCalls` and `signals`. */
module Room {
  import opened Common
  import opened ClientModel
  import FileTransfer

  /** `RTCIceConnectionState` of a peer connection, as the WebRTC manager
      reports it. */
  datatype IceState = IceNew | IceChecking | IceConnected | IceCompleted | IceDisconnected | IceFailed | IceClosed

  /** A `File` chosen in the file dialog. */
  datatype LocalFile = LocalFile(name: string, size: real, mimeType: string)

  /** A call into the WebRTC manager. */
  datatype RtcCall =
    | ClosePeerConnection(peer: string)
    | HandleRtcMessage(kind: string)
    | SendFile(peer: string, file: LocalFile)
    | CloseDataChannel(peer: string)
    | InitiatePeerConnection(peer: string)

  /** The last progress sample of a transfer (`speedCalculationState`): when
      it was taken, in milliseconds, and the bytes moved by then. */
  datatype SpeedSample = SpeedSample(lastTimestamp: int, lastBytes: real)

  /** A frame handed to the WebSocket store: its `type` and `targetId`, the
      `file_transfer_request` offering a file to a peer, or the `join_room`
      request for a room. */
  datatype Signal =
    | Signal(kind: string, targetId: string)
    | FileRequest(targetId: string, file: FileMetadata)
    | JoinRequest(roomId: string)

  // ---------------------------------------------------------------- user list

  /** The entry built from a received user: the same id, name and avatar, and
      the NAT type it reports, or `'Unknown'` when it reports none. */
  function Normalised(raw: User): (u: User)
    ensures u.id == raw.id && u.name == raw.name && u.avatar == raw.avatar
    ensures Present(u.natType)
    ensures Present(raw.natType) ==> u.natType == raw.natType
    ensures !Present(raw.natType) ==> u.natType == Some("Unknown")
  {
    User(raw.id, raw.name, raw.avatar, if Present(raw.natType) then raw.natType else Some("Unknown"))
  }

  /** Upsert by id: the entry with `u`'s id takes `u`'s fields in place (the
      spread merge keeps nothing of the old entry, since `u` carries all four
      fields), or `u` is appended. Other entries stay where they are. */
  function Upsert(users: seq<User>, u: User): (r: seq<User>)
    ensures u in r
    ensures |r| == if HasId(users, u.id) then |users| else |users| + 1
    ensures forall k | 0 <= k < |users| && users[k].id != u.id :: r[k] == users[k]
    ensures forall k | 0 <= k < |users| :: r[k].id == users[k].id
    ensures forall v | v in r :: v in users || v == u
    ensures UniqueIds(users) ==> UniqueIds(r)
  {
    var i := FindIndex(users, u.id);
    if i > -1 then
      var r := users[i := u];
      assert r[i] == u;
      assert forall v | v in r :: v in users || v == u by {
        forall v | v in r ensures v in users || v == u {
          var k :| 0 <= k < |r| && r[k] == v;
          if k != i {
            assert users[k] == v;
          }
        }
      }
      r
    else users + [u]
  }

  /** Whether `v` is the normalised form of one of the received users. */
  predicate FromBatch(raws: seq<User>, v: User)
  {
    exists j | 0 <= j < |raws| :: v == Normalised(raws[j])
  }

  /** An id the batch does not carry is not carried by its earlier part. */
  lemma NotReceivedEarlier(raws: seq<User>, id: Option<string>)
    requires raws != [] && !HasId(raws, id)
    ensures !HasId(raws[..|raws| - 1], id)
  {
    var init := raws[..|raws| - 1];
    forall j | 0 <= j < |init|
      ensures init[j].id != id
    {
      assert init[j] == raws[j];
    }
  }

  /** A user received in the earlier part of a batch, or the last one, is
      received in the batch. */
  lemma FromBatchGrows(raws: seq<User>, v: User)
    requires raws != []
    requires FromBatch(raws[..|raws| - 1], v) || v == Normalised(raws[|raws| - 1])
    ensures FromBatch(raws, v)
  {
    if v != Normalised(raws[|raws| - 1]) {
      var j :| 0 <= j < |raws| - 1 && v == Normalised(raws[..|raws| - 1][j]);
      assert raws[j] == raws[..|raws| - 1][j];
    }
  }

  /** The `forEach` over the users a frame carries, each normalised and
      upserted in turn: entries whose id was not received stay as they were,
      and every entry is an old one or a received user, normalised. */
  function UpsertEach(users: seq<User>, raws: seq<User>): (r: seq<User>)
    ensures UniqueIds(users) ==> UniqueIds(r)
    ensures |users| <= |r| <= |users| + |raws|
    ensures forall k | 0 <= k < |users| :: r[k].id == users[k].id
    ensures forall k | 0 <= k < |users| && !HasId(raws, users[k].id) :: r[k] == users[k]
    ensures forall v | v in r :: v in users || FromBatch(raws, v)
    decreases |raws|
  {
    if raws == [] then users
    else
      var init := raws[..|raws| - 1];
      var before := UpsertEach(users, init);
      var u := Normalised(raws[|raws| - 1]);
      var r := Upsert(before, u);
      assert forall k | 0 <= k < |users| && !HasId(raws, users[k].id) :: r[k] == users[k] by {
        forall k | 0 <= k < |users| && !HasId(raws, users[k].id)
          ensures r[k] == users[k]
        {
          NotReceivedEarlier(raws, users[k].id);
        }
      }
      assert forall v | v in r :: v in users || FromBatch(raws, v) by {
        forall v | v in r && v !in users
          ensures FromBatch(raws, v)
        {
          FromBatchGrows(raws, v);
        }
      }
      r
  }

  /** One more received user is one more upsert. */
  lemma UpsertEachStep(users: seq<User>, raws: seq<User>, i: nat)
    requires i < |raws|
    ensures UpsertEach(users, raws[..i + 1]) == Upsert(UpsertEach(users, raws[..i]), Normalised(raws[i]))
  {
    assert raws[..i + 1][..i] == raws[..i];
  }

  /** After the upserts every received user is listed, and the last entry
      received for an id is the one kept. */
  lemma {:induction false} UpsertEachListsAll(users: seq<User>, raws: seq<User>)
    ensures forall k | 0 <= k < |raws| :: HasId(UpsertEach(users, raws), raws[k].id)
    ensures |raws| > 0 ==> Normalised(raws[|raws| - 1]) in UpsertEach(users, raws)
    decreases |raws|
  {
    if raws != [] {
      var init := raws[..|raws| - 1];
      UpsertEachListsAll(users, init);
      var before := UpsertEach(users, init);
      var u := Normalised(raws[|raws| - 1]);
      forall k | 0 <= k < |raws|
        ensures HasId(UpsertEach(users, raws), raws[k].id)
      {
        var after := Upsert(before, u);
        if k == |raws| - 1 {
          var j :| 0 <= j < |after| && after[j] == u;
        } else {
          assert raws[k] == init[k];
          var j :| 0 <= j < |before| && before[j].id == raws[k].id;
          assert after[j].id == raws[k].id;
        }
      }
    }
  }

  /** The NAT type update: only the first entry with the id changes, and only
      its `natType`; an unknown id changes nothing. */
  function SetNatType(users: seq<User>, id: Option<string>, natType: Option<string>): (r: seq<User>)
    ensures |r| == |users|
    ensures forall k | 0 <= k < |users| :: r[k].id == users[k].id && r[k].name == users[k].name && r[k].avatar == users[k].avatar
    ensures forall k | 0 <= k < |users| && users[k].id != id :: r[k] == users[k]
    ensures HasId(users, id) ==> r[FindIndex(users, id)].natType == natType
    ensures !HasId(users, id) ==> r == users
    ensures UniqueIds(users) ==> UniqueIds(r)
  {
    var i := FindIndex(users, id);
    if i >= 0 then users[i := users[i].(natType := natType)] else users
  }

  /** The user list after a frame: the three user-carrying frames upsert
      their users, `user_left` with an id filters it out, `nat_type_info`
      updates one entry, and every other frame leaves the list alone. A
      frame of `null` or an `existing_users` without a list throws before the
      list is touched. */
  function UsersAfter(users: seq<User>, m: ServerMsg): (r: seq<User>)
    ensures UniqueIds(users) ==> UniqueIds(r)
    ensures m.UserLeft? && Present(m.leftId) ==> !HasId(r, m.leftId)
    ensures !(m.RoomJoined? || m.UserJoined? || m.ExistingUsers? || m.UserLeft? || m.NatTypeInfo?) ==> r == users
  {
    match m
    case RoomJoined(_, u) => UpsertEach(users, [u])
    case UserJoined(u) => UpsertEach(users, [u])
    case ExistingUsers(us) => if us.Some? then UpsertEach(users, us.value) else users
    case UserLeft(id) => if Present(id) then WithoutId(users, id) else users
    case NatTypeInfo(id, sender, natType) => SetNatType(users, if Present(id) then id else sender, natType)
    case _ => users
  }

  /** The frames whose arm of the switch maintains the user list. */
  predicate IsUserFrame(m: ServerMsg)
  {
    m.RoomJoined? || m.UserJoined? || m.ExistingUsers? || m.UserLeft? || m.NatTypeInfo?
  }

  /** The calls into the WebRTC manager a frame causes, given the file
      selection at the time. */
  function RtcCallsFor(m: ServerMsg, fileToSend: Option<LocalFile>, peerToSendTo: Option<string>): seq<RtcCall>
  {
    match m
    case UserLeft(id) => if Present(id) then [ClosePeerConnection(id.value)] else []
    case Rtc(kind) => [HandleRtcMessage(kind)]
    case FileTransferAccepted(p) =>
      if fileToSend.Some? && Some(p) == peerToSendTo then [SendFile(p, fileToSend.value)] else []
    case FileTransferCancelled(p) => [CloseDataChannel(p)]
    case _ => []
  }

  /** The transfer records after a frame: a rejection or a cancellation by
      the peer marks its record. */
  function StatesAfter(states: map<string, FileTransfer.TransferProgress>, m: ServerMsg): map<string, FileTransfer.TransferProgress>
  {
    match m
    case FileTransferRejected(p) => FileTransfer.Updated(states, p, FileTransfer.Reject)
    case FileTransferCancelled(p) => FileTransfer.Updated(states, p, FileTransfer.Fail)
    case _ => states
  }

  /** The pending requests after a frame: a request from a listed user is
      recorded under the sender's id, with that user's entry and the offered
      file, replacing any earlier one; one from an unlisted sender is dropped,
      and no other request changes. */
  function RequestsAfter(requests: map<string, FileTransfer.TransferRequest>, users: seq<User>, m: ServerMsg)
    : (r: map<string, FileTransfer.TransferRequest>)
    ensures m.FileTransferRequest? && HasId(users, Some(m.from)) ==>
      && m.from in r && r[m.from].file == m.file
      && r[m.from].from in users && r[m.from].from.id == Some(m.from)
    ensures !(m.FileTransferRequest? && HasId(users, Some(m.from))) ==> r == requests
    ensures forall p | p in requests && !(m.FileTransferRequest? && p == m.from) :: p in r && r[p] == requests[p]
    ensures forall p | p in r :: p in requests || (m.FileTransferRequest? && p == m.from)
  {
    if m.FileTransferRequest? && HasId(users, Some(m.from)) then
      requests[m.from := FileTransfer.TransferRequest(users[FindIndex(users, Some(m.from))], m.file)]
    else requests
  }

  /** A connection that is being set up or is up. */
  predicate Live(s: IceState)
  {
    s.IceNew? || s.IceChecking? || s.IceConnected? || s.IceCompleted?
  }

  /** Whether `manualInitiateConnection` starts a connection: the own id is
      known, the peer is someone else, and there is no connection to it or
      only one that failed, dropped or was closed. */
  predicate MayInitiate(myClientId: Option<string>, peerId: string, states: map<string, IceState>)
  {
    && Present(myClientId) && peerId != myClientId.value
    && (peerId !in states || states[peerId] in {IceFailed, IceDisconnected, IceClosed})
  }

  /** A connection is initiated exactly when the own id is known, the peer
      is someone else, and no live connection to it exists: never to oneself,
      never before the own id is known, never beside a live one. */
  lemma NeverToSelfOrLive(myClientId: Option<string>, peerId: string, states: map<string, IceState>)
    ensures MayInitiate(myClientId, peerId, states)
        <==> Present(myClientId) && Some(peerId) != myClientId && !(peerId in states && Live(states[peerId]))
  {
  }

  // ---------------------------------------------------------------- data channel

  /** The speed a progress event at `now` with `bytes` moved reports, in
      bytes per second: only when the peer has an earlier sample and time has
      passed since it. */
  function SpeedFrom(samples: map<string, SpeedSample>, peerId: string, now: int, bytes: real): (r: Option<real>)
    ensures r.Some? <==> peerId in samples && samples[peerId].lastTimestamp < now
    ensures r.Some? ==> r.value * ((now - samples[peerId].lastTimestamp) as real / 1000.0) == bytes - samples[peerId].lastBytes
  {
    if peerId in samples && now - samples[peerId].lastTimestamp > 0 then
      var timeDiff := (now - samples[peerId].lastTimestamp) as real / 1000.0;
      Some((bytes - samples[peerId].lastBytes) / timeDiff)
    else None
  }

  /** The transfer records after a progress event: the speed, when one is
      reported, and then the progress, which marks the transfer as under way. */
  function AfterProgress(states: map<string, FileTransfer.TransferProgress>, peerId: string, speed: Option<real>,
                         progress: real): (r: map<string, FileTransfer.TransferProgress>)
    ensures r.Keys == states.Keys
    ensures forall p | p in states && p != peerId :: r[p] == states[p]
    ensures peerId in states ==>
      && r[peerId].progress == progress
      && r[peerId].speed == (if speed.Some? then speed.value else states[peerId].speed)
      && r[peerId].state == FileTransfer.Transferring
      && FileTransfer.Subject(r[peerId]) == FileTransfer.Subject(states[peerId])
  {
    var sped := if speed.Some? then FileTransfer.Updated(states, peerId, FileTransfer.SetSpeed(speed.value)) else states;
    FileTransfer.Updated(sped, peerId, FileTransfer.SetProgress(progress))
  }

  // ---------------------------------------------------------------- the page state

  class RoomPage {
    /** The room the page was opened for. */
    const roomId: string
    /** The `useFileTransfer` instance the page owns. */
    const transfers: FileTransfer.FileTransfers
    var messages: seq<LogEntry>
    var usersInRoom: seq<User>
    var myClientId: Option<string>
    var myName: Option<string>
    var myAvatar: Option<string>
    var fileToSend: Option<LocalFile>
    var peerToSendTo: Option<string>
    var rtcCalls: seq<RtcCall>
    var signals: seq<Signal>
    var speedSamples: map<string, SpeedSample>
    /** The `join` watchers still waiting for the socket to connect. */
    var joinWatchers: nat

    /** Ids in the user list are unique, and a chosen file always has the
        peer it is meant for. */
    ghost predicate Valid()
      reads this, transfers
    {
      transfers.Valid() && UniqueIds(usersInRoom) && (fileToSend.Some? ==> peerToSendTo.Some?)
    }

    constructor (roomId: string)
      ensures this.roomId == roomId && joinWatchers == 0
      ensures fresh(transfers) && transfers.transferStates == map[] && transfers.incomingRequests == map[]
      ensures messages == [] && usersInRoom == [] && rtcCalls == [] && signals == []
      ensures myClientId == None && myName == None && myAvatar == None
      ensures fileToSend == None && peerToSendTo == None && speedSamples == map[]
      ensures Valid()
    {
      this.roomId := roomId;
      joinWatchers := 0;
      transfers := new FileTransfer.FileTransfers();
      speedSamples := map[];
      messages, usersInRoom, rtcCalls, signals := [], [], [], [];
      myClientId, myName, myAvatar := None, None, None;
      fileToSend, peerToSendTo := None, None;
    }

    /** The `forEach` of the user-carrying frames. */
    method UpsertUsers(raws: seq<User>)
      modifies this`usersInRoom
      ensures usersInRoom == UpsertEach(old(usersInRoom), raws)
    {
      var i := 0;
      while i < |raws|
        invariant 0 <= i <= |raws|
        invariant usersInRoom == UpsertEach(old(usersInRoom), raws[..i])
      {
        UpsertOne(raws[i]);
        UpsertEachStep(old(usersInRoom), raws, i);
        i := i + 1;
      }
      assert raws[..i] == raws;
    }

    /** One iteration of that `forEach`: the received user, normalised,
        replaces the entry with its id or is appended. */
    method UpsertOne(raw: User)
      modifies this`usersInRoom
      ensures usersInRoom == Upsert(old(usersInRoom), Normalised(raw))
    {
      var user := User(raw.id, raw.name, raw.avatar, if Present(raw.natType) then raw.natType else Some("Unknown"));
      var existing := FindIndex(usersInRoom, user.id);
      if existing > -1 {
        usersInRoom := usersInRoom[existing := user];
      } else {
        usersInRoom := usersInRoom + [user];
      }
    }

    /** `handleWebSocketMessage`: every frame is logged; then the user list,
        the own identity, the file-transfer maps, the file selection and the
        WebRTC manager are updated as the frame's type says. */
    method HandleWebSocketMessage(m: ServerMsg)
      requires Valid()
      modifies this, transfers
      ensures messages == old(messages) + [Received(m)]
      ensures usersInRoom == UsersAfter(old(usersInRoom), m)
      ensures m.RoomJoined? ==> myClientId == m.clientId && myName == m.user.name && myAvatar == m.user.avatar
      ensures !m.RoomJoined? ==> myClientId == old(myClientId) && myName == old(myName) && myAvatar == old(myAvatar)
      ensures rtcCalls == old(rtcCalls) + RtcCallsFor(m, old(fileToSend), old(peerToSendTo))
      ensures m.FileTransferRejected? ==> fileToSend == None && peerToSendTo == None
      ensures !m.FileTransferRejected? ==> fileToSend == old(fileToSend) && peerToSendTo == old(peerToSendTo)
      ensures transfers.transferStates == StatesAfter(old(transfers.transferStates), m)
      ensures transfers.incomingRequests == RequestsAfter(old(transfers.incomingRequests), old(usersInRoom), m)
      ensures signals == old(signals)
      ensures speedSamples == old(speedSamples) && joinWatchers == old(joinWatchers)
      ensures Valid()
    {
      messages := messages + [Received(m)];
      if IsUserFrame(m) {
        UserFrame(m);
      } else {
        OtherFrame(m);
      }
    }

    /** The arms of the switch that maintain the user list and the own
        identity. */
    method UserFrame(m: ServerMsg)
      requires IsUserFrame(m) && UniqueIds(usersInRoom)
      modifies this`usersInRoom, this`myClientId, this`myName, this`myAvatar, this`rtcCalls
      ensures usersInRoom == UsersAfter(old(usersInRoom), m)
      ensures m.RoomJoined? ==> myClientId == m.clientId && myName == m.user.name && myAvatar == m.user.avatar
      ensures !m.RoomJoined? ==> myClientId == old(myClientId) && myName == old(myName) && myAvatar == old(myAvatar)
      ensures rtcCalls == old(rtcCalls) + RtcCallsFor(m, fileToSend, peerToSendTo)
      ensures UniqueIds(usersInRoom)
    {
      match m
      case RoomJoined(clientId, user) =>
        UpsertUsers([user]);
        myClientId := clientId;
        myName := user.name;
        myAvatar := user.avatar;
      case ExistingUsers(users) =>
        if users.Some? {
          UpsertUsers(users.value);
        }
      case UserJoined(user) =>
        UpsertUsers([user]);
      case UserLeft(id) =>
        if Present(id) {
          usersInRoom := WithoutId(usersInRoom, id);
          rtcCalls := rtcCalls + [ClosePeerConnection(id.value)];
        }
      case NatTypeInfo(id, sender, natType) =>
        var userId := if Present(id) then id else sender;
        usersInRoom := SetNatType(usersInRoom, userId, natType);
    }

    /** The other arms: the WebRTC signalling frames, and the file-transfer
        frames that move the transfer maps and the file selection. A frame of
        `null` throws on reading its type; chat and unknown frames do nothing. */
    method OtherFrame(m: ServerMsg)
      requires !IsUserFrame(m)
      requires transfers.Valid() && (fileToSend.Some? ==> peerToSendTo.Some?)
      modifies this`fileToSend, this`peerToSendTo, this`rtcCalls, transfers
      ensures rtcCalls == old(rtcCalls) + RtcCallsFor(m, old(fileToSend), old(peerToSendTo))
      ensures m.FileTransferRejected? ==> fileToSend == None && peerToSendTo == None
      ensures !m.FileTransferRejected? ==> fileToSend == old(fileToSend) && peerToSendTo == old(peerToSendTo)
      ensures transfers.transferStates == StatesAfter(old(transfers.transferStates), m)
      ensures transfers.incomingRequests == RequestsAfter(old(transfers.incomingRequests), usersInRoom, m)
      ensures transfers.Valid() && (fileToSend.Some? ==> peerToSendTo.Some?)
    {
      match m
      case NullMessage =>
      case Rtc(kind) =>
        rtcCalls := rtcCalls + [HandleRtcMessage(kind)];
      case RoomMessage =>
      case FileTransferRequest(from, file) =>
        var k := FindIndex(usersInRoom, Some(from));
        if k >= 0 {
          transfers.AddIncomingRequest(usersInRoom[k], file);
        }
      case FileTransferAccepted(peerId) =>
        if fileToSend.Some? && Some(peerId) == peerToSendTo {
          rtcCalls := rtcCalls + [SendFile(peerId, fileToSend.value)];
        }
      case FileTransferRejected(peerId) =>
        transfers.RejectTransfer(peerId);
        fileToSend := None;
        peerToSendTo := None;
      case FileTransferCancelled(peerId) =>
        transfers.FailTransfer(peerId);
        rtcCalls := rtcCalls + [CloseDataChannel(peerId)];
      case Other(_) =>
    }

    /** `manualInitiateConnection`; `states` is the WebRTC manager's
        `peerConnectionStates`. */
    method ManualInitiateConnection(peerId: string, states: map<string, IceState>) returns (initiated: bool)
      modifies this`rtcCalls
      ensures initiated == MayInitiate(myClientId, peerId, states)
      ensures initiated <==> Present(myClientId) && Some(peerId) != myClientId && !(peerId in states && Live(states[peerId]))
      ensures rtcCalls == old(rtcCalls) + if initiated then [InitiatePeerConnection(peerId)] else []
    {
      if !Present(myClientId) || peerId == myClientId.value {
        return false;
      }
      if peerId !in states || states[peerId] == IceFailed || states[peerId] == IceDisconnected || states[peerId] == IceClosed {
        rtcCalls := rtcCalls + [InitiatePeerConnection(peerId)];
        return true;
      }
      return false;
    }

    /** `selectFileForPeer`: remember the peer; the dialog's outcome arrives
        as `FileChosen`. */
    method SelectFileForPeer(peerId: string)
      requires Valid()
      modifies this`peerToSendTo
      ensures peerToSendTo == Some(peerId)
      ensures Valid()
    {
      peerToSendTo := Some(peerId);
    }

    /** The watcher of the dialog's `files`: with a file and a peer chosen,
        the file is kept, offered to the peer, and a sending transfer record
        is created. */
    method FileChosen(file: Option<LocalFile>)
      requires Valid()
      modifies this`fileToSend, this`signals, transfers
      ensures file.Some? && Present(peerToSendTo) ==>
        var offered := FileMetadata(file.value.name, file.value.size, file.value.mimeType);
        && fileToSend == file
        && signals == old(signals) + [FileRequest(peerToSendTo.value, offered)]
        && transfers.transferStates == old(transfers.transferStates)[peerToSendTo.value :=
             FileTransfer.NewTransfer(peerToSendTo.value, offered, true)]
      ensures !(file.Some? && Present(peerToSendTo)) ==>
        fileToSend == old(fileToSend) && signals == old(signals) && transfers.transferStates == old(transfers.transferStates)
      ensures transfers.incomingRequests == old(transfers.incomingRequests)
      ensures Valid()
    {
      if file.Some? && Present(peerToSendTo) {
        var peer := peerToSendTo.value;
        fileToSend := file;
        var metadata := FileMetadata(file.value.name, file.value.size, file.value.mimeType);
        signals := signals + [FileRequest(peer, metadata)];
        transfers.CreateTransferState(peer, metadata, true);
      }
    }

    /** `acceptFileRequest`: answer the peer; a pending request becomes a
        receiving transfer record and is dropped. */
    method AcceptFileRequest(peerId: string)
      requires Valid()
      modifies this`signals, transfers
      ensures signals == old(signals) + [Signal("file_transfer_accepted", peerId)]
      ensures peerId in old(transfers.incomingRequests) ==>
        && transfers.transferStates == old(transfers.transferStates)[peerId :=
             FileTransfer.NewTransfer(peerId, old(transfers.incomingRequests)[peerId].file, false)]
        && transfers.incomingRequests == old(transfers.incomingRequests) - {peerId}
      ensures peerId !in old(transfers.incomingRequests) ==>
        transfers.transferStates == old(transfers.transferStates) && transfers.incomingRequests == old(transfers.incomingRequests)
      ensures Valid()
    {
      signals := signals + [Signal("file_transfer_accepted", peerId)];
      if peerId in transfers.incomingRequests {
        var request := transfers.incomingRequests[peerId];
        transfers.CreateTransferState(peerId, request.file, false);
        transfers.RemoveIncomingRequest(peerId);
      }
    }

    /** `rejectFileRequest`: answer the peer and drop its request. */
    method RejectFileRequest(peerId: string)
      requires Valid()
      modifies this`signals, transfers
      ensures signals == old(signals) + [Signal("file_transfer_rejected", peerId)]
      ensures transfers.incomingRequests == old(transfers.incomingRequests) - {peerId}
      ensures transfers.transferStates == old(transfers.transferStates)
      ensures Valid()
    {
      signals := signals + [Signal("file_transfer_rejected", peerId)];
      transfers.RemoveIncomingRequest(peerId);
    }

    /** `cancelTransfer`: tell the peer, fail the transfer, close the data
        channel, and forget the file selection only if it was for this peer. */
    method CancelTransfer(peerId: string)
      requires Valid()
      modifies this`signals, this`rtcCalls, this`fileToSend, this`peerToSendTo, transfers
      ensures signals == old(signals) + [Signal("file_transfer_cancelled", peerId)]
      ensures transfers.transferStates == FileTransfer.Updated(old(transfers.transferStates), peerId, FileTransfer.Fail)
      ensures transfers.incomingRequests == old(transfers.incomingRequests)
      ensures rtcCalls == old(rtcCalls) + [CloseDataChannel(peerId)]
      ensures Some(peerId) == old(peerToSendTo) ==> fileToSend == None && peerToSendTo == None
      ensures Some(peerId) != old(peerToSendTo) ==> fileToSend == old(fileToSend) && peerToSendTo == old(peerToSendTo)
      ensures Valid()
    {
      signals := signals + [Signal("file_transfer_cancelled", peerId)];
      transfers.FailTransfer(peerId);
      rtcCalls := rtcCalls + [CloseDataChannel(peerId)];
      if Some(peerId) == peerToSendTo {
        fileToSend := None;
        peerToSendTo := None;
      }
    }
  

    /** The data channel to a peer closed: its transfer fails. */
    method ChannelClosed(peerId: string)
      requires Valid()
      modifies transfers
      ensures transfers.transferStates == FileTransfer.Updated(old(transfers.transferStates), peerId, FileTransfer.Fail)
      ensures transfers.incomingRequests == old(transfers.incomingRequests)
      ensures Valid()
    {
      transfers.FailTransfer(peerId);
    }

    /** A `start` message: the peer begins sending `file`, so a receiving
        transfer record is created. */
    method ChannelStarted(peerId: string, file: FileMetadata)
      requires Valid()
      modifies transfers
      ensures transfers.transferStates == old(transfers.transferStates)[peerId := FileTransfer.NewTransfer(peerId, file, false)]
      ensures transfers.incomingRequests == old(transfers.incomingRequests)
      ensures Valid()
    {
      transfers.CreateTransferState(peerId, file, false);
    }

    /** A `progress` or `sender_progress` message received at `now` with
        `bytes` moved and `progress` the rounded percentage: the speed since
        the previous sample is recorded when there is one, then the progress,
        and the sample is replaced. */
    method ChannelProgress(peerId: string, now: int, bytes: real, progress: real)
      requires Valid()
      modifies this`speedSamples, transfers
      ensures transfers.transferStates
           == AfterProgress(old(transfers.transferStates), peerId, SpeedFrom(old(speedSamples), peerId, now, bytes), progress)
      ensures transfers.incomingRequests == old(transfers.incomingRequests)
      ensures speedSamples == old(speedSamples)[peerId := SpeedSample(now, bytes)]
      ensures Valid()
    {
      if peerId in speedSamples {
        var sample := speedSamples[peerId];
        var timeDiff := (now - sample.lastTimestamp) as real / 1000.0;
        var bytesDiff := bytes - sample.lastBytes;
        if timeDiff > 0.0 {
          transfers.UpdateTransferSpeed(peerId, bytesDiff / timeDiff);
        }
      }
      speedSamples := speedSamples[peerId := SpeedSample(now, bytes)];
      transfers.UpdateTransferProgress(peerId, progress);
    }

    /** An `end` message: the receiving transfer completes and its sample is
        dropped. */
    method ChannelEnded(peerId: string)
      requires Valid()
      modifies this`speedSamples, transfers
      ensures transfers.transferStates == FileTransfer.Updated(old(transfers.transferStates), peerId, FileTransfer.Complete)
      ensures transfers.incomingRequests == old(transfers.incomingRequests)
      ensures speedSamples == old(speedSamples) - {peerId}
      ensures Valid()
    {
      transfers.CompleteTransfer(peerId);
      speedSamples := speedSamples - {peerId};
    }

    /** A `sender_complete` event: the sending transfer completes, its sample
        is dropped, and the file selection is cleared for the next transfer. */
    method SenderComplete(peerId: string)
      requires Valid()
      modifies this`speedSamples, this`fileToSend, this`peerToSendTo, transfers
      ensures transfers.transferStates == FileTransfer.Updated(old(transfers.transferStates), peerId, FileTransfer.Complete)
      ensures transfers.incomingRequests == old(transfers.incomingRequests)
      ensures speedSamples == old(speedSamples) - {peerId}
      ensures fileToSend == None && peerToSendTo == None
      ensures Valid()
    {
      transfers.CompleteTransfer(peerId);
      speedSamples := speedSamples - {peerId};
      fileToSend := None;
      peerToSendTo := None;
    }
  

    /** `join`: the socket is asked to connect (outside the model), and one
        more watcher waits for it to be connected. */
    method Join()
      modifies this`joinWatchers
      ensures joinWatchers == old(joinWatchers) + 1
    {
      joinWatchers := joinWatchers + 1;
    }

    /** The socket's connected flag changed. A `watch` callback runs only on
        a change, so callers deliver changes only and `connected` alternates
        between calls. Once it is connected, every waiting `join` watcher
        sends one `join_room` request for the page's room, logs it as sent,
        and stops watching; a disconnection does nothing. */
    method ConnectedChanged(connected: bool)
      modifies this`joinWatchers, this`signals, this`messages
      ensures connected ==>
        && signals == old(signals) + seq(old(joinWatchers), _ => JoinRequest(roomId))
        && messages == old(messages) + seq(old(joinWatchers), _ => Sent("join_room"))
        && joinWatchers == 0
      ensures !connected ==>
        signals == old(signals) && messages == old(messages) && joinWatchers == old(joinWatchers)
    {
      if connected {
        var fired := 0;
        while fired < joinWatchers
          invariant fired <= joinWatchers == old(joinWatchers)
          invariant signals == old(signals) + seq(fired, _ => JoinRequest(roomId))
          invariant messages == old(messages) + seq(fired, _ => Sent("join_room"))
        {
          signals := signals + [JoinRequest(roomId)];
          messages := messages + [Sent("join_room")];
          assert seq(fired + 1, _ => JoinRequest(roomId)) == seq(fired, _ => JoinRequest(roomId)) + [JoinRequest(roomId)];
          assert seq(fired + 1, _ => Sent("join_room")) == seq(fired, _ => Sent("join_room")) + [Sent("join_room")];
          fired := fired + 1;
        }
        joinWatchers := 0;
      }
    }

    /** `manualDetectNat`: the own entry, when listed, shows that detection
        is running, and `Failed` when the detection run (outside the model)
        throws; its `failed` outcome is a parameter. A successful run changes
        nothing here: the new type arrives from the relay. */
    method ManualDetectNat(failed: bool)
      requires Valid()
      modifies this`usersInRoom
      ensures myClientId.Some? ==>
        usersInRoom == SetNatType(old(usersInRoom), myClientId, Some(if failed then "Failed" else "Detecting..."))
      ensures myClientId.None? ==> usersInRoom == old(usersInRoom)
      ensures Valid()
    {
      if myClientId.Some? {
        var i := FindIndex(usersInRoom, myClientId);
        if i >= 0 {
          usersInRoom := usersInRoom[i := usersInRoom[i].(natType := Some("Detecting..."))];
          if failed {
            usersInRoom := usersInRoom[i := usersInRoom[i].(natType := Some("Failed"))];
          }
        }
      }
    }
  }
}
