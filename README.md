# A verified model of the file-sharing signaling relay and its browser composables

The system lets browsers in the same "room" find each other and exchange
files over WebRTC. A small Node.js relay (`signaling-server/server.js`) admits
WebSocket connections, gives each one an id, a random name and an avatar,
keeps the room table, relays point-to-point signalling frames (offers,
answers, ICE candidates and the four `file_transfer_*` frames), broadcasts
chat frames, and evicts silent connections with a ping/pong heartbeat. In the
browser, four composables hold the client side:
`useWebSocketSignaling` (the socket and the user list it builds),
`useRoom` (the room page: user list, file offers, manual connection start),
`useFileTransfer` (per-peer transfer records and pending requests) and
`useNatTypeDetector` (classifying the NAT from gathered ICE candidates).

The model is split into these modules:

- `Common` (`common.dfy`) holds `Option`, a JSON value type, JavaScript truthiness and `?.` property access.
- `RelaySpec` (`relay_spec.dfy`) is the relay as values: the admission rule, dispatch on `type`, the sender stamp, who a broadcast reaches, the room bookkeeping shared by `join_room` and `close`, the heartbeat sweep, and the invariant `Consistent` that ties `wss.clients`, `clientsByWs`, `clientsById` and `rooms` together. It also holds the lemmas about all of these.
- `Relay` (`relay.dfy`) is the class `SignalingServer`, whose fields are the relay's module-level maps and whose methods are its event handlers. Every `ws.send`/`ws.ping` is appended to `outbox`. Each handler is proved against the functions of `RelaySpec` and keeps `Consistent`.
- `ClientModel` (`client_messages.dfy`) holds the user entries, the parsed frames a client receives (one constructor per `type` the clients switch on), the message-log entries, and the `findIndex`/`filter` operations on the user list.
- `FileTransfer` (`file_transfer.dfy`) is the class `FileTransfers` with the eight mutators, specified through `Apply`/`Updated`.
- `NatDetector` (`nat_detector.dfy`) is `AnalyseCandidates` and the class `Detector` with the peer connection's event handlers.
- `Room` (`room.dfy`) is the class `RoomPage`: the frame handler, the data-channel events and the user actions of `useRoom`.
- `SignalingClient` (`signaling_client.dfy`) is the class `Signaling`: the socket events and operations of `useWebSocketSignaling`.

`useRoom.ts` line 166 tests `message.payload.type`, a field the relay never
sets, where `message.type` was evidently meant. So the `room_joined` arm
upserts the payload's `id` rather than its `clientId`. The model does the
same. The relay sends the same value in both fields, so the outcome is the
one intended.

One behaviour is modelled as evidently intended rather than as written: a
JSON frame of `null` makes the relay's `message.type` throw. `Message`, which
the rest of the model uses, answers it with the unknown-type error. The
throwing behaviour appears only in the as-written members
`DispatchAsWritten` and `MessageAsWritten`; see Findings.

## Model

| member | source | states |
|---|---|---|
| RelaySpec.Admit | signaling-server/server.js:426-437 | a connection is accepted exactly when its origin is on the allow-list or its Host header starts with `localhost` or `127.0.0.1` |
| RelaySpec.TypeField | signaling-server/server.js:508 | the corrected read agrees with the original wherever the original does not throw, and a type is only found on an object that has one |
| RelaySpec.NullFrameThrowsAsWritten | signaling-server/server.js:508 | for every parsed frame, the switch as written throws exactly on `null`; on every other frame it takes the same route with the same type as the corrected switch, which sends `null` to the unknown-type arm |
| RelaySpec.RouteOf | signaling-server/server.js:508-612 | the switch forwards only the seven point-to-point kinds, and falls to the unknown-type error exactly when `type` is none of the nine handled strings |
| RelaySpec.Stamp | signaling-server/server.js:490-496 | a relayed payload keeps every field of the sender's except `senderId`, which is overwritten with the true sender's id |
| RelaySpec.DeliveriesExactly | signaling-server/server.js:672-687 | a room broadcast reaches a socket iff it is a member, not the excluded id and open, and it carries exactly the broadcast frame |
| RelaySpec.DeliveriesOncePerMember | signaling-server/server.js:676-685 | with distinct members, each member receives a broadcast at most once |
| RelaySpec.Deliveries | signaling-server/server.js:676-685 | the `forEach` of a room broadcast, in the room's order; its meaning is stated by `DeliveriesExactly` and `DeliveriesOncePerMember` |
| RelaySpec.Leave | signaling-server/server.js:517-531 | the detach of `join_room`, which `close` repeats at lines 626-644; its effect is stated by `LeaveEffect`, `LeaveDetaches` and `LeaveDeletesEmptyRoom` |
| RelaySpec.LeaveEffect | signaling-server/server.js:626-644 | only the named room changes: it keeps every member but the one leaving and is deleted exactly when no other member remains; a missing or unknown room leaves the table alone |
| RelaySpec.SweepOne | signaling-server/server.js:656-663 | after a tick a client is marked as not having answered, and it is still open iff it was open and had answered |
| RelaySpec.Pings | signaling-server/server.js:654-664 | the pings of one tick, in `wss.clients` order; which sockets they go to is stated by `SweepPartition` |
| RelaySpec.Dead | signaling-server/server.js:654-660 | the terminations of one tick, in `wss.clients` order; which sockets they hit is stated by `SweepPartition` and `DeadDistinct` |
| RelaySpec.DeadPingsCount | signaling-server/server.js:653-666 | every socket of a tick is either pinged or terminated, never both: the two counts add up to the number of sockets |
| RelaySpec.SweepPartition | signaling-server/server.js:653-666 | a heartbeat tick terminates exactly the sockets without a record or whose client did not answer, and pings exactly the others |
| RelaySpec.DeadDistinct | signaling-server/server.js:654-659 | no socket is terminated twice in one tick |
| RelaySpec.EvictedAfterSilentTick | signaling-server/server.js:656-661 | after a tick every client is marked unanswered; a client that answered stays open, and one that stays silent for two ticks is terminated |
| RelaySpec.RoomIdsTruthy | signaling-server/server.js:516 | under the invariant a client's `roomId` is never the empty string, so the model's presence tests agree with the source's truthiness tests of `roomId` (here and at line 581) |
| RelaySpec.AtMostOneRoom | signaling-server/server.js:517-554 | under the invariant, a connection is a member of at most one room |
| RelaySpec.IdsUnique | signaling-server/server.js:442-448 | under the invariant, no two connections carry the same client id |
| RelaySpec.CloseKeepsConsistent | signaling-server/server.js:616-645 | the close handler's removals keep the indexes, the socket list and the room table consistent |
| RelaySpec.ConnectKeepsConsistent | signaling-server/server.js:442-448 | registering a fresh connection under a fresh id, in no room, keeps the invariant |
| RelaySpec.JoinKeepsConsistent | signaling-server/server.js:516-554 | leaving the old room, renaming the record's room and entering the new room keeps the invariant, for the non-empty room ids that the check at line 510 lets through |
| RelaySpec.JoinedExactlyOneRoom | signaling-server/server.js:516-554 | after a valid join the client is a member of the target room and of no other, and it was not already listed there after leaving |
| RelaySpec.LeaveDeletesEmptyRoom | signaling-server/server.js:517-531 | leaving deletes the old room exactly when the client was its only member, otherwise removes only that client; no `user_left` goes out when the room is deleted |
| RelaySpec.LeaveDetaches | signaling-server/server.js:626-644 | after a detach the client is in no room, every remaining room is non-empty and duplicate-free, and other clients keep their rooms |
| RelaySpec.RecordsKeepConsistent | signaling-server/server.js:452-456 | changing only liveness or socket state of the records keeps the invariant |
| RelaySpec.LeaveNoticesAreUserLeft | signaling-server/server.js:527-530 | the notices of a departure are all `user_left` with the leaver's id, and none goes to the leaver |
| Relay.SignalingServer.constructor | signaling-server/server.js:376-378 | the relay starts with no sockets, no clients, no rooms and nothing sent |
| Relay.SignalingServer.Connect | signaling-server/server.js:417-456 | a connection is accepted iff `Admit` holds; an accepted one is appended to the sockets, indexed both ways with a fresh record in no room and alive; a rejected one changes nothing; the invariant holds |
| Relay.SignalingServer.Pong | signaling-server/server.js:453-456 | a pong marks only that client alive; nothing else changes |
| Relay.SignalingServer.SocketClosing | signaling-server/server.js:677 | a socket leaving the open state (which the `readyState` tests read) changes only its record's open flag |
| Relay.SignalingServer.Close | signaling-server/server.js:616-645 | an unknown socket changes nothing; otherwise the socket and both index entries go, its room loses it via `Leave`, and exactly the `LeaveNotices` are sent; the invariant holds |
| Relay.SignalingServer.Detach | signaling-server/server.js:626-644 | the room table becomes `Leave(...)` and the outbox grows by exactly the `user_left` notices to the open remaining members |
| Relay.SignalingServer.BroadcastToRoom | signaling-server/server.js:672-687 | the outbox grows by exactly `Deliveries` of the room's members in the room's order, and by nothing when the room does not exist |
| Relay.SignalingServer.JoinRoom | signaling-server/server.js:509-577 | an invalid room id sends only the error; otherwise the old room is left with its notices, the record names the new room, the client is added last, sent `existing_users` (the members before it) and `room_joined`, and every other open member is sent `user_joined`; the invariant holds |
| Relay.SignalingServer.AddToRoom | signaling-server/server.js:534-576 | the room is created if missing and gains the client last; `existing_users` lists the members before it, then `room_joined`, then `user_joined` to the others |
| Relay.SignalingServer.BroadcastMessage | signaling-server/server.js:580-595 | a client in no room, or a frame without truthy `data`, gets the matching error; otherwise `room_message` goes to every other open member of its room; nothing but the outbox changes |
| Relay.SignalingServer.ForwardMessage | signaling-server/server.js:477-506 | no `targetId` sends nothing; an open target receives the frame with the payload stamped with the sender's id; otherwise the sender gets the not-found error; nothing but the outbox changes |
| Relay.SignalingServer.Message | signaling-server/server.js:458-614 | an unparsable frame gets the invalid-JSON error; a frame from an unregistered socket is ignored; otherwise the effect is that of the route `RouteOf` picks, or the unknown-type error, which is also what a registered client's `null` frame gets |
| Relay.SignalingServer.MessageAsWritten | signaling-server/server.js:458-614 | the handler as written throws exactly on a registered client's `null` frame, and then sends nothing and changes no state; on every other frame its effect is exactly that of `Message` |
| Relay.SignalingServer.Sweep | signaling-server/server.js:654-665 | the loop terminates exactly `Dead(...)` and pings exactly `Pings(...)` in `wss.clients` order; each swept record becomes `SweepOne` of the old one and no record is added or removed |
| Relay.SignalingServer.Heartbeat | signaling-server/server.js:653-666 | a tick terminates and pings as `Sweep` does, changes every record to `SweepOne` of the old one, leaves sockets, id index and rooms alone, and keeps the invariant |
| ClientModel.FindIndex | app/composables/useRoom.ts:176 | the result is the first index whose entry has the id, or -1 exactly when no entry has it |
| ClientModel.WithoutId | app/composables/useWebSocketSignaling.ts:74 | the kept entries are exactly those with a different id, none has the id, and unique ids stay unique |
| ClientModel.WithoutAbsentId | app/composables/useRoom.ts:198 | filtering out an id nobody has changes nothing |
| ClientModel.WithoutIdKeepsOrder | app/composables/useRoom.ts:198 | filtering keeps the surviving entries in their order: filtering two pieces and joining them equals filtering the whole |
| FileTransfer.Apply | app/composables/useFileTransfer.ts:54-101 | an update never changes whose transfer it is; progress reports (re)start it, completion pins progress at 100, rejection rejects, failure spares a completed transfer, speed reports change only the speed |
| FileTransfer.Updated | app/composables/useFileTransfer.ts:55-56 | an update touches only the named peer's record, if it has one, and adds or removes no key |
| FileTransfer.CompletedIsSticky | app/composables/useFileTransfer.ts:93-97 | a completed transfer stays completed through any run of speed reports, completions and failures |
| FileTransfer.FullStaysFull | app/composables/useFileTransfer.ts:71-76 | progress 100 set by a completion survives every update but a progress report |
| FileTransfer.FileTransfers.constructor | app/composables/useFileTransfer.ts:27-32 | both maps start empty |
| FileTransfer.FileTransfers.AddIncomingRequest | app/composables/useFileTransfer.ts:34-36 | the request is stored under the sender's id, replacing an earlier one; transfers are untouched |
| FileTransfer.FileTransfers.RemoveIncomingRequest | app/composables/useFileTransfer.ts:38-40 | only that peer's request is removed |
| FileTransfer.FileTransfers.CreateTransferState | app/composables/useFileTransfer.ts:42-52 | the peer's record becomes a fresh requesting record with progress and speed 0 |
| FileTransfer.FileTransfers.UpdateTransferSpeed | app/composables/useFileTransfer.ts:54-59 | the transfer map becomes `Updated(..., SetSpeed)` |
| FileTransfer.FileTransfers.UpdateTransferProgress | app/composables/useFileTransfer.ts:61-69 | the transfer map becomes `Updated(..., SetProgress)` |
| FileTransfer.FileTransfers.CompleteTransfer | app/composables/useFileTransfer.ts:71-76 | the transfer map becomes `Updated(..., Complete)` |
| FileTransfer.FileTransfers.RejectTransfer | app/composables/useFileTransfer.ts:83-87 | the transfer map becomes `Updated(..., Reject)` |
| FileTransfer.FileTransfers.FailTransfer | app/composables/useFileTransfer.ts:93-97 | the transfer map becomes `Updated(..., Fail)` |
| FileTransfer.FileTransfers.Expire | app/composables/useFileTransfer.ts:77-79 | the timer removes only that peer's record |
| NatDetector.AnalyseCandidates | app/composables/useNatTypeDetector.ts:95-116 | Blocked iff no reflexive candidate; Public IP iff some host address equals some reflexive address; otherwise Symmetric NAT iff several reflexive ports and Cone NAT iff one |
| NatDetector.SharesAddressIffCommon | app/composables/useNatTypeDetector.ts:101 | the public-address test holds iff the host and reflexive address sets intersect |
| NatDetector.AnalysisReadsOnlyProjections | app/composables/useNatTypeDetector.ts:95-116 | runs whose reflexive addresses, host addresses and reflexive ports agree as sets get the same verdict, even when their candidates differ otherwise |
| NatDetector.AnalysisIgnoresOrder | app/composables/useNatTypeDetector.ts:95-116 | runs that gathered the same candidates get the same verdict, whatever the order or repetition |
| NatDetector.Detector.constructor | app/composables/useNatTypeDetector.ts:15-18 | the verdict starts Unknown with nothing gathered |
| NatDetector.Detector.Detect | app/composables/useNatTypeDetector.ts:21-41 | a detection in progress makes the call do nothing; a failed peer connection gives Blocked; otherwise detection starts with empty candidate lists |
| NatDetector.Detector.OnIceCandidate | app/composables/useNatTypeDetector.ts:43-70 | a reflexive candidate is appended to the reflexive list, a host candidate to the host list, anything else to neither |
| NatDetector.Detector.OnIceGatheringStateChange | app/composables/useNatTypeDetector.ts:72-83 | completion of a running gathering sets the verdict to `AnalyseCandidates` of what was gathered and ends the gathering; any other change does nothing |
| NatDetector.Detector.OnIceCandidateError | app/composables/useNatTypeDetector.ts:85-93 | a candidate error (or a failed offer) sets the verdict to Blocked and keeps the lists |
| Room.Normalised | app/composables/useRoom.ts:169-174 | a received user keeps id, name and avatar; a truthy NAT type is kept and a missing or empty one becomes `Unknown` |
| Room.Upsert | app/composables/useRoom.ts:176-184 | the entry with the user's id is replaced in place, or the user is appended; other entries stay, and ids stay unique |
| Room.UpsertEach | app/composables/useRoom.ts:168-185 | upserting a batch keeps ids unique, never shrinks the list and keeps existing ids in place; an entry whose id was not received is unchanged, and every entry is an old one or a received user, normalised |
| Room.UpsertEachListsAll | app/composables/useRoom.ts:168-185 | after the batch every received id is listed and the last received entry is kept as sent |
| Room.SetNatType | app/composables/useRoom.ts:251-260 | only the first entry with the id changes, and only its NAT type; an unknown id changes nothing |
| Room.UsersAfter | app/composables/useRoom.ts:158-262 | a frame keeps ids unique, `user_left` removes the id, and frames outside the user-list arms leave the list alone |
| Room.RequestsAfter | app/composables/useRoom.ts:216-220 | a request from a listed sender is stored under its id with that user's entry and the offered file; one from an unlisted sender changes nothing; no other pending request changes |
| Room.MayInitiate | app/composables/useRoom.ts:293-304 | the two guards of `manualInitiateConnection`, as written; their meaning is stated by `NeverToSelfOrLive` |
| Room.NeverToSelfOrLive | app/composables/useRoom.ts:293-309 | a connection is initiated iff the own id is known, the peer is someone else, and no connection to it is new, checking, connected or completed |
| Room.RoomPage.constructor | app/composables/useRoom.ts:72-75 | the page for a room starts with empty lists and maps, no file selection and no join waiting |
| Room.RoomPage.UpsertOne | app/composables/useRoom.ts:169-184 | one iteration of the `forEach`: the list becomes `Upsert` of the old list and the normalised received user |
| Room.RoomPage.UpsertUsers | app/composables/useRoom.ts:168-185 | the loop leaves the list equal to `UpsertEach` of the old list and the batch |
| Room.RoomPage.HandleWebSocketMessage | app/composables/useRoom.ts:155-263 | every frame is logged; the user list becomes `UsersAfter`; `room_joined` sets the own identity; WebRTC calls, transfer records and pending requests change as the frame's type says; a rejection clears the file selection; the speed samples and `join` watchers are untouched |
| Room.RoomPage.UserFrame | app/composables/useRoom.ts:160-202 | the user-list arms update the list, the own identity and the peer-connection calls as `UsersAfter` and `RtcCallsFor` say |
| Room.RoomPage.OtherFrame | app/composables/useRoom.ts:205-249 | the signalling and file arms call the WebRTC manager and update the transfer maps and file selection as specified |
| Room.RoomPage.ManualInitiateConnection | app/composables/useRoom.ts:293-309 | a connection is initiated exactly when `MayInitiate` holds, that is iff the own id is known, the peer is someone else and no live connection to it exists, and then exactly one call is made |
| Room.RoomPage.Join | app/composables/useRoom.ts:311-323 | each `join` adds one watcher waiting for the socket to connect |
| Room.RoomPage.ConnectedChanged | app/composables/useRoom.ts:316-322 | called on each change of the connected flag; once the socket is connected, each waiting watcher sends exactly one `join_room` request for the page's room, logs it as sent and stops, so none is left waiting; a disconnection does nothing |
| Room.RoomPage.ManualDetectNat | app/composables/useRoom.ts:326-341 | the own entry, found by the own id, gets the NAT type `Detecting...`, or `Failed` when detection throws; no other entry changes, nothing changes when no own id is known, and ids stay unique |
| Room.SpeedFrom | app/composables/useRoom.ts:106-118 | a speed is reported iff the peer has an earlier sample and time has passed since it, and then speed times elapsed seconds equals the bytes moved since |
| Room.AfterProgress | app/composables/useRoom.ts:105-126 | a progress event touches only that peer's record: it takes the reported speed if any, then the progress, and is marked as transferring |
| Room.RoomPage.ChannelClosed | app/composables/useRoom.ts:97 | a closed data channel fails the peer's transfer |
| Room.RoomPage.ChannelStarted | app/composables/useRoom.ts:100-103 | a `start` message creates a fresh receiving record for the peer |
| Room.RoomPage.ChannelProgress | app/composables/useRoom.ts:105-126 | the records become `AfterProgress` with the speed `SpeedFrom` computes from the previous sample, and the sample is replaced by this one |
| Room.RoomPage.ChannelEnded | app/composables/useRoom.ts:128-130 | an `end` message completes the peer's transfer and drops its sample |
| Room.RoomPage.SenderComplete | app/composables/useRoom.ts:141-148 | `sender_complete` completes the peer's transfer, drops its sample and clears the file selection |
| Room.RoomPage.SelectFileForPeer | app/composables/useRoom.ts:348-351 | the peer is remembered as the file's recipient |
| Room.RoomPage.FileChosen | app/composables/useRoom.ts:77-85 | with a file and a peer, the file is kept, a `file_transfer_request` carrying its name, size and type goes to the peer, and a sending record with that same metadata is created; otherwise nothing changes |
| Room.RoomPage.AcceptFileRequest | app/composables/useRoom.ts:353-360 | the acceptance is sent; a pending request becomes a receiving record and is dropped |
| Room.RoomPage.RejectFileRequest | app/composables/useRoom.ts:362-365 | the rejection is sent and the request dropped |
| Room.RoomPage.CancelTransfer | app/composables/useRoom.ts:368-384 | the peer is told, the transfer fails, its data channel closes, and the file selection is cleared only if it was for that peer |
| SignalingClient.AddIfAbsent | app/composables/useWebSocketSignaling.ts:45-47 | the id is listed afterwards; the old list is a prefix and at most the user is appended, last; unique ids stay unique |
| SignalingClient.AddEachIfAbsent | app/composables/useWebSocketSignaling.ts:53-57 | after the batch every received id is listed, the old list is a prefix, everything appended was received, and unique ids stay unique |
| SignalingClient.Signaling.constructor | app/composables/useWebSocketSignaling.ts:18-28 | no socket, no identity, no users, nothing sent |
| SignalingClient.Signaling.HandleSocketMessage | app/composables/useWebSocketSignaling.ts:31-88 | every parsed frame is logged, a garbled or `null` one adds an error; `room_joined` sets the identity and lists oneself when complete; `existing_users` and `user_joined` add unlisted users (never oneself on `user_joined`); `user_left` removes the id |
| SignalingClient.Signaling.AddExisting | app/composables/useWebSocketSignaling.ts:53-57 | the loop leaves the list equal to `AddEachIfAbsent` of the old list and the batch |
| SignalingClient.Signaling.Connect | app/composables/useWebSocketSignaling.ts:91-103 | an invalid room id is only reported; an open socket is kept; otherwise a socket is created |
| SignalingClient.Signaling.OnOpen | app/composables/useWebSocketSignaling.ts:105-113 | the client is connected and exactly one `join_room` frame for its room is sent |
| SignalingClient.Signaling.OnError | app/composables/useWebSocketSignaling.ts:117-120 | an error is only logged |
| SignalingClient.Signaling.OnClose | app/composables/useWebSocketSignaling.ts:122-130 | closing disconnects and forgets the socket, the identity and the user list |
| SignalingClient.Signaling.SendMessage | app/composables/useWebSocketSignaling.ts:133-144 | a frame is sent exactly when the socket is open, and the result says so; otherwise a local error is logged |
| SignalingClient.Signaling.Disconnect | app/composables/useWebSocketSignaling.ts:146-150 | an open socket starts closing; otherwise nothing changes |

## Left out

- The HTTP status page, the server's start-up and `wss.on('close')` are outside the model. They serve a page or stop the timer and touch no client state.
- `uuidv4` and the random name and avatar pools are not modelled. `Connect` takes the id, name and avatar as parameters and requires the id to be unused.
- Console output and the text of log entries are not modelled. Log entries keep only their kind.
- The relay's shared client object is not modelled: one object is referenced from `clientsByWs`, `clientsById` and the room sets. The model keeps one value record per socket, and `clientsById` maps an id to the socket.
- The aliasing between a pending file request and the user list is not modelled. `addIncomingRequest` stores a reference to the live entry of `usersInRoom`, so a later `natType` update shows through the request's `from`. The model stores a copy of the entry, as it was when the request arrived.
- A rejected connection never enters the model's `sockets`. In the source it stays in `wss.clients` until its close completes, so a heartbeat tick in between could reach the `!client` branch of server.js:656-659 and terminate it. In the model every socket has a record (`SocketsTracked`), so `Dead` never takes that branch for a socket of the relay.
- `ws.terminate()` is modelled as the socket leaving the open state. The `close` event that follows is delivered as a separate `Close` call.
- The heartbeat pings every alive client without looking at its socket state, and `Pings` records each of those pings. The model does not capture what the `ws` library does with a ping on a socket that is no longer open (it sends nothing).
- The `setTimeout` deletions of `useFileTransfer` are the method `Expire`, called when the timer fires. Timing itself is not modelled.
- JavaScript numbers (sizes, progress, speed) are `real`. The WebRTC manager and the WebSocket store are not part of this model. Their calls made by `join` (`connect`), `leave` (`disconnect`, whose effects arrive as frames and socket events) and `manualDetectNat` (`testConnectivity`) are not modelled. The effects of `join` and `manualDetectNat` on the page's own state are modelled.
- Room.RoomPage.ManualDetectNat: detection is modelled as completing within the call, with its outcome as the parameter `failed`. In the source, `Failed` is written after an `await` onto the entry object found at the start, and frames handled in between are not modelled. It also treats a missing own id (`null` at first) as never matching. So a `room_joined` frame without a `clientId`, after which `find` would match an entry without an id, is not modelled.
- Room.RoomPage.ChannelProgress: takes the clock reading `Date.now()` as the parameter `now` and the rounded percentage `Math.round(bytes / totalBytes * 100)` as the parameter `progress`, so rounding and a zero `totalBytes` are not modelled. Which of `receivedBytes` and `sentBytes` is read is not modelled either: the caller passes the byte count.
- Room.RoomPage.ChannelEnded: the `Blob` download that follows the completion is not modelled.
- The data channel's `onOpen` callback is not modelled: it only logs and tests state, with an empty branch, so it changes nothing.
- The file dialog's `open()` and `reset()` are not modelled, including the `reset()` in `sender_complete`. The dialog's result arrives as `FileChosen`.
- The ICE-configuration watcher of `useRoom` is not modelled: it closes and re-initiates peer connections through the WebRTC manager after a timer. The candidate-log callbacks of the NAT detector are not modelled either, since they only log.
- Events of a peer connection or socket other than the latest one are not modelled. Each class handles the events of its current peer connection or socket only.
- The frame datatype `ServerMsg` cannot express a frame whose `payload` is missing altogether. In `useRoom` such a frame throws before the switch body changes anything, but the model reads it as a payload whose fields are all missing. It also cannot express a `null` entry inside `existing_users`.
- FileTransfer.FileTransfers.AddIncomingRequest: requires the sender to have an id. Its one caller passes a listed user found by id.
- Relay.SignalingServer.Detach, Relay.SignalingServer.AddToRoom, Room.RoomPage.UserFrame and Room.RoomPage.OtherFrame are inline code in the source, split out so each proof stays small.

## Findings

| source | as written | input that shows it | evidently intended | confidence | as-written member | corrected member |
|---|---|---|---|---|---|---|
| signaling-server/server.js:508 | `switch (message.type)` reads a property of whatever `JSON.parse` returned | a registered client sends the text frame `null`: it parses, and reading its `type` throws a TypeError out of the message handler, so no error frame is sent; an uncaught exception in an event handler usually ends the Node.js process, taking the whole relay down | a frame without a type gets the `Unknown message type` error like any other | not executed | Relay.SignalingServer.MessageAsWritten | Relay.SignalingServer.Message |
