/** What the browser-side composables share: the user entries they keep, the
    frames they receive from the relay (already parsed, one constructor per
    `type` they switch on), the entries of their message log, and the list
    operations both perform on the user list. */
module ClientModel {
  import opened Common

  /** A user entry `{ id, name, avatar, natType? }`. Any field may be missing
      (`undefined`), because entries are built from received payloads. */
  datatype User = User(id: Option<string>, name: Option<string>, avatar: Option<string>, natType: Option<string>)

  /** `FileMetadata`: name, size in bytes and MIME type of an offered file. */
  datatype FileMetadata = FileMetadata(name: string, size: real, mimeType: string)

  /** JavaScript truthiness of an optional string: present and not empty. */
  predicate Present(s: Option<string>)
  {
    s.Some? && s.value != ""
  }

  /** A parsed frame from the relay, by its `type`. The `file_transfer_*`
      frames are relayed point to point, so the relay has stamped their
      `senderId`. */
  datatype ServerMsg =
    | NullMessage                                        // the JSON text `null`
    | RoomJoined(clientId: Option<string>, user: User)   // payload `{ clientId, id, name, avatar }`
    | ExistingUsers(users: Option<seq<User>>)            // payload `{ users }`
    | UserJoined(user: User)
    | UserLeft(leftId: Option<string>)
    | NatTypeInfo(infoId: Option<string>, infoSender: Option<string>, reported: Option<string>)
    | FileTransferRequest(from: string, file: FileMetadata)
    | FileTransferAccepted(from: string)
    | FileTransferRejected(from: string)
    | FileTransferCancelled(from: string)
    | Rtc(rtcKind: string)                               // offer, answer, candidate
    | RoomMessage
    | Other(kind: Option<string>)

  /** A `MessageLog` entry, by its `type`. */
  datatype LogEntry =
    | Received(msg: ServerMsg)
    | Sent(kind: string)
    | LocalInfo
    | Error
    | LocalError

  /** No two entries share an id (a missing id counts as one value, as
      `undefined === undefined` does). */
  predicate UniqueIds(users: seq<User>)
  {
    forall i, j | 0 <= i < j < |users| :: users[i].id != users[j].id
  }

  predicate HasId(users: seq<User>, id: Option<string>)
  {
    exists k | 0 <= k < |users| :: users[k].id == id
  }

  /** The index of the first entry with this id, or -1 when there is none
      (`findIndex`). */
  function FindIndex(users: seq<User>, id: Option<string>): (r: int)
    ensures -1 <= r < |users|
    ensures r >= 0 ==> users[r].id == id && forall k | 0 <= k < r :: users[k].id != id
    ensures r == -1 <==> !HasId(users, id)
  {
    if users == [] then -1
    else if users[0].id == id then 0
    else
      var k := FindIndex(users[1..], id);
      if k < 0 then -1 else k + 1
  }

  /** The entries whose id differs, in their order (`filter`). */
  function WithoutId(users: seq<User>, id: Option<string>): (r: seq<User>)
    ensures forall u | u in r :: u in users && u.id != id
    ensures forall k | 0 <= k < |users| && users[k].id != id :: users[k] in r
    ensures !HasId(r, id)
    ensures UniqueIds(users) ==> UniqueIds(r)
  {
    if users == [] then []
    else if users[0].id == id then WithoutId(users[1..], id)
    else [users[0]] + WithoutId(users[1..], id)
  }

  /** Filtering out an id that is not listed changes nothing. */
  lemma {:induction false} WithoutAbsentId(users: seq<User>, id: Option<string>)
    requires !HasId(users, id)
    ensures WithoutId(users, id) == users
  {
    if users != [] {
      assert users[0].id != id;
      assert !HasId(users[1..], id) by {
        forall k | 0 <= k < |users| - 1 ensures users[1..][k].id != id {
          assert users[k + 1].id != id;
        }
      }
      WithoutAbsentId(users[1..], id);
    }
  }

  /** Filtering keeps the survivors in their order: filtering a list in two
      pieces and joining the results is filtering the whole. */
  lemma {:induction false} WithoutIdKeepsOrder(front: seq<User>, back: seq<User>, id: Option<string>)
    ensures WithoutId(front + back, id) == WithoutId(front, id) + WithoutId(back, id)
  {
    if front == [] {
      assert front + back == back;
    } else {
      WithoutIdKeepsOrder(front[1..], back, id);
      assert (front + back)[1..] == front[1..] + back;
      WithoutIdHead(front, back, id);
    }
  }

  /** One step of `WithoutIdKeepsOrder`: the head of `front` is handled
      alike in the whole and in `front`. */
  lemma WithoutIdHead(front: seq<User>, back: seq<User>, id: Option<string>)
    requires front != []
    requires WithoutId(front[1..] + back, id) == WithoutId(front[1..], id) + WithoutId(back, id)
    requires (front + back)[1..] == front[1..] + back
    ensures WithoutId(front + back, id) == WithoutId(front, id) + WithoutId(back, id)
  {
    var tail := WithoutId(front[1..], id) + WithoutId(back, id);
    if front[0].id != id {
      assert [front[0]] + tail == ([front[0]] + WithoutId(front[1..], id)) + WithoutId(back, id);
    }
  }
}
