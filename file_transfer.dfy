/** app/composables/useFileTransfer.ts: the per-peer transfer records and the
    pending incoming requests of one browser, updated in place by the eight
    mutators of the composable. */
module FileTransfer {
  import opened Common
  import opened ClientModel

  datatype TransferState = Requesting | Transferring | Completed | Rejected | Failed

  /** `TransferProgress`; `progress` is a percentage and `speed` is in bytes
      per second, both JavaScript numbers. */
  datatype TransferProgress = TransferProgress(
    peerId: string, state: TransferState, progress: real,
    fileName: string, fileSize: real, isSender: bool, speed: real)

  datatype TransferRequest = TransferRequest(from: User, file: FileMetadata)

  /** The field assignments the mutators make to an existing record. */
  datatype Update =
    | SetSpeed(bytesPerSecond: real)   // updateTransferSpeed
    | SetProgress(percent: real)       // updateTransferProgress
    | Complete                         // completeTransfer
    | Reject                           // rejectTransfer
    | Fail                             // failTransfer

  /** The record `createTransferState` stores: awaiting the answer, nothing
      transferred yet. */
  function NewTransfer(peerId: string, file: FileMetadata, isSender: bool): TransferProgress
  {
    TransferProgress(peerId, Requesting, 0.0, file.name, file.size, isSender, 0.0)
  }

  /** Whose transfer a record describes and of what file. */
  function Subject(t: TransferProgress): (string, string, real, bool)
  {
    (t.peerId, t.fileName, t.fileSize, t.isSender)
  }

  /** One update applied to a record. The transfer it describes never changes;
      a progress report (re)starts the transfer, completion pins progress at
      100, and a failure leaves a completed transfer alone. */
  function Apply(t: TransferProgress, u: Update): (r: TransferProgress)
    ensures Subject(r) == Subject(t)
    ensures r.state == match u
      case SetSpeed(_) => t.state
      case SetProgress(_) => Transferring
      case Complete => Completed
      case Reject => Rejected
      case Fail => if t.state == Completed then Completed else Failed
    ensures r.progress == match u
      case SetProgress(p) => p
      case Complete => 100.0
      case _ => t.progress
    ensures r.speed == if u.SetSpeed? then u.bytesPerSecond else t.speed
  {
    match u
    case SetSpeed(bps) => t.(speed := bps)
    case SetProgress(p) => t.(progress := p, state := Transferring)
    case Complete => t.(state := Completed, progress := 100.0)
    case Reject => t.(state := Rejected)
    case Fail => if t.state != Completed then t.(state := Failed) else t
  }

  /** The map after updating `peerId`'s record, if there is one: no other
      record changes and no key is added or removed. */
  function Updated(states: map<string, TransferProgress>, peerId: string, u: Update): (r: map<string, TransferProgress>)
    ensures r.Keys == states.Keys
    ensures forall p | p in states && p != peerId :: r[p] == states[p]
    ensures peerId in states ==> r[peerId] == Apply(states[peerId], u)
  {
    if peerId in states then states[peerId := Apply(states[peerId], u)] else states
  }

  /** Several updates in order. */
  function ApplyAll(t: TransferProgress, us: seq<Update>): TransferProgress
    decreases us
  {
    if us == [] then t else ApplyAll(Apply(t, us[0]), us[1..])
  }

  /** A completed transfer stays completed through any number of speed
      reports, repeated completions and failures (a late data-channel close
      or a cancel arriving after the end); only a progress report or a
      rejection moves it. */
  lemma {:induction false} CompletedIsSticky(t: TransferProgress, us: seq<Update>)
    requires t.state == Completed
    requires forall k | 0 <= k < |us| :: !us[k].SetProgress? && !us[k].Reject?
    ensures ApplyAll(t, us).state == Completed
    ensures Subject(ApplyAll(t, us)) == Subject(t)
    decreases us
  {
    if us != [] {
      CompletedIsSticky(Apply(t, us[0]), us[1..]);
    }
  }

  /** Progress pinned at 100 by a completion stays there until the next
      progress report. */
  lemma {:induction false} FullStaysFull(t: TransferProgress, us: seq<Update>)
    requires t.progress == 100.0
    requires forall k | 0 <= k < |us| :: !us[k].SetProgress?
    ensures ApplyAll(t, us).progress == 100.0
    decreases us
  {
    if us != [] {
      FullStaysFull(Apply(t, us[0]), us[1..]);
    }
  }

  class FileTransfers {
    var transferStates: map<string, TransferProgress>
    var incomingRequests: map<string, TransferRequest>

    /** Each record is stored under its own peer, each request under the id
        of the user who sent it. */
    ghost predicate Valid()
      reads this
    {
      && (forall p | p in transferStates :: transferStates[p].peerId == p)
      && (forall p | p in incomingRequests :: incomingRequests[p].from.id == Some(p))
    }

    constructor ()
      ensures transferStates == map[] && incomingRequests == map[]
      ensures Valid()
    {
      transferStates, incomingRequests := map[], map[];
    }

    /** `addIncomingRequest`: keyed by the sender's id, replacing an earlier
        request from the same user. */
    method AddIncomingRequest(from: User, file: FileMetadata)
      requires Valid()
      requires from.id.Some?
      modifies this
      ensures incomingRequests == old(incomingRequests)[from.id.value := TransferRequest(from, file)]
      ensures transferStates == old(transferStates)
      ensures Valid()
    {
      incomingRequests := incomingRequests[from.id.value := TransferRequest(from, file)];
    }

    /** `removeIncomingRequest`: only that key goes. */
    method RemoveIncomingRequest(peerId: string)
      requires Valid()
      modifies this
      ensures incomingRequests == old(incomingRequests) - {peerId}
      ensures transferStates == old(transferStates)
      ensures Valid()
    {
      incomingRequests := incomingRequests - {peerId};
    }

    /** `createTransferState`: a fresh record replaces any earlier one. */
    method CreateTransferState(peerId: string, file: FileMetadata, isSender: bool)
      requires Valid()
      modifies this
      ensures transferStates == old(transferStates)[peerId := NewTransfer(peerId, file, isSender)]
      ensures incomingRequests == old(incomingRequests)
      ensures Valid()
    {
      transferStates := transferStates[peerId := TransferProgress(peerId, Requesting, 0.0, file.name, file.size, isSender, 0.0)];
    }

    /** `updateTransferSpeed`. */
    method UpdateTransferSpeed(peerId: string, bytesPerSecond: real)
      requires Valid()
      modifies this
      ensures transferStates == Updated(old(transferStates), peerId, SetSpeed(bytesPerSecond))
      ensures incomingRequests == old(incomingRequests)
      ensures Valid()
    {
      if peerId in transferStates {
        var state := transferStates[peerId];
        transferStates := transferStates[peerId := state.(speed := bytesPerSecond)];
      }
    }

    /** `updateTransferProgress`. */
    method UpdateTransferProgress(peerId: string, progress: real)
      requires Valid()
      modifies this
      ensures transferStates == Updated(old(transferStates), peerId, SetProgress(progress))
      ensures incomingRequests == old(incomingRequests)
      ensures Valid()
    {
      if peerId in transferStates {
        var state := transferStates[peerId];
        state := state.(progress := progress);
        if state.state != Transferring {
          state := state.(state := Transferring);
        }
        transferStates := transferStates[peerId := state];
      }
    }

    /** `completeTransfer`; the deletion it schedules is `Expire`. */
    method CompleteTransfer(peerId: string)
      requires Valid()
      modifies this
      ensures transferStates == Updated(old(transferStates), peerId, Complete)
      ensures incomingRequests == old(incomingRequests)
      ensures Valid()
    {
      if peerId in transferStates {
        var state := transferStates[peerId];
        state := state.(state := Completed);
        state := state.(progress := 100.0);
        transferStates := transferStates[peerId := state];
      }
    }

    /** `rejectTransfer`; the deletion it schedules is `Expire`. */
    method RejectTransfer(peerId: string)
      requires Valid()
      modifies this
      ensures transferStates == Updated(old(transferStates), peerId, Reject)
      ensures incomingRequests == old(incomingRequests)
      ensures Valid()
    {
      if peerId in transferStates {
        var state := transferStates[peerId];
        transferStates := transferStates[peerId := state.(state := Rejected)];
      }
    }

    /** `failTransfer`; the deletion it schedules is `Expire`. */
    method FailTransfer(peerId: string)
      requires Valid()
      modifies this
      ensures transferStates == Updated(old(transferStates), peerId, Fail)
      ensures incomingRequests == old(incomingRequests)
      ensures Valid()
    {
      if peerId in transferStates && transferStates[peerId].state != Completed {
        var state := transferStates[peerId];
        transferStates := transferStates[peerId := state.(state := Failed)];
      }
    }

    /** The five-second timer that `completeTransfer`, `rejectTransfer` and
        `failTransfer` start: it deletes whatever record the peer has by then. */
    method Expire(peerId: string)
      requires Valid()
      modifies this
      ensures transferStates == old(transferStates) - {peerId}
      ensures incomingRequests == old(incomingRequests)
      ensures Valid()
    {
      transferStates := transferStates - {peerId};
    }
  }
}
