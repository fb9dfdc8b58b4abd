/**
 * The receiver's storage: names, inodes, and the ordered steps of finalisation and reconciliation
 * (src/receiver_v03.rs, src/completion_receipt.rs, src/receiver_storage.rs).
 */
module Storage {
  import opened Prelude
  import opened Files
  import opened PayloadsV03
  import opened ReceiverV03

  type Name = Bytes

  datatype Receipt = Receipt(transferId: TransferId, filename: Name, fileSize: u64, blake3: Digest)

  datatype StoredReceipt = UnreadableReceipt | ReceiptText(receipt: Receipt)

  /** Partial and final names refer to inodes, so one file may have both names. */
  datatype Disk = Disk(
    inodes: seq<Bytes>,
    parts: map<Name, nat>,
    finals: map<Name, nat>,
    snapshots: map<Name, Snapshot>,
    snapshotTemporaries: set<Name>,
    receipts: map<TransferId, StoredReceipt>,
    receiptTemporaries: map<TransferId, StoredReceipt>)

  ghost predicate WellFormed(d: Disk) {
    && (forall n :: n in d.parts ==> d.parts[n] < |d.inodes|)
    && (forall n :: n in d.finals ==> d.finals[n] < |d.inodes|)
  }

  function PartOf(d: Disk, n: Name): Option<Bytes> {
    if n in d.parts && d.parts[n] < |d.inodes| then Some(d.inodes[d.parts[n]]) else None
  }

  function FinalOf(d: Disk, n: Name): Option<Bytes> {
    if n in d.finals && d.finals[n] < |d.inodes| then Some(d.inodes[d.finals[n]]) else None
  }

  function SnapshotOf(d: Disk, n: Name): Snapshot {
    if n in d.snapshots then d.snapshots[n] else NoSnapshot
  }

  // ----- storage steps -----

  /** On Windows publication by hard link is followed by removing the partial name; on Linux both names stay. */
  datatype Platform = Linux | Windows

  datatype Action =
    | RemoveReceiptTemporary(t: TransferId)
    | CreateReceiptTemporary(t: TransferId)
    | FillReceiptTemporary(t: TransferId, receipt: Receipt)
    | PublishReceipt(t: TransferId)
    | LinkFinal(n: Name)
    | UnlinkPart(n: Name)
    | RemoveSnapshot(n: Name)
    | RemoveSnapshotTemporary(n: Name)

  function Apply(d: Disk, a: Action): Disk {
    match a
    case RemoveReceiptTemporary(t) => d.(receiptTemporaries := d.receiptTemporaries - {t})
    case CreateReceiptTemporary(t) => d.(receiptTemporaries := d.receiptTemporaries[t := UnreadableReceipt])
    case FillReceiptTemporary(t, r) => d.(receiptTemporaries := d.receiptTemporaries[t := ReceiptText(r)])
    case PublishReceipt(t) =>
      if t in d.receiptTemporaries && t !in d.receipts
      then d.(receipts := d.receipts[t := d.receiptTemporaries[t]], receiptTemporaries := d.receiptTemporaries - {t})
      else d
    case LinkFinal(n) => if n in d.parts && n !in d.finals then d.(finals := d.finals[n := d.parts[n]]) else d
    case UnlinkPart(n) => d.(parts := d.parts - {n})
    case RemoveSnapshot(n) => d.(snapshots := d.snapshots - {n})
    case RemoveSnapshotTemporary(n) => d.(snapshotTemporaries := d.snapshotTemporaries - {n})
  }

  function ApplyAll(d: Disk, actions: seq<Action>): Disk
    decreases |actions|
  {
    if |actions| == 0 then d else ApplyAll(Apply(d, actions[0]), actions[1..])
  }

  lemma {:induction false} ApplyAppend(d: Disk, a: seq<Action>, b: seq<Action>)
    ensures ApplyAll(d, a + b) == ApplyAll(ApplyAll(d, a), b)
    decreases |a|
  {
    hide Apply;
    if |a| == 0 {
      assert a + b == b;
    } else {
      assert (a + b)[0] == a[0] && (a + b)[1..] == a[1..] + b;
      ApplyAppend(Apply(d, a[0]), a[1..], b);
    }
  }

  // ----- completion receipts -----

  datatype ReceiptError = CannotRead | CannotCreate | InvalidTransferId | ConflictingReceipt

  function ReadReceipt(d: Disk, t: TransferId): Result<Receipt, ReceiptError>
    requires t in d.receipts
  {
    match d.receipts[t]
    case UnreadableReceipt => Err(CannotRead)
    case ReceiptText(r) => if r.transferId != t then Err(InvalidTransferId) else Ok(r)
  }

  /** What a writer that finds the receipt name taken returns. */
  function CompareReceipt(d: Disk, r: Receipt): Result<Unit, ReceiptError> {
    if r.transferId !in d.receipts then Err(CannotRead)
    else
      match ReadReceipt(d, r.transferId)
      case Err(e) => Err(e)
      case Ok(existing) => if existing == r then Ok(Unit.Unit) else Err(ConflictingReceipt)
  }

  /** A receipt already there is only ever compared; a new one is written aside and renamed into place. */
  function ReceiptPlan(d: Disk, r: Receipt): (seq<Action>, Result<Unit, ReceiptError>) {
    var t := r.transferId;
    if t in d.receipts then ([], CompareReceipt(d, r))
    else
      ([RemoveReceiptTemporary(t), CreateReceiptTemporary(t), FillReceiptTemporary(t, r), PublishReceipt(t)],
          Ok(Unit.Unit))
  }

  // ----- verification -----

  datatype VerificationError = FileSizeMismatch(expected: u64, actual: nat) | FileHashMismatch

  function CheckFile(H: HashFunction, content: Bytes, size: u64, hash: Digest): Result<Unit, VerificationError> {
    if |content| != size then Err(FileSizeMismatch(size, |content|))
    else if H(content) != hash then Err(FileHashMismatch)
    else Ok(Unit.Unit)
  }

  const FINAL_VERIFICATION_BUFFER_SIZE: nat := 64 * 1024

  /** The hashing loop over a physical file. */
  method HashPhysicalFile(H: HashFunction, content: Bytes, size: u64, hash: Digest)
    returns (r: Result<Unit, VerificationError>)
    ensures r == CheckFile(H, content, size, hash)
  {
    var file := new ReadFile(content);
    var hasher := file.ReadToEnd(FINAL_VERIFICATION_BUFFER_SIZE);
    assert content[0..] == content;
    if |hasher| != size {
      return Err(FileSizeMismatch(size, |hasher|));
    }
    if H(hasher) != hash {
      return Err(FileHashMismatch);
    }
    return Ok(Unit.Unit);
  }

  // ----- finalisation -----

  datatype FinalizeError =
    | Verification(verification: VerificationError)
    | ReceiptFailed(receipt: ReceiptError)
    | DestinationExists
    | PublicationFailed

  datatype PublishOutcome = Linked | NameTaken | AnotherFile

  /** Publishing a verified partial file and dropping its snapshot. */
  function PublishPlan(platform: Platform, n: Name): seq<Action> {
    [LinkFinal(n)] + (if platform == Windows then [UnlinkPart(n)] else [])
        + [RemoveSnapshot(n), RemoveSnapshotTemporary(n)]
  }

  /** Verify, make the receipt durable, publish without replacing, clean up: in that order. */
  function FinalizePlan(H: HashFunction, platform: Platform, d: Disk, r: Receipt)
    : (seq<Action>, Result<Unit, FinalizeError>)
    requires PartOf(d, r.filename).Some?
  {
    match CheckFile(H, PartOf(d, r.filename).value, r.fileSize, r.blake3)
    case Err(e) => ([], Err(Verification(e)))
    case Ok(_) =>
      var (receiptActions, written) := ReceiptPlan(d, r);
      if written.Err? then (receiptActions, Err(ReceiptFailed(written.error)))
      else if r.filename in d.finals then (receiptActions, Err(DestinationExists))
      else (receiptActions + PublishPlan(platform, r.filename), Ok(Unit.Unit))
  }

  // ----- reconciliation -----

  datatype ReconcileOutcome = Reconciled | NotReconciled

  datatype ReconcileError =
    | UnreadableCompletion(receipt: ReceiptError)
    | ConflictingCompletion
    | NotPublished(publish: PublishOutcome)

  /** What an OFFER for a transfer with a receipt is answered with, before anything is prepared. */
  function ReconcilePlan(H: HashFunction, platform: Platform, d: Disk, o: FileOffer)
    : (seq<Action>, Result<ReconcileOutcome, ReconcileError>)
  {
    if o.transferId !in d.receipts then ([], Ok(NotReconciled))
    else
      match ReadReceipt(d, o.transferId)
      case Err(e) => ([], Err(UnreadableCompletion(e)))
      case Ok(r) =>
        if r.filename != o.filename || r.fileSize != o.fileSize then ([], Err(ConflictingCompletion))
        else if o.filename in d.finals then
          if FinalOf(d, o.filename).Some? && CheckFile(H, FinalOf(d, o.filename).value, r.fileSize, r.blake3).Ok?
          then ([], Ok(Reconciled))
          else ([], Ok(NotReconciled))
        else if PartOf(d, o.filename).Some? then
          if CheckFile(H, PartOf(d, o.filename).value, r.fileSize, r.blake3).Ok?
          then (PublishPlan(platform, o.filename), Ok(Reconciled))
          else ([], Ok(NotReconciled))
        else ([], Ok(NotReconciled))
  }

  // ----- the code: effects in order on one disk -----

  class DiskHandle {
    var disk: Disk
    /** Every effect so far; a process stop leaves the disk after some prefix of them. */
    ghost var performed: seq<Action>

    constructor (disk: Disk)
      ensures this.disk == disk && performed == []
    {
      this.disk := disk;
      performed := [];
    }

    method Perform(a: Action)
      modifies this
      ensures disk == Apply(old(disk), a) && performed == old(performed) + [a]
    {
      disk := Apply(disk, a);
      performed := performed + [a];
    }

    method WriteCompletionReceipt(r: Receipt) returns (result: Result<Unit, ReceiptError>)
      modifies this
      ensures result == ReceiptPlan(old(disk), r).1
      ensures performed == old(performed) + ReceiptPlan(old(disk), r).0
      ensures disk == ApplyAll(old(disk), ReceiptPlan(old(disk), r).0)
    {
      var t := r.transferId;
      ghost var plan := ReceiptPlan(disk, r).0;
      if t in disk.receipts {
        return CompareReceipt(disk, r);
      }
      Perform(RemoveReceiptTemporary(t));
      var created := t !in disk.receiptTemporaries;
      if created {
        Perform(CreateReceiptTemporary(t));
        Perform(FillReceiptTemporary(t, r));
      }
      assert created;
      var free := t !in disk.receipts;
      if free {
        Perform(PublishReceipt(t));
      }
      assert free;
      hide Apply;
      FourSteps(old(disk), plan);
      return if !created then Err(CannotCreate) else if free then Ok(Unit.Unit) else CompareReceipt(disk, r);
    }

    /**
     * Link without replacing, check that the final name is the verified file, drop the partial name, drop the
     * snapshot.
     */
    method PublishVerified(platform: Platform, n: Name) returns (r: PublishOutcome)
      requires n in disk.parts
      modifies this
      ensures n in old(disk).finals ==> r == NameTaken && disk == old(disk) && performed == old(performed)
      ensures n !in old(disk).finals ==>
                && r == Linked
                && performed == old(performed) + PublishPlan(platform, n)
                && disk == ApplyAll(old(disk), PublishPlan(platform, n))
    {
      ghost var plan := PublishPlan(platform, n);
      if n in disk.finals {
        return NameTaken;
      }
      var source := disk.parts[n];
      Perform(LinkFinal(n));
      var identical := n in disk.finals && disk.finals[n] == source;
      if identical {
        hide Apply;
        if platform == Windows {
          Perform(UnlinkPart(n));
        }
        Perform(RemoveSnapshot(n));
        Perform(RemoveSnapshotTemporary(n));
        if platform == Windows {
          FourSteps(old(disk), plan);
        } else {
          ThreeSteps(old(disk), plan);
        }
      }
      return if identical then Linked else AnotherFile;
    }

    method Finalize(H: HashFunction, platform: Platform, r: Receipt) returns (result: Result<Unit, FinalizeError>)
      requires PartOf(disk, r.filename).Some?
      modifies this
      ensures result == FinalizePlan(H, platform, old(disk), r).1
      ensures performed == old(performed) + FinalizePlan(H, platform, old(disk), r).0
      ensures disk == ApplyAll(old(disk), FinalizePlan(H, platform, old(disk), r).0)
    {
      hide Apply, PublishPlan;
      var verified := HashPhysicalFile(H, PartOf(disk, r.filename).value, r.fileSize, r.blake3);
      if verified.Err? {
        return Err(Verification(verified.error));
      }
      ghost var receiptActions := ReceiptPlan(disk, r).0;
      var written := WriteCompletionReceipt(r);
      if written.Err? {
        return Err(ReceiptFailed(written.error));
      }
      ReceiptPlanKeepsFiles(old(disk), r);
      var published := PublishVerified(platform, r.filename);
      if published != Linked {
        return Err(if published == NameTaken then DestinationExists else PublicationFailed);
      }
      ApplyAppend(old(disk), receiptActions, PublishPlan(platform, r.filename));
      return Ok(Unit.Unit);
    }

    method ReconcileCompletedTransfer(H: HashFunction, platform: Platform, o: FileOffer)
      returns (result: Result<ReconcileOutcome, ReconcileError>)
      modifies this
      ensures result == ReconcilePlan(H, platform, old(disk), o).1
      ensures performed == old(performed) + ReconcilePlan(H, platform, old(disk), o).0
      ensures disk == ApplyAll(old(disk), ReconcilePlan(H, platform, old(disk), o).0)
    {
      hide Apply, PublishPlan;
      if o.transferId !in disk.receipts {
        return Ok(NotReconciled);
      }
      var receipt := ReadReceipt(disk, o.transferId);
      if receipt.Err? {
        return Err(UnreadableCompletion(receipt.error));
      }
      var r := receipt.value;
      if r.filename != o.filename || r.fileSize != o.fileSize {
        return Err(ConflictingCompletion);
      }
      if o.filename in disk.finals {
        var final := FinalOf(disk, o.filename);
        if final.None? {
          return Ok(NotReconciled);
        }
        var verified := HashPhysicalFile(H, final.value, r.fileSize, r.blake3);
        return Ok(if verified.Ok? then Reconciled else NotReconciled);
      }
      var part := PartOf(disk, o.filename);
      if part.Some? {
        var verified := HashPhysicalFile(H, part.value, r.fileSize, r.blake3);
        if verified.Err? {
          return Ok(NotReconciled);
        }
        var published := PublishVerified(platform, o.filename);
        return if published == Linked then Ok(Reconciled) else Err(NotPublished(published));
      }
      return Ok(NotReconciled);
    }
  }

  lemma {:induction false} ThreeSteps(d: Disk, p: seq<Action>)
    requires |p| == 3
    ensures ApplyAll(d, p) == Apply(Apply(Apply(d, p[0]), p[1]), p[2])
  {
    hide Apply;
    var q, r, e := p[1..], p[2..], p[3..];
    assert q[1..] == r && r[1..] == e;
    assert ApplyAll(Apply(Apply(Apply(d, p[0]), p[1]), p[2]), e) == Apply(Apply(Apply(d, p[0]), p[1]), p[2]);
    assert ApplyAll(Apply(Apply(d, p[0]), p[1]), r) == ApplyAll(Apply(Apply(Apply(d, p[0]), p[1]), p[2]), e);
  }

  lemma {:induction false} FourSteps(d: Disk, p: seq<Action>)
    requires |p| == 4
    ensures ApplyAll(d, p) == Apply(Apply(Apply(Apply(d, p[0]), p[1]), p[2]), p[3])
  {
    hide Apply;
    ThreeSteps(Apply(d, p[0]), p[1..]);
  }

  /** Writing a receipt touches no file of a transfer. */
  ghost predicate SameFiles(d: Disk, e: Disk) {
    && e.inodes == d.inodes && e.parts == d.parts && e.finals == d.finals
    && e.snapshots == d.snapshots && e.snapshotTemporaries == d.snapshotTemporaries
  }

  predicate IsReceiptAction(a: Action) {
    a.RemoveReceiptTemporary? || a.CreateReceiptTemporary? || a.FillReceiptTemporary? || a.PublishReceipt?
  }

  lemma {:induction false} ReceiptActionsKeepFiles(d: Disk, actions: seq<Action>)
    requires forall a :: a in actions ==> IsReceiptAction(a)
    ensures SameFiles(d, ApplyAll(d, actions))
    decreases |actions|
  {
    if |actions| > 0 {
      assert IsReceiptAction(actions[0]);
      ReceiptActionsKeepFiles(Apply(d, actions[0]), actions[1..]);
    }
  }

  lemma {:induction false} ReceiptPlanKeepsFiles(d: Disk, r: Receipt)
    ensures SameFiles(d, ApplyAll(d, ReceiptPlan(d, r).0))
  {
    hide Apply, ApplyAll, SameFiles;
    ReceiptActionsKeepFiles(d, ReceiptPlan(d, r).0);
  }
}
