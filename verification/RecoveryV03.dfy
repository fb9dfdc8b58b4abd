/**
 * Recovery of WFP/0.3 after a process stop once COMPLETE was accepted (src/receiver_v03.rs,
 * src/completion_receipt.rs).
 */
module RecoveryV03 {
  import opened Prelude
  import opened ChunkLayout
  import opened ChunkState
  import opened Frames
  import opened PayloadsV03
  import opened ReceiverV03
  import opened ReceiverInvariants
  import opened SenderV03
  import opened PrepareV03
  import opened TransferV03
  import opened Storage
  import opened SessionV03
  import opened PublicationV03
  import opened StabilisationV03

  // ----- the disks a stop can leave; `content` is the received file, which has the source's size and digest -----

  /** Everything received and recorded, nothing published yet. */
  ghost predicate AllReceived(env: Environment, d: Disk, o: FileOffer, source: Bytes, content: Bytes)
    requires HonestOffer(o, source)
  {
    && o.transferId !in d.receipts && o.filename !in d.finals
    && PartOf(d, o.filename) == Some(content) && SameDigest(env.H, source, content)
    && forall k: u64 :: k < ChunkCount(LayoutOf(o)) ==> Good(env.H, LayoutOf(o), source, ResidueOf(d, o.filename), k)
  }

  /** The receipt is durable, the file still has only its partial name. */
  ghost predicate Receipted(env: Environment, d: Disk, o: FileOffer, source: Bytes, content: Bytes)
    requires HonestOffer(o, source)
  {
    && HasReceipt(d, ReceiptFor(env.H, o, source)) && o.filename !in d.finals
    && PartOf(d, o.filename) == Some(content) && SameDigest(env.H, source, content)
  }

  ghost predicate Done(env: Environment, d: Disk, o: FileOffer, source: Bytes, content: Bytes)
    requires HonestOffer(o, source)
  {
    HasReceipt(d, ReceiptFor(env.H, o, source)) && FinalOf(d, o.filename) == Some(content)
        && SameDigest(env.H, source, content)
  }

  /** The states a receiver can stop in between an accepted COMPLETE and VERIFIED. */
  ghost predicate Recoverable(env: Environment, d: Disk, o: FileOffer, source: Bytes, content: Bytes)
    requires HonestOffer(o, source)
  {
    && WellFormed(d)
    && (AllReceived(env, d, o, source, content) || Receipted(env, d, o, source, content)
       || Done(env, d, o, source, content))
  }

  /** The transfer frames of the attempt that finds disk `d`; none when the OFFER is answered with VERIFIED. */
  ghost function FramesOf(env: Environment, d: Disk, o: FileOffer, source: Bytes): seq<Frame>
    requires HonestOffer(o, source)
  {
    if ReconcilePlan(env.H, env.platform, d, o).1 == Ok(NotReconciled)
    then SentFrames(env.H, LayoutOf(o), source,
                    PreparedRecords(env.H, LayoutOf(o), PartOf(d, o.filename), SnapshotOf(d, o.filename)))
    else []
  }

  lemma {:induction false} ContentChecks(env: Environment, o: FileOffer, source: Bytes, content: Bytes)
    requires HonestOffer(o, source) && SameDigest(env.H, source, content)
    ensures CheckFile(env.H, content, o.fileSize, env.H(source)).Ok?
  {
  }

  lemma {:induction false} DoneReconciles(env: Environment, d: Disk, o: FileOffer, source: Bytes, content: Bytes,
                                          cut: Cut)
    requires HonestOffer(o, source) && WellFormed(d) && Done(env, d, o, source, content)
    ensures FramesOf(env, d, o, source) == []
    ensures Attempt(env, d, o, source, cut) == (d, cut.offered && cut.replied)
  {
    hide TransferAttempt, Attempt, CheckFile, PublishPlan, SentFrames, PreparedRecords;
    AttemptCases(env, d, o, source, cut);
    ContentChecks(env, o, source, content);
    NoActions(d);
  }

  lemma {:induction false} ReceiptedReconciles(env: Environment, d: Disk, o: FileOffer, source: Bytes, content: Bytes,
                                               cut: Cut)
    requires HonestOffer(o, source) && WellFormed(d) && Receipted(env, d, o, source, content)
    ensures FramesOf(env, d, o, source) == []
    ensures Recoverable(env, Attempt(env, d, o, source, cut).0, o, source, content)
    ensures cut.offered && cut.replied && cut.storageSteps >= 8 ==>
              Attempt(env, d, o, source, cut).1 && Done(env, Attempt(env, d, o, source, cut).0, o, source, content)
  {
    hide TransferAttempt, Attempt, CheckFile, PublishPlan, SentFrames, PreparedRecords, Apply, ApplyAll, AllReceived;
    AttemptCases(env, d, o, source, cut);
    ContentChecks(env, o, source, content);
    var n := o.filename;
    var plan := PublishPlan(env.platform, n);
    assert ReconcilePlan(env.H, env.platform, d, o) == (plan, Ok(Reconciled));
    var k := Min(cut.storageSteps, |plan|);
    PublishPrefix(env.platform, d, n, k);
    PublishLength(env.platform, n);
    if cut.offered && k > 0 {
      DoneAfterPublication(env, d, ApplyAll(d, plan[..k]), o, source, content);
    }
  }

  lemma {:induction false} DoneAfterPublication(env: Environment, d: Disk, e: Disk, o: FileOffer, source: Bytes,
                                                content: Bytes)
    requires HonestOffer(o, source) && WellFormed(d) && Receipted(env, d, o, source, content)
            && PublishedFrom(d, e, o.filename)
    ensures WellFormed(e) && Done(env, e, o, source, content)
  {
    forall n | n in e.parts
      ensures e.parts[n] < |e.inodes|
    {
      if n != o.filename { assert n in e.parts - {o.filename}; }
    }
  }

  /** A chunk-complete inventory leaves nothing to send but COMPLETE. */
  lemma {:induction false} NothingToSend(env: Environment, d: Disk, o: FileOffer, source: Bytes, content: Bytes)
    requires HonestOffer(o, source) && AllReceived(env, d, o, source, content)
    ensures FramesOf(env, d, o, source) == [CompleteFrame(env.H(source))]
  {
    hide SentFrames, PreparedRecords, Good, Chunk;
    var l := LayoutOf(o);
    var records := PreparedRecords(env.H, l, PartOf(d, o.filename), SnapshotOf(d, o.filename));
    forall k: u64 | k < ChunkCount(l)
      ensures !Transmitted(env.H, l, source, records, k)
    {
      GoodIsInventoried(env.H, l, source, ResidueOf(d, o.filename), k);
    }
    NoFrames(env.H, l, source, records, 0);
    assert SentFrames(env.H, l, source, records) == [CompleteFrame(env.H(source))]
        by { SentWithout(env.H, l, source, records); }
  }

  lemma {:induction false} SentWithout(H: HashFunction, l: Layout, source: Bytes, records: Records)
    requires TransferFrames(H, l, source, records, 0) == []
    ensures SentFrames(H, l, source, records) == [CompleteFrame(H(source))]
  {
  }

  lemma {:induction false} NoFrames(H: HashFunction, l: Layout, source: Bytes, records: Records, i: nat)
    requires forall k: u64 :: k < ChunkCount(l) ==> !Transmitted(H, l, source, records, k)
    ensures TransferFrames(H, l, source, records, i) == []
    decreases ChunkCount(l) - i
  {
    hide DispositionOf, ChunkFrames;
    if i < ChunkCount(l) {
      NoFrames(H, l, source, records, i + 1);
      assert !Transmitted(H, l, source, records, i);
    }
  }

  /** Preparing a complete partial file changes nothing. */
  lemma {:induction false} PreparingCompleteFile(env: Environment, d: Disk, o: FileOffer, source: Bytes, content: Bytes)
    requires HonestOffer(o, source) && WellFormed(d) && AllReceived(env, d, o, source, content)
    ensures PreparedDisk(d, o.filename, o.fileSize) == d
    ensures PreparedState(env.H, d, o.filename, LayoutOf(o)).store == Store(content, SnapshotOf(d, o.filename))
  {
    hide PreparedRecords, Chunk, HashOf, Good;
    assert SetLength(content, o.fileSize) == content;
    assert d.inodes[d.parts[o.filename] := content] == d.inodes;
  }

  lemma {:induction false} CommitSameStore(d: Disk, n: Name, store: Store)
    requires n in d.parts && d.parts[n] < |d.inodes|
    requires store == Store(d.inodes[d.parts[n]], SnapshotOf(d, n))
    ensures SameFilesAsBefore(d, Committed(d, n, store), n)
  {
  }

  /** Equal except that an explicitly absent snapshot and a missing one are the same thing. */
  ghost predicate SameFilesAsBefore(d: Disk, e: Disk, n: Name) {
    && e.inodes == d.inodes && e.parts == d.parts && e.finals == d.finals && e.receipts == d.receipts
    && SnapshotOf(e, n) == SnapshotOf(d, n)
  }

  lemma {:induction false} AllReceivedIsAboutFiles(env: Environment, d: Disk, e: Disk, o: FileOffer, source: Bytes,
                                                   content: Bytes)
    requires HonestOffer(o, source) && WellFormed(d) && AllReceived(env, d, o, source, content)
    requires SameFilesAsBefore(d, e, o.filename)
    ensures WellFormed(e) && AllReceived(env, e, o, source, content)
  {
    hide Good, SnapshotOf, ChunkCount;
    assert ResidueOf(e, o.filename) == ResidueOf(d, o.filename);
  }

  /** A run of at most a COMPLETE frame, stopped or not, leaves the store as it is. */
  lemma {:induction false} CompleteOnly(H: HashFunction, s: State, hash: Digest, n: nat, stop: Option<Stop>)
    requires n <= 1
    ensures var p := RunUntil(H, s, [CompleteFrame(hash)][..n], stop, UnexpectedEof);
            p.state.store == s.store && (p.Completed? ==> p.fileHash == hash)
  {
    if n == 1 {
      assert [CompleteFrame(hash)][..n] == [CompleteFrame(hash)];
    }
  }

  /** Publication, stopped after any step, of a fully received file leaves a recoverable disk. */
  lemma {:induction false} StoppedPublication(env: Environment, d: Disk, o: FileOffer, source: Bytes, content: Bytes,
                                              cut: Cut)
    requires HonestOffer(o, source) && WellFormed(d) && AllReceived(env, d, o, source, content)
    ensures Recoverable(env, Publish(env, d, ReceiptFor(env.H, o, source), cut).0, o, source, content)
  {
    hide FinalizePlan, ApplyAll, AllReceived, SameDigest;
    AllReceivedFields(env, d, o, source, content);
    var r := ReceiptFor(env.H, o, source);
    var (actions, _) := FinalizePlan(env.H, env.platform, d, r);
    var k := Min(cut.storageSteps, |actions|);
    FinalizePrefix(env.H, env.platform, d, r, k);
    var e := ApplyAll(d, actions[..k]);
    if Unpublished(d, e, r) {
      if e.receipts == d.receipts {
        AllReceivedIsAboutFiles(env, d, e, o, source, content);
      } else {
        assert Receipted(env, e, o, source, content);
      }
    } else {
      ActionsKeepWellFormed(d, actions[..k]);
      assert Done(env, e, o, source, content);
    }
  }

  lemma {:induction false} AllReceivedFields(env: Environment, d: Disk, o: FileOffer, source: Bytes, content: Bytes)
    requires HonestOffer(o, source) && AllReceived(env, d, o, source, content)
    ensures PartOf(d, o.filename) == Some(content) && SameDigest(env.H, source, content) && |content| == o.fileSize
    ensures o.transferId !in d.receipts && o.filename !in d.finals
  {
  }

  /** The disk and verdict an attempt has when its transfer is over. */
  lemma {:induction false} ReceivedAgain(env: Environment, d: Disk, o: FileOffer, source: Bytes, content: Bytes,
                                         cut: Cut)
    returns (after: Disk)
    requires HonestOffer(o, source) && WellFormed(d) && AllReceived(env, d, o, source, content) && cut.offered
    ensures WellFormed(after) && AllReceived(env, after, o, source, content)
    ensures if CompletesTransfer(env, d, o, source, cut)
            then Attempt(env, d, o, source, cut) == Publish(env, after, ReceiptFor(env.H, o, source), cut)
            else Attempt(env, d, o, source, cut) == (after, false)
  {
    hide AllReceived, Transfer, PreparedState, Publish, Committed, PreparedDisk, Attempt, WellFormed;
    AttemptCases(env, d, o, source, cut);
    AllReceivedFields(env, d, o, source, content);
    PreparingCompleteFile(env, d, o, source, content);
    var l := LayoutOf(o);
    var s := PreparedState(env.H, d, o.filename, l);
    PreparedShapeOnly(env.H, d, o.filename, l);
    var end := Transfer(env.H, l, source, s, cut);
    after := d;
    if end.Some? {
      ShortTransfer(env, d, o, source, content, s, cut);
      PartIsThere(d, o.filename, content);
      CommitSameStore(d, o.filename, end.value.state.store);
      after := Committed(d, o.filename, end.value.state.store);
      AllReceivedIsAboutFiles(env, d, after, o, source, content);
    }
  }

  lemma {:induction false} PartIsThere(d: Disk, n: Name, content: Bytes)
    requires PartOf(d, n) == Some(content)
    ensures n in d.parts && d.parts[n] < |d.inodes| && d.inodes[d.parts[n]] == content
  {
  }

  lemma {:induction false} ShortTransfer(env: Environment, d: Disk, o: FileOffer, source: Bytes, content: Bytes,
                                         s: State, cut: Cut)
    requires HonestOffer(o, source) && AllReceived(env, d, o, source, content)
    requires s == PreparedState(env.H, d, o.filename, LayoutOf(o))
    requires InRange(LayoutOf(o), s.rx.records) && |s.rx.records| < U64_LIMIT
    requires s.rx.records == PreparedRecords(env.H, LayoutOf(o), PartOf(d, o.filename), SnapshotOf(d, o.filename))
    requires Transfer(env.H, LayoutOf(o), source, s, cut).Some?
    ensures var p := Transfer(env.H, LayoutOf(o), source, s, cut).value;
            p.state.store == s.store && (p.Completed? ==> p.fileHash == env.H(source))
  {
    hide Transfer, PreparedState, PreparedRecords, SentFrames, RunUntil, InRange, AllReceived, FrameBytes, Seen;
    AllReceivedFields(env, d, o, source, content);
    TransferIsPrefixRun(env.H, LayoutOf(o), source, s, cut);
    NothingToSend(env, d, o, source, content);
    var n := Seen(env.H, LayoutOf(o), source, s.rx.records, cut.transferBytes);
    CompleteOnly(env.H, s, env.H(source), n, cut.stop);
  }

  lemma {:induction false} OnlyCompleteIsNotData(hash: Digest)
    ensures CountOf([CompleteFrame(hash)], Data) == 0 && CountOf([], Data) == 0
  {
  }

  /** From a recoverable disk every attempt, however cut, leaves a recoverable disk and sends no DATA. */
  lemma {:induction false} RecoverableIsStable(env: Environment, d: Disk, o: FileOffer, source: Bytes, content: Bytes,
                                               cut: Cut)
    requires HonestOffer(o, source) && Recoverable(env, d, o, source, content)
    ensures Recoverable(env, Attempt(env, d, o, source, cut).0, o, source, content)
    ensures CountOf(FramesOf(env, d, o, source), Data) == 0
  {
    hide AllReceived, Receipted, Done, Attempt, Publish, FramesOf, CompletesTransfer;
    OnlyCompleteIsNotData(env.H(source));
    if Done(env, d, o, source, content) {
      DoneReconciles(env, d, o, source, content, cut);
    } else if Receipted(env, d, o, source, content) {
      ReceiptedReconciles(env, d, o, source, content, cut);
    } else {
      NothingToSend(env, d, o, source, content);
      if cut.offered {
        var after := ReceivedAgain(env, d, o, source, content, cut);
        StoppedPublication(env, after, o, source, content, cut);
      } else {
        AttemptCases(env, d, o, source, cut);
      }
    }
  }

  /**
   * From a recoverable disk the next uninterrupted attempt ends in VERIFIED with the received file published. If the
   * stop left it unpublished, its snapshot goes with the publication; a file that was already published is confirmed
   * without touching the disk, whatever snapshot the stop left beside it.
   */
  lemma {:induction false} RecoverableFinishes(env: Environment, d: Disk, o: FileOffer, source: Bytes, content: Bytes,
                                               cut: Cut)
    requires HonestOffer(o, source) && Recoverable(env, d, o, source, content) && Uncut(env, d, o, source, cut)
    ensures Attempt(env, d, o, source, cut).1
    ensures FinalOf(Attempt(env, d, o, source, cut).0, o.filename) == Some(content)
    ensures if o.filename in d.finals then Attempt(env, d, o, source, cut).0 == d
            else SnapshotDropped(d, Attempt(env, d, o, source, cut).0, o.filename)
  {
    hide AllReceived, Receipted, Attempt, Publish, EnoughBytes, HasReceipt, CompletesTransfer, SnapshotDropped,
         Deposited;
    AttemptSettles(env, d, o, source, cut);
    if Done(env, d, o, source, content) {
      DoneReconciles(env, d, o, source, content, cut);
    } else if Receipted(env, d, o, source, content) {
      ReceiptedReconciles(env, d, o, source, content, cut);
    } else {
      UncutTransfer(env, d, o, source, cut);
      var after := ReceivedAgain(env, d, o, source, content, cut);
      AllReceivedFields(env, after, o, source, content);
      PublishReceived(env, after, o, source, content, cut);
    }
  }

  // ----- an accepted COMPLETE leads to a recoverable disk -----

  /**
   * Crash-point recovery: once COMPLETE was accepted and the received file passes verification, stopping the receiver
   * after any number of storage steps leaves a recoverable disk.
   */
  lemma {:induction false} CrashIsRecoverable(env: Environment, d: Disk, o: FileOffer, source: Bytes, cut: Cut)
    requires HonestOffer(o, source) && WellFormed(d) && cut.offered
    requires o.transferId !in d.receipts && o.filename !in d.finals
    requires CompletesTransfer(env, d, o, source, cut)
    requires env.H(ReceivedFile(env, d, o, source, cut)) == env.H(source)
    ensures Recoverable(env, Attempt(env, d, o, source, cut).0, o, source, ReceivedFile(env, d, o, source, cut))
    ensures ReceivedFile(env, d, o, source, cut) == source <==> NoReuseCollision(env, d, o, source)
  {
    hide Transfer, Publish, Recoverable, PreparedState, NoReuseCollision, Good, Attempt, Committed, PreparedDisk;
    AttemptCases(env, d, o, source, cut);
    CompletedTransfer(env, d, o, source, cut);
    var l := LayoutOf(o);
    var t := Transfer(env.H, l, source, PreparedState(env.H, d, o.filename, l), cut).value.state;
    CommitTransfers(d, o.filename, o.fileSize, t.store);
    var after := Committed(PreparedDisk(d, o.filename, o.fileSize), o.filename, t.store);
    assert ResidueOf(after, o.filename) == Residue(Some(t.store.part), t.store.snapshot);
    StoppedPublication(env, after, o, source, t.store.part, cut);
  }
}
