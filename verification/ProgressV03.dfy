/** What a sequence of WFP/0.3 attempts keeps: received chunks, and a received file, are never sent again. */
module ProgressV03 {
  import opened Prelude
  import opened ChunkLayout
  import opened ChunkState
  import opened Frames
  import opened PayloadsV03
  import opened ReceiverV03
  import opened ReceiverInvariants
  import opened SenderV03
  import opened PrepareV03
  import opened TransferV03
  import opened Storage
  import opened SessionV03
  import opened PublicationV03
  import opened StabilisationV03
  import opened RecoveryV03
  import opened SafetyV03

  /** The disk after a number of attempts, each cut in its own way. */
  ghost function AfterAttempts(env: Environment, d: Disk, o: FileOffer, source: Bytes, cuts: seq<Cut>): Disk
    requires HonestOffer(o, source)
    decreases |cuts|
  {
    if |cuts| == 0 then d else AfterAttempts(env, Attempt(env, d, o, source, cuts[0]).0, o, source, cuts[1..])
  }

  // ----- one attempt -----

  /** Publication either leaves the partial file and its snapshot alone or publishes that file. */
  lemma {:induction false} PublishKeepsResidue(env: Environment, after: Disk, r: Receipt, cut: Cut)
    requires WellFormed(after) && PartOf(after, r.filename).Some?
    ensures var e := Publish(env, after, r, cut).0;
            && WellFormed(e)
            && (if e.finals == after.finals then ResidueOf(e, r.filename) == ResidueOf(after, r.filename)
                else FinalOf(e, r.filename) == PartOf(after, r.filename))
  {
    hide FinalizePlan, ApplyAll, WellFormed, HasReceipt;
    var (actions, _) := FinalizePlan(env.H, env.platform, after, r);
    var k := Min(cut.storageSteps, |actions|);
    FinalizePrefix(env.H, env.platform, after, r, k);
    ActionsKeepWellFormed(after, actions[..k]);
    var e := ApplyAll(after, actions[..k]);
    if !Unpublished(after, e, r) {
      assert r.filename in e.finals && r.filename !in after.finals;
    }
  }

  lemma {:induction false} PreparedWellFormed(d: Disk, n: Name, size: u64)
    requires WellFormed(d)
    ensures WellFormed(PreparedDisk(d, n, size)) && PreparedDisk(d, n, size).finals == d.finals
  {
  }

  /** What an attempt's transfer leaves on the disk: the residue of the cut session, unless it is published. */
  lemma {:induction false} TransferAttemptLeaves(env: Environment, d: Disk, o: FileOffer, source: Bytes, cut: Cut)
    returns (r: Residue)
    requires HonestOffer(o, source) && WellFormed(d)
    ensures r == AfterCut(env.H, LayoutOf(o), source, ResidueOf(d, o.filename), CutInAttempt(env, d, o, source, cut))
    ensures var e := TransferAttempt(env, d, o, source, cut).0;
            && WellFormed(e)
            && (if e.finals == d.finals then ResidueOf(e, o.filename) == r else FinalOf(e, o.filename) == r.part)
  {
    hide Transfer, PreparedState, Publish, Committed, PreparedDisk, AfterCut, CutOf, WellFormed;
    var l, n := LayoutOf(o), o.filename;
    var s := PreparedState(env.H, d, n, l);
    PreparedShapeOnly(env.H, d, n, l);
    PreparedWellFormed(d, n, o.fileSize);
    var end := Transfer(env.H, l, source, s, cut);
    r := AfterCut(env.H, l, source, ResidueOf(d, n), CutInAttempt(env, d, o, source, cut));
    if end.None? {
      PreparingLeavesCut(env, d, o, source);
    } else {
      TransferLeavesCut(env, d, o, source, cut);
      CommitTransfers(d, n, o.fileSize, end.value.state.store);
      if end.value.Completed? {
        PublishKeepsResidue(env, Committed(PreparedDisk(d, n, o.fileSize), n, end.value.state.store),
                            Receipt(o.transferId, n, o.fileSize, end.value.fileHash), cut);
      }
    }
  }

  /** The cut of an attempt's transfer; before its first frame when no ACCEPT reaches the receiver. */
  ghost function CutInAttempt(env: Environment, d: Disk, o: FileOffer, source: Bytes, cut: Cut): SessionCut
    requires HonestOffer(o, source)
  {
    PreparedSmall(env.H, d, o.filename, LayoutOf(o));
    var s := PreparedState(env.H, d, o.filename, LayoutOf(o));
    if Transfer(env.H, LayoutOf(o), source, s, cut).Some? then CutOf(env.H, LayoutOf(o), source, s.rx.records, cut)
    else SessionCut(0, None)
  }

  /** A reconciliation stopped after some steps leaves the partial file alone or has added the final name. */
  lemma {:induction false} ReconcileKeepsResidue(env: Environment, d: Disk, o: FileOffer, k: nat)
    requires WellFormed(d) && k <= |ReconcilePlan(env.H, env.platform, d, o).0|
    ensures var e := ApplyAll(d, ReconcilePlan(env.H, env.platform, d, o).0[..k]);
            WellFormed(e) && (e.finals == d.finals ==> ResidueOf(e, o.filename) == ResidueOf(d, o.filename))
  {
    hide Apply, ApplyAll, CheckFile, PublishPlan, WellFormed;
    var plan := ReconcilePlan(env.H, env.platform, d, o).0;
    ActionsKeepWellFormed(d, plan[..k]);
    if k == 0 {
      assert ApplyAll(d, plan[..k]) == d by { assert plan[..k] == []; NoActions(d); }
    } else {
      PublishPrefix(env.platform, d, o.filename, k);
      assert o.filename in ApplyAll(d, plan[..k]).finals;
    }
  }

  /** A checked file answers every later OFFER of its transfer, and nothing is sent again. */
  lemma {:induction false} CheckedAnswers(env: Environment, d: Disk, o: FileOffer, source: Bytes, cut: Cut)
    requires HonestOffer(o, source) && Checked(env, d, o)
    ensures FramesOf(env, d, o, source) == [] && Attempt(env, d, o, source, cut).0 == d
  {
    hide TransferAttempt, Attempt, PublishPlan, SentFrames, PreparedRecords;
    AttemptCases(env, d, o, source, cut);
    NoActions(d);
  }

  /**
   * No attempt loses a good chunk, except by publishing the file under a receipt that answers the transfer from then
   * on.
   */
  lemma {:induction false} AttemptKeepsGood(env: Environment, d: Disk, o: FileOffer, source: Bytes, cut: Cut, k: u64)
    requires HonestOffer(o, source) && WellFormed(d)
    requires Good(env.H, LayoutOf(o), source, ResidueOf(d, o.filename), k)
    ensures var e := Attempt(env, d, o, source, cut).0;
            && WellFormed(e)
            && (if e.finals == d.finals then Good(env.H, LayoutOf(o), source, ResidueOf(e, o.filename), k)
                else Checked(env, e, o))
  {
    hide TransferAttempt, ReconcilePlan, ApplyAll, Good, WellFormed, AfterCut, Checked, Attempt, CutInAttempt, Served;
    AttemptCases(env, d, o, source, cut);
    AttemptServes(env, d, o, source, cut);
    var r := TransferAttemptLeaves(env, d, o, source, cut);
    CutKeepsGood(env.H, LayoutOf(o), source, ResidueOf(d, o.filename), CutInAttempt(env, d, o, source, cut), k);
    ReconcileKeepsResidue(env, d, o, Min(cut.storageSteps, |ReconcilePlan(env.H, env.platform, d, o).0|));
  }

  lemma {:induction false} AttemptServes(env: Environment, d: Disk, o: FileOffer, source: Bytes, cut: Cut)
    requires HonestOffer(o, source) && WellFormed(d)
    ensures var (e, ok) := Attempt(env, d, o, source, cut);
            ok || e.finals != d.finals ==> Checked(env, e, o)
  {
    hide Served, Checked, Delivery, WellFormed;
    if cut.offered {
      ServedIsChecked(env, d, o, Delivery(env, d, o, source, cut), cut);
    }
  }

  // ----- any number of attempts -----

  /** Chunk `k` needs no sending any more: it is good, or the whole transfer is answered from its receipt. */
  ghost predicate Kept(env: Environment, d: Disk, o: FileOffer, source: Bytes, k: u64)
    requires HonestOffer(o, source)
  {
    Good(env.H, LayoutOf(o), source, ResidueOf(d, o.filename), k) || Checked(env, d, o)
  }

  lemma {:induction false} AttemptKeeps(env: Environment, d: Disk, o: FileOffer, source: Bytes, cut: Cut, k: u64)
    requires HonestOffer(o, source) && WellFormed(d) && Kept(env, d, o, source, k)
    ensures WellFormed(Attempt(env, d, o, source, cut).0) && Kept(env, Attempt(env, d, o, source, cut).0, o, source, k)
  {
    hide Attempt, Good, Checked, WellFormed, FramesOf;
    if Checked(env, d, o) {
      CheckedAnswers(env, d, o, source, cut);
    } else {
      AttemptKeepsGood(env, d, o, source, cut, k);
    }
  }

  lemma {:induction false} KeptIsNotSent(env: Environment, d: Disk, o: FileOffer, source: Bytes, k: u64)
    requires HonestOffer(o, source) && Kept(env, d, o, source, k)
    ensures Unannounced(FramesOf(env, d, o, source), k)
  {
    hide Good, Checked, PreparedRecords, SentFrames, ReconcilePlan, Announces;
    if Checked(env, d, o) {
      CheckedAnswers(env, d, o, source, Cut(false, 0, 0, None, 0, false));
    } else {
      var r := ResidueOf(d, o.filename);
      GoodIndex(env.H, LayoutOf(o), source, r, k);
      GoodIsInventoried(env.H, LayoutOf(o), source, r, k);
      NotRetransmitted(env.H, LayoutOf(o), source, PreparedRecords(env.H, LayoutOf(o), r.part, r.snapshot), k);
    }
  }

  /**
   * Monotone progress on the receiver's disk: over any attempts, each cut after any byte, inside any write or after any
   * storage step, a good chunk stays good until the file is published and answers the transfer by itself, and no later
   * attempt sends that chunk.
   */
  lemma {:induction false} GoodChunksStayReceived(env: Environment, d: Disk, o: FileOffer, source: Bytes,
                                                  cuts: seq<Cut>, k: u64)
    requires HonestOffer(o, source) && WellFormed(d)
    requires Good(env.H, LayoutOf(o), source, ResidueOf(d, o.filename), k)
    ensures var e := AfterAttempts(env, d, o, source, cuts);
            && (Good(env.H, LayoutOf(o), source, ResidueOf(e, o.filename), k) || Checked(env, e, o))
            && Unannounced(FramesOf(env, e, o, source), k)
  {
    hide Good, Attempt, FramesOf, WellFormed, Announces, Checked, AfterAttempts;
    AttemptsKeep(env, d, o, source, cuts, k);
    KeptIsNotSent(env, AfterAttempts(env, d, o, source, cuts), o, source, k);
  }

  lemma {:induction false} AttemptsKeep(env: Environment, d: Disk, o: FileOffer, source: Bytes, cuts: seq<Cut>, k: u64)
    requires HonestOffer(o, source) && WellFormed(d) && Kept(env, d, o, source, k)
    ensures Kept(env, AfterAttempts(env, d, o, source, cuts), o, source, k)
    decreases |cuts|
  {
    hide Kept, Attempt, WellFormed;
    if |cuts| > 0 {
      AttemptKeeps(env, d, o, source, cuts[0], k);
      AttemptsKeep(env, Attempt(env, d, o, source, cuts[0]).0, o, source, cuts[1..], k);
    }
  }

  // ----- progress made by what arrives -----

  /**
   * A chunk whose frames reached the receiver is good after the attempt, wherever the attempt was cut after that; if
   * the attempt published the file, the published chunk has the source's hash.
   */
  lemma {:induction false} DeliveredChunksAreGood(env: Environment, d: Disk, o: FileOffer, source: Bytes, cut: Cut,
                                                  i: nat, k: u64)
    requires HonestOffer(o, source) && WellFormed(d) && cut.offered
    requires ReconcilePlan(env.H, env.platform, d, o).1 == Ok(NotReconciled)
    requires k < i <= ChunkCount(LayoutOf(o))
    requires |FramesBelow(env.H, LayoutOf(o), source,
            PreparedRecords(env.H, LayoutOf(o), PartOf(d, o.filename), SnapshotOf(d, o.filename)), i)|
             <= CutInAttempt(env, d, o, source, cut).frames
    ensures var e := Attempt(env, d, o, source, cut).0;
            if e.finals == d.finals then Good(env.H, LayoutOf(o), source, ResidueOf(e, o.filename), k)
            else && Checked(env, e, o)
                 && env.H(Chunk(LayoutOf(o), FinalOf(e, o.filename).value, k)) == env.H(Chunk(LayoutOf(o), source, k))
  {
    hide TransferAttempt, ReconcilePlan, ApplyAll, WellFormed, AfterCut, Attempt, CutInAttempt, Served, FramesBelow,
         PreparedRecords, Loaded;
    AttemptCases(env, d, o, source, cut);
    AttemptServes(env, d, o, source, cut);
    var r := TransferAttemptLeaves(env, d, o, source, cut);
    DeliveredIsGood(env.H, LayoutOf(o), source, ResidueOf(d, o.filename), CutInAttempt(env, d, o, source, cut), i, k);
  }

  // ----- crash-point recovery over whole runs -----

  lemma {:induction false} StaysRecoverable(env: Environment, d: Disk, o: FileOffer, source: Bytes, content: Bytes,
                                            cuts: seq<Cut>)
    requires HonestOffer(o, source) && Recoverable(env, d, o, source, content)
    ensures var e := AfterAttempts(env, d, o, source, cuts);
            Recoverable(env, e, o, source, content) && CountOf(FramesOf(env, e, o, source), Data) == 0
    decreases |cuts|
  {
    hide Recoverable, Attempt, FramesOf;
    if |cuts| == 0 {
      RecoverableIsStable(env, d, o, source, content, Cut(false, 0, 0, None, 0, false));
    } else {
      RecoverableIsStable(env, d, o, source, content, cuts[0]);
      StaysRecoverable(env, Attempt(env, d, o, source, cuts[0]).0, o, source, content, cuts[1..]);
    }
  }

  /**
   * Crash-point recovery: once an attempt has accepted COMPLETE for a file that passes verification, wherever it stops
   * between its storage steps and however often later attempts are cut, no later attempt has a DATA frame to send, and
   * the first one that is not cut ends in VERIFIED with the verified bytes under the final name. Those are the source's
   * exactly when no chunk the first attempt reused was a hash collision.
   */
  lemma {:induction false} CrashRecovery(env: Environment, d: Disk, o: FileOffer, source: Bytes, first: Cut,
                                         cuts: seq<Cut>, last: Cut)
    requires HonestOffer(o, source) && WellFormed(d) && o.transferId !in d.receipts && o.filename !in d.finals
    requires first.offered && CompletesTransfer(env, d, o, source, first)
    requires env.H(ReceivedFile(env, d, o, source, first)) == env.H(source)
    ensures var e := AfterAttempts(env, d, o, source, [first] + cuts);
            && CountOf(FramesOf(env, e, o, source), Data) == 0
            && (Uncut(env, e, o, source, last) ==>
                  && Attempt(env, e, o, source, last).1
                  && FinalOf(Attempt(env, e, o, source, last).0, o.filename) ==
                     Some(ReceivedFile(env, d, o, source, first)))
    ensures ReceivedFile(env, d, o, source, first) == source <==> NoReuseCollision(env, d, o, source)
  {
    hide Recoverable, Attempt, FramesOf, Uncut, CompletesTransfer, ReceivedFile, NoReuseCollision;
    CrashIsRecoverable(env, d, o, source, first);
    var content := ReceivedFile(env, d, o, source, first);
    assert ([first] + cuts)[1..] == cuts;
    var stopped := Attempt(env, d, o, source, first).0;
    StaysRecoverable(env, stopped, o, source, content, cuts);
    var e := AfterAttempts(env, stopped, o, source, cuts);
    if Uncut(env, e, o, source, last) {
      RecoverableFinishes(env, e, o, source, content, last);
    }
  }

  /** A received file that does not pass verification is never published, and the sender is not told VERIFIED. */
  lemma {:induction false} UnverifiedIsNotPublished(env: Environment, d: Disk, o: FileOffer, source: Bytes, cut: Cut)
    requires HonestOffer(o, source) && WellFormed(d) && cut.offered && o.transferId !in d.receipts
    requires CompletesTransfer(env, d, o, source, cut)
    requires env.H(ReceivedFile(env, d, o, source, cut)) != env.H(source)
    ensures var (e, ok) := Attempt(env, d, o, source, cut);
            !ok && e.finals == d.finals && e.receipts == d.receipts
  {
    hide Transfer, PreparedState, NoReuseCollision, Good, Attempt, Committed, PreparedDisk;
    AttemptCases(env, d, o, source, cut);
    CompletedTransfer(env, d, o, source, cut);
    var t := Transfer(env.H, LayoutOf(o), source, PreparedState(env.H, d, o.filename, LayoutOf(o)), cut).value.state;
    CommitTransfers(d, o.filename, o.fileSize, t.store);
  }
}
