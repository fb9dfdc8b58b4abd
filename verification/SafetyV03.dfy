/** Whole-run safety of WFP/0.3 with retries (src/sender_v03.rs, src/receiver_v03.rs). */
module SafetyV03 {
  import opened Prelude
  import opened ChunkLayout
  import opened ChunkState
  import opened Frames
  import opened PayloadsV03
  import opened ReceiverV03
  import opened ReceiverInvariants
  import opened SenderV03
  import opened PrepareV03
  import opened TransferV03
  import opened Storage
  import opened SessionV03
  import opened PublicationV03
  import opened StabilisationV03

  /** A readable receipt for this transfer vouches for the source and nothing else. */
  ghost predicate ReceiptTruthful(env: Environment, d: Disk, o: FileOffer, source: Bytes) {
    o.transferId in d.receipts && ReadReceipt(d, o.transferId).Ok? ==>
      var r := ReadReceipt(d, o.transferId).value;
      r.blake3 == env.H(source) && r.fileSize == |source|
  }

  /** The final name holds the source's size and digest: the source itself, unless the digest collides. */
  ghost predicate Delivered(env: Environment, d: Disk, n: Name, source: Bytes) {
    && FinalOf(d, n).Some?
    && |FinalOf(d, n).value| == |source| && env.H(FinalOf(d, n).value) == env.H(source)
    && (FinalOf(d, n).value == source || Collision(env.H, FinalOf(d, n).value, source))
  }

  // ----- the hash an accepted COMPLETE carries -----

  lemma {:induction false} CompletedByFrame(H: HashFunction, s: State, frames: seq<Frame>) returns (f: Frame)
    requires Run(H, s, frames).Completed?
    ensures f in frames && f.messageType == Complete && Run(H, s, frames).fileHash == f.payload
    decreases |frames|
  {
    hide StepData, StepChunkStart;
    if Step(H, s, frames[0]).More? {
      f := CompletedByFrame(H, Step(H, s, frames[0]).state, frames[1..]);
    } else {
      f := frames[0];
      StepDataNeverCompletes(H, s, f.payload);
      StepChunkStartNeverCompletes(s, f.payload);
    }
  }

  /** An honest sender's COMPLETE carries the hash of the source, and nothing but it completes a transfer. */
  lemma {:induction false} CompletedHash(H: HashFunction, l: Layout, source: Bytes, s: State, n: nat)
    requires n <= |SentFrames(H, l, source, s.rx.records)|
    requires Run(H, s, SentFrames(H, l, source, s.rx.records)[..n]).Completed?
    ensures Run(H, s, SentFrames(H, l, source, s.rx.records)[..n]).fileHash == H(source)
  {
    hide Run, TransferFrames;
    var frames := SentFrames(H, l, source, s.rx.records);
    var f := CompletedByFrame(H, s, frames[..n]);
    assert f in frames;
    OnlyTransferFrames(H, l, source, s.rx.records, 0);
  }

  lemma {:induction false} TransferHash(H: HashFunction, l: Layout, source: Bytes, s: State, cut: Cut)
    requires InRange(l, s.rx.records) && |s.rx.records| < U64_LIMIT
    requires Transfer(H, l, source, s, cut).Some? && Transfer(H, l, source, s, cut).value.Completed?
    ensures Transfer(H, l, source, s, cut).value.fileHash == H(source)
  {
    hide Transfer, SentFrames, Run, TornStore, InRange, FrameBytes, Seen;
    TransferIsPrefixRun(H, l, source, s, cut);
    var n := Seen(H, l, source, s.rx.records, cut.transferBytes);
    CompletedHash(H, l, source, s, n);
  }

  // ----- one attempt -----

  lemma {:induction false} VerifiedIsDelivered(env: Environment, content: Bytes, source: Bytes, d: Disk, n: Name)
    requires |source| < U64_LIMIT
    requires CheckFile(env.H, content, |source|, env.H(source)).Ok?
    requires FinalOf(d, n) == Some(content)
    ensures Delivered(env, d, n, source)
  {
  }

  lemma {:induction false} PublishIsSafe(env: Environment, after: Disk, o: FileOffer, source: Bytes, cut: Cut)
    requires HonestOffer(o, source) && WellFormed(after) && PartOf(after, o.filename).Some?
    requires ReceiptTruthful(env, after, o, source)
    ensures var (e, ok) := Publish(env, after, ReceiptFor(env.H, o, source), cut);
            && ReceiptTruthful(env, e, o, source)
            && (ok ==> Delivered(env, e, o.filename, source))
  {
    hide FinalizePlan, ApplyAll, CheckFile, Delivered;
    var r := ReceiptFor(env.H, o, source);
    var (actions, result) := FinalizePlan(env.H, env.platform, after, r);
    var k := Min(cut.storageSteps, |actions|);
    FinalizePrefix(env.H, env.platform, after, r, k);
    var e := ApplyAll(after, actions[..k]);
    if result.Ok? && k == |actions| {
      VerifiedIsDelivered(env, PartOf(after, o.filename).value, source, e, o.filename);
    }
  }

  lemma {:induction false} TransferAttemptIsSafe(env: Environment, d: Disk, o: FileOffer, source: Bytes, cut: Cut)
    requires HonestOffer(o, source) && WellFormed(d) && ReceiptTruthful(env, d, o, source)
    ensures var (e, ok) := TransferAttempt(env, d, o, source, cut);
            && ReceiptTruthful(env, e, o, source)
            && (ok ==> Delivered(env, e, o.filename, source))
  {
    hide Transfer, PreparedState, ReadReceipt, Publish, Delivered, InRange;
    var l := LayoutOf(o);
    var s := PreparedState(env.H, d, o.filename, l);
    PreparedSmall(env.H, d, o.filename, l);
    var ready := PreparedDisk(d, o.filename, o.fileSize);
    var end := Transfer(env.H, l, source, s, cut);
    SameReceipts(env, d, ready, o, source);
    if end.Some? {
      var after := Committed(ready, o.filename, end.value.state.store);
      SameReceipts(env, d, after, o, source);
      if end.value.Completed? {
        TransferHash(env.H, l, source, s, cut);
        PublishIsSafe(env, after, o, source, cut);
      }
    }
  }

  lemma {:induction false} ReconcileIsSafe(env: Environment, d: Disk, o: FileOffer, source: Bytes, k: nat)
    requires HonestOffer(o, source) && WellFormed(d) && ReceiptTruthful(env, d, o, source)
    requires k <= |ReconcilePlan(env.H, env.platform, d, o).0|
    ensures var (actions, outcome) := ReconcilePlan(env.H, env.platform, d, o);
            var e := ApplyAll(d, actions[..k]);
            && e.receipts == d.receipts
            && (outcome == Ok(Reconciled) && k == |actions| ==> Delivered(env, e, o.filename, source))
  {
    hide Apply, ApplyAll, CheckFile, Delivered, PublishPlan;
    var (actions, outcome) := ReconcilePlan(env.H, env.platform, d, o);
    if outcome == Ok(Reconciled) {
      var e := ApplyAll(d, actions[..k]);
      if o.filename in d.finals {
        assert ApplyAll(d, []) == d by { NoActions(d); }
        VerifiedIsDelivered(env, FinalOf(d, o.filename).value, source, e, o.filename);
      } else {
        PublishPrefix(env.platform, d, o.filename, k);
        PublishLength(env.platform, o.filename);
        if k == |actions| {
          VerifiedIsDelivered(env, PartOf(d, o.filename).value, source, e, o.filename);
        }
      }
    } else {
      NoActions(d);
    }
  }

  /** Whatever is cut, the receipt stays truthful, and Ok on the sender's side means delivery. */
  lemma {:induction false} AttemptIsSafe(env: Environment, d: Disk, o: FileOffer, source: Bytes, cut: Cut)
    requires HonestOffer(o, source) && WellFormed(d) && ReceiptTruthful(env, d, o, source)
    ensures var (e, ok) := Attempt(env, d, o, source, cut);
            && ReceiptTruthful(env, e, o, source)
            && (ok ==> Delivered(env, e, o.filename, source))
  {
    hide TransferAttempt, Attempt, ReconcilePlan, ApplyAll, Delivered, ReadReceipt;
    AttemptCases(env, d, o, source, cut);
    TransferAttemptIsSafe(env, d, o, source, cut);
    var (actions, outcome) := ReconcilePlan(env.H, env.platform, d, o);
    var k := Min(cut.storageSteps, |actions|);
    ReconcileIsSafe(env, d, o, source, k);
    assert outcome.Ok? ==> outcome.value.Reconciled? || outcome.value.NotReconciled?;
    assert ReceiptTruthful(env, ApplyAll(d, actions[..k]), o, source) by {
      SameReceipts(env, d, ApplyAll(d, actions[..k]), o, source);
    }
  }

  lemma {:induction false} SameReceipts(env: Environment, d: Disk, e: Disk, o: FileOffer, source: Bytes)
    requires ReceiptTruthful(env, d, o, source) && e.receipts == d.receipts
    ensures ReceiptTruthful(env, e, o, source)
  {
  }

  // ----- any number of attempts -----

  /** Between attempts anything may happen to the files, but nobody else writes this transfer's receipt. */
  ghost predicate KeepsReceipt(d: Disk, e: Disk, t: TransferId) {
    && (t in e.receipts <==> t in d.receipts)
    && (t in d.receipts ==> e.receipts[t] == d.receipts[t])
  }

  /** `disks[i]` is the disk attempt `i` finds; it differs from what attempt `i - 1` left only as allowed. */
  ghost predicate RetryRun(env: Environment, o: FileOffer, source: Bytes, disks: seq<Disk>, cuts: seq<Cut>)
    requires HonestOffer(o, source)
  {
    && |disks| == |cuts|
    && (forall i :: 0 <= i < |disks| ==> WellFormed(disks[i]))
    && (|disks| > 0 ==> o.transferId !in disks[0].receipts)
    && (forall i :: 0 < i < |disks| ==>
      KeepsReceipt(Attempt(env, disks[i - 1], o, source, cuts[i - 1]).0, disks[i], o.transferId))
  }

  lemma {:induction false} RetryKeepsReceiptTruthful(env: Environment, o: FileOffer, source: Bytes, disks: seq<Disk>,
                                                     cuts: seq<Cut>, i: nat)
    requires HonestOffer(o, source) && RetryRun(env, o, source, disks, cuts) && i < |disks|
    ensures ReceiptTruthful(env, disks[i], o, source)
    decreases i
  {
    hide Attempt;
    if i > 0 {
      RetryKeepsReceiptTruthful(env, o, source, disks, cuts, i - 1);
      AttemptIsSafe(env, disks[i - 1], o, source, cuts[i - 1]);
      var left := Attempt(env, disks[i - 1], o, source, cuts[i - 1]).0;
      assert KeepsReceipt(left, disks[i], o.transferId);
    }
  }

  /**
   * Over any number of attempts with one transfer ID and one source, each cut anywhere, from any files:
   * whenever the sender returns Ok, after COMPLETE or straight after OFFER, the final name holds the source.
   */
  lemma {:induction false} RetriesAreSafe(env: Environment, o: FileOffer, source: Bytes, disks: seq<Disk>,
                                          cuts: seq<Cut>, i: nat)
    requires HonestOffer(o, source) && RetryRun(env, o, source, disks, cuts) && i < |disks|
    requires Attempt(env, disks[i], o, source, cuts[i]).1
    ensures Delivered(env, Attempt(env, disks[i], o, source, cuts[i]).0, o.filename, source)
  {
    hide Attempt, RetryRun, WellFormed, Delivered;
    RetryDisks(env, o, source, disks, cuts, i);
    RetryKeepsReceiptTruthful(env, o, source, disks, cuts, i);
    AttemptIsSafe(env, disks[i], o, source, cuts[i]);
  }

  lemma {:induction false} RetryDisks(env: Environment, o: FileOffer, source: Bytes, disks: seq<Disk>, cuts: seq<Cut>,
                                      i: nat)
    requires HonestOffer(o, source) && RetryRun(env, o, source, disks, cuts) && i < |disks|
    ensures |cuts| == |disks| && WellFormed(disks[i])
  {
  }

  // ----- any peer -----

  /** The final name holds the size and digest its receipt names, and the receipt is this offer's. */
  ghost predicate Checked(env: Environment, d: Disk, o: FileOffer) {
    && o.transferId in d.receipts && ReadReceipt(d, o.transferId).Ok?
    && FinalOf(d, o.filename).Some?
    && var r := ReadReceipt(d, o.transferId).value;
    && r.transferId == o.transferId && r.filename == o.filename
    && r.fileSize == o.fileSize == |FinalOf(d, o.filename).value|
    && r.blake3 == env.H(FinalOf(d, o.filename).value)
  }

  lemma {:induction false} PublishIsChecked(env: Environment, after: Disk, o: FileOffer, fileHash: Digest, cut: Cut)
    requires WellFormed(after) && PartOf(after, o.filename).Some?
    ensures var (e, ok) := Publish(env, after, Receipt(o.transferId, o.filename, o.fileSize, fileHash), cut);
            (ok || e.finals != after.finals) ==> Checked(env, e, o)
  {
    hide FinalizePlan, ApplyAll;
    var r := Receipt(o.transferId, o.filename, o.fileSize, fileHash);
    var (actions, result) := FinalizePlan(env.H, env.platform, after, r);
    FinalizePrefix(env.H, env.platform, after, r, Min(cut.storageSteps, |actions|));
  }

  lemma {:induction false} ReconcileIsChecked(env: Environment, d: Disk, o: FileOffer, k: nat)
    requires WellFormed(d) && k <= |ReconcilePlan(env.H, env.platform, d, o).0|
    ensures var (actions, outcome) := ReconcilePlan(env.H, env.platform, d, o);
            var e := ApplyAll(d, actions[..k]);
            (outcome.Ok? && outcome != Ok(NotReconciled) && k == |actions|) || e.finals != d.finals ==>
                Checked(env, e, o)
  {
    hide Apply, ApplyAll, PublishPlan;
    var (actions, outcome) := ReconcilePlan(env.H, env.platform, d, o);
    NoActions(d);
    PublishLength(env.platform, o.filename);
    if k > 0 {
      PublishPrefix(env.platform, d, o.filename, k);
    } else {
      assert actions[..k] == [];
    }
  }

  /**
   * Whatever bytes arrive after an OFFER and wherever the session is stopped: when VERIFIED is sent, or a final name
   * appears, the final file has the offered size and the digest of this transfer's receipt.
   */
  lemma {:induction false} ServedIsChecked(env: Environment, d: Disk, o: FileOffer, stream: Bytes, cut: Cut)
    requires WellFormed(d) && o.chunkSize > 0
    ensures var (e, ok) := Served(env, d, o, stream, cut);
            ok || e.finals != d.finals ==> Checked(env, e, o)
  {
    hide ReconcilePlan, Publish, Received, PreparedState, Checked, ApplyAll, WellFormed, PartOf, SetLength;
    var (actions, outcome) := ReconcilePlan(env.H, env.platform, d, o);
    if outcome == Ok(NotReconciled) {
      var end := Received(env.H, PreparedState(env.H, d, o.filename, LayoutOf(o)), stream, cut.stop);
      if end.Some? {
        CommitTransfers(d, o.filename, o.fileSize, end.value.state.store);
        var after := Committed(PreparedDisk(d, o.filename, o.fileSize), o.filename, end.value.state.store);
        if end.value.Completed? {
          PublishIsChecked(env, after, o, end.value.fileHash, cut);
        }
      }
    } else {
      ReconcileIsChecked(env, d, o, Min(cut.storageSteps, |actions|));
    }
  }
}
