/**
 * When a later WFP/0.3 session changes a file that is already published (src/receiver_v03.rs,
 * src/receiver_storage.rs).
 */
module ClobberV03 {
  import opened Prelude
  import opened ChunkLayout
  import opened ChunkState
  import opened Frames
  import opened PayloadsV03
  import opened ReceiverV03
  import opened ReceiverInvariants
  import opened PrepareV03
  import opened TransferV03
  import opened Storage
  import opened SessionV03
  import opened PublicationV03
  import opened StabilisationV03

  predicate LinkedToFinal(d: Disk, n: Name) {
    n in d.parts && n in d.finals && d.parts[n] == d.finals[n]
  }

  // ----- files on other inodes -----

  ghost predicate SharesPartial(d: Disk, n: Name, m: Name)
    requires m in d.finals
  {
    n in d.parts && d.parts[n] == d.finals[m]
  }

  lemma {:induction false} PublishSpares(env: Environment, after: Disk, r: Receipt, cut: Cut, m: Name)
    requires WellFormed(after) && PartOf(after, r.filename).Some? && m in after.finals
    ensures FinalOf(Publish(env, after, r, cut).0, m) == FinalOf(after, m)
  {
    hide FinalizePlan, ApplyAll;
    var (actions, _) := FinalizePlan(env.H, env.platform, after, r);
    FinalizePrefix(env.H, env.platform, after, r, Min(cut.storageSteps, |actions|));
  }

  lemma {:induction false} ReconcileSpares(env: Environment, d: Disk, o: FileOffer, k: nat, m: Name)
    requires WellFormed(d) && k <= |ReconcilePlan(env.H, env.platform, d, o).0| && m in d.finals
    ensures FinalOf(ApplyAll(d, ReconcilePlan(env.H, env.platform, d, o).0[..k]), m) == FinalOf(d, m)
  {
    hide Apply, ApplyAll, PublishPlan, CheckFile;
    var plan := ReconcilePlan(env.H, env.platform, d, o).0;
    if k > 0 {
      PublishPrefix(env.platform, d, o.filename, k);
    } else {
      NoActions(d);
      assert plan[..k] == [];
    }
  }

  lemma {:induction false} PreparingSpares(d: Disk, n: Name, size: u64, m: Name)
    requires WellFormed(d) && m in d.finals && !SharesPartial(d, n, m)
    ensures FinalOf(PreparedDisk(d, n, size), m) == FinalOf(d, m)
  {
    hide SetLength;
  }

  /** Whatever the peer sends and wherever the session stops, published files on other inodes keep their bytes. */
  lemma {:induction false} OtherFilesKeepTheirBytes(env: Environment, d: Disk, o: FileOffer, stream: Bytes, cut: Cut,
                                                    m: Name)
    requires WellFormed(d) && o.chunkSize > 0 && m in d.finals && !SharesPartial(d, o.filename, m)
    ensures FinalOf(Served(env, d, o, stream, cut).0, m) == FinalOf(d, m)
  {
    hide ReconcilePlan, Publish, Received, PreparedState, ApplyAll, Committed, PreparedDisk;
    var (actions, outcome) := ReconcilePlan(env.H, env.platform, d, o);
    ReconcileSpares(env, d, o, Min(cut.storageSteps, |actions|), m);
    PreparingSpares(d, o.filename, o.fileSize, m);
    var end := Received(env.H, PreparedState(env.H, d, o.filename, LayoutOf(o)), stream, cut.stop);
    if end.Some? {
      CommitTransfers(d, o.filename, o.fileSize, end.value.state.store);
      if end.value.Completed? {
        PublishSpares(env, Committed(PreparedDisk(d, o.filename, o.fileSize), o.filename, end.value.state.store),
                      Receipt(o.transferId, o.filename, o.fileSize, end.value.fileHash), cut, m);
      }
    }
  }

  // ----- a published file that is also the partial file -----

  /** However a transfer ends, the partial file has the offered size. */
  lemma {:induction false} ReceivedKeepsSize(H: HashFunction, s: State, stream: Bytes, stop: Option<Stop>)
    requires Inv(H, s) && Received(H, s, stream, stop).Some?
    ensures |Received(H, s, stream, stop).value.state.store.part| == s.rx.layout.fileSize
  {
    hide Run, Inv, ParseStream, AfterAccept, TornStore;
    var (frames, _) := ParseStream(AfterAccept(stream).value, WFP_VERSION_V03);
    RunKeepsSize(H, s, frames);
    if stop.Some? && stop.value.frames < |frames| {
      var x := stop.value.frames;
      RunKeepsSize(H, s, frames[..x]);
      TornKeepsSize(H, Run(H, s, frames[..x]).state, frames[x], stop.value.written);
    }
  }

  lemma {:induction false} RunKeepsSize(H: HashFunction, s: State, frames: seq<Frame>)
    requires Inv(H, s)
    ensures var t := Run(H, s, frames).state;
            Inv(H, t) && t.rx.layout == s.rx.layout && |t.store.part| == s.rx.layout.fileSize
  {
    hide Run, Inv;
    RunKeepsInv(H, s, frames);
    RunSnapshot(H, s, frames);
    InvHasNoPending(H, Run(H, s, frames).state);
  }

  lemma {:induction false} WritingLinked(d: Disk, n: Name, size: u64, store: Store)
    requires WellFormed(d) && LinkedToFinal(d, n)
    ensures FinalOf(Committed(PreparedDisk(d, n, size), n, store), n) == Some(store.part)
    ensures FinalOf(PreparedDisk(d, n, size), n).Some? && |FinalOf(PreparedDisk(d, n, size), n).value| == size
    ensures n in Committed(PreparedDisk(d, n, size), n, store).finals
  {
    hide SetLength;
  }

  /** An OFFER for a linked name makes the published file as long as the offer says, whatever follows it. */
  lemma {:induction false} LinkedIsResized(env: Environment, d: Disk, o: FileOffer, stream: Bytes, cut: Cut)
    requires WellFormed(d) && o.chunkSize > 0 && o.transferId !in d.receipts && LinkedToFinal(d, o.filename)
    ensures var e := Served(env, d, o, stream, cut).0;
            FinalOf(e, o.filename).Some? && |FinalOf(e, o.filename).value| == o.fileSize
  {
    hide Publish, Received, PreparedState, ApplyAll, Committed, PreparedDisk, Inv, InRange;
    var n, l := o.filename, LayoutOf(o);
    var s := PreparedState(env.H, d, n, l);
    PreparedShape(env.H, d, n, l);
    var end := Received(env.H, s, stream, cut.stop);
    WritingLinked(d, n, o.fileSize, if end.Some? then end.value.state.store else Store([], NoSnapshot));
    if end.Some? {
      ReceivedKeepsSize(env.H, s, stream, cut.stop);
      CommitTransfers(d, n, o.fileSize, end.value.state.store);
      if end.value.Completed? {
        PublishSpares(env, Committed(PreparedDisk(d, n, o.fileSize), n, end.value.state.store),
                      Receipt(o.transferId, n, o.fileSize, end.value.fileHash), cut, n);
      }
    }
  }

  // ----- the exact condition -----

  /** No session for `n` under the ID `t` can change what is published as `n`. */
  ghost predicate NeverClobbered(env: Environment, d: Disk, n: Name, t: TransferId) {
    forall o: FileOffer, stream: Bytes, cut: Cut :: o.transferId == t && o.filename == n && o.chunkSize > 0 ==>
      FinalOf(Served(env, d, o, stream, cut).0, n) == FinalOf(d, n)
  }

  /**
   * A published file is out of reach of every session with a new transfer ID, whatever the peer sends and wherever the
   * session stops, exactly when the partial name is not a second link to it.
   */
  lemma {:induction false} NoClobberIffNotLinked(env: Environment, d: Disk, n: Name, t: TransferId)
    requires WellFormed(d) && n in d.finals && t !in d.receipts
    ensures NeverClobbered(env, d, n, t) <==> !LinkedToFinal(d, n)
  {
    hide Served;
    if LinkedToFinal(d, n) {
      var o := FileOffer(t, n, if FinalOf(d, n) == Some([]) then 1 else 0, 1);
      var cut := Cut(true, 0, 0, None, 0, false);
      LinkedIsResized(env, d, o, [], cut);
      assert FinalOf(Served(env, d, o, [], cut).0, n) != FinalOf(d, n);
    } else {
      forall o: FileOffer, stream: Bytes, cut: Cut | o.transferId == t && o.filename == n && o.chunkSize > 0
        ensures FinalOf(Served(env, d, o, stream, cut).0, n) == FinalOf(d, n)
      {
        OtherFilesKeepTheirBytes(env, d, o, stream, cut, n);
      }
    }
  }

  /** An uninterrupted honest transfer under a published name is refused, and a linked file becomes what it received. */
  lemma {:induction false} LinkedBecomesReceived(env: Environment, d: Disk, o: FileOffer, source: Bytes, cut: Cut)
    requires HonestOffer(o, source) && WellFormed(d)
    requires o.transferId !in d.receipts && o.filename in d.finals
    requires Uncut(env, d, o, source, cut)
    ensures CompletesTransfer(env, d, o, source, cut) && !Attempt(env, d, o, source, cut).1
    ensures FinalOf(Attempt(env, d, o, source, cut).0, o.filename) ==
            if LinkedToFinal(d, o.filename) then Some(ReceivedFile(env, d, o, source, cut)) else FinalOf(d, o.filename)
    ensures ReceivedFile(env, d, o, source, cut) == source <==> NoReuseCollision(env, d, o, source)
  {
    hide Attempt, NoReuseCollision, EnoughBytes, CompletesTransfer, ReceivedFile, Publish;
    var after := UncutAttempt(env, d, o, source, cut);
  }

  // ----- how the code gets there -----

  /** Every successful publication on Linux leaves the partial name linked to the final file; on Windows none does. */
  lemma {:induction false} LinuxKeepsTheLink(H: HashFunction, platform: Platform, d: Disk, r: Receipt)
    requires WellFormed(d) && PartOf(d, r.filename).Some? && FinalizePlan(H, platform, d, r).1.Ok?
    ensures LinkedToFinal(ApplyAll(d, FinalizePlan(H, platform, d, r).0), r.filename) <==> platform == Linux
  {
    hide Apply, ApplyAll, CheckFile, PublishPlan;
    var first := ReceiptPlan(d, r).0;
    var middle := ApplyAll(d, first);
    ReceiptPlanKeepsFiles(d, r);
    ApplyAppend(d, first, PublishPlan(platform, r.filename));
    PublishedPartName(platform, middle, r.filename);
    var plan := PublishPlan(platform, r.filename);
    PublishPrefix(platform, middle, r.filename, |plan|);
    assert plan[..|plan|] == plan;
    PublishLength(platform, r.filename);
  }

  /** With no partial file there is nothing to reuse. */
  lemma {:induction false} NothingReused(env: Environment, d: Disk, o: FileOffer, source: Bytes)
    requires HonestOffer(o, source) && o.filename !in d.parts
    ensures NoReuseCollision(env, d, o, source)
  {
    hide Chunk, Collision;
  }

  /** A whole first transfer on a disk with neither name: published, receipted, and linked exactly on Linux. */
  lemma {:induction false} FirstTransfer(env: Environment, d: Disk, o: FileOffer, source: Bytes, cut: Cut)
    requires HonestOffer(o, source) && WellFormed(d) && o.transferId !in d.receipts
    requires o.filename !in d.parts && o.filename !in d.finals && Uncut(env, d, o, source, cut)
    ensures var (e, ok) := Attempt(env, d, o, source, cut);
            && ok && WellFormed(e) && FinalOf(e, o.filename) == Some(source)
            && (LinkedToFinal(e, o.filename) <==> env.platform == Linux)
            && e.receipts.Keys == d.receipts.Keys + {o.transferId}
  {
    hide Attempt, NoReuseCollision, Uncut, CompletesTransfer, ReceivedFile, ApplyAll, FinalizePlan, LinkedToFinal;
    NothingReused(env, d, o, source);
    var after := UncutAttempt(env, d, o, source, cut);
    assert cut.storageSteps >= 8 by { UncutSteps(env, d, o, source, cut); }
    var r := ReceiptFor(env.H, o, source);
    var (actions, result) := FinalizePlan(env.H, env.platform, after, r);
    FinalizePrefix(env.H, env.platform, after, r, |actions|);
    AllStepsRun(after, actions, cut.storageSteps);
    LinuxKeepsTheLink(env.H, env.platform, after, r);
    ActionsKeepWellFormed(after, actions);
  }

  lemma {:induction false} UncutSteps(env: Environment, d: Disk, o: FileOffer, source: Bytes, cut: Cut)
    requires HonestOffer(o, source) && Uncut(env, d, o, source, cut)
    ensures cut.storageSteps >= 8
  {
  }

  /**
   * On Linux a second session under the name of a delivered file, with another transfer ID and another size, destroys
   * the delivered bytes as soon as its OFFER arrives, whatever its peer sends after that; on Windows no session can.
   */
  lemma {:induction false} SecondOfferClobbers(env: Environment, d: Disk, first: FileOffer, source: Bytes, whole: Cut,
                                               second: FileOffer, stream: Bytes, cut: Cut)
    requires HonestOffer(first, source) && WellFormed(d) && first.transferId !in d.receipts
    requires first.filename !in d.parts && first.filename !in d.finals && Uncut(env, d, first, source, whole)
    requires second.filename == first.filename && second.chunkSize > 0
    requires second.transferId != first.transferId && second.transferId !in d.receipts
    ensures var delivered := Attempt(env, d, first, source, whole).0;
            var e := Served(env, delivered, second, stream, cut).0;
            && FinalOf(delivered, first.filename) == Some(source)
            && (env.platform == Linux && second.fileSize != |source| ==>
                  && FinalOf(e, first.filename).Some? && |FinalOf(e, first.filename).value| == second.fileSize
                  && FinalOf(e, first.filename) != Some(source))
            && (env.platform == Windows ==> FinalOf(e, first.filename) == Some(source))
  {
    hide Attempt, Served, Uncut, WellFormed;
    FirstTransfer(env, d, first, source, whole);
    var delivered := Attempt(env, d, first, source, whole).0;
    FinalIsThere(delivered, first.filename);
    if env.platform == Linux {
      LinkedIsResized(env, delivered, second, stream, cut);
    } else {
      OtherFilesKeepTheirBytes(env, delivered, second, stream, cut, first.filename);
    }
  }

  lemma {:induction false} FinalIsThere(d: Disk, n: Name)
    requires FinalOf(d, n).Some?
    ensures n in d.finals
  {
  }

  /** A whole second honest transfer leaves its own source under the first one's name, and is refused. */
  lemma {:induction false} SecondTransferReplaces(env: Environment, d: Disk, first: FileOffer, source: Bytes,
                                                  whole: Cut, second: FileOffer, other: Bytes, cut: Cut)
    requires HonestOffer(first, source) && WellFormed(d) && first.transferId !in d.receipts && env.platform == Linux
    requires first.filename !in d.parts && first.filename !in d.finals && Uncut(env, d, first, source, whole)
    requires second.filename == first.filename && HonestOffer(second, other)
    requires second.transferId != first.transferId && second.transferId !in d.receipts
    requires Uncut(env, Attempt(env, d, first, source, whole).0, second, other, cut)
    ensures var delivered := Attempt(env, d, first, source, whole).0;
            var (e, ok) := Attempt(env, delivered, second, other, cut);
            && FinalOf(delivered, first.filename) == Some(source) && !ok
            && (FinalOf(e, first.filename) == Some(other) <==> NoReuseCollision(env, delivered, second, other))
  {
    hide Attempt, Uncut, WellFormed, NoReuseCollision, CompletesTransfer, ReceivedFile;
    FirstTransfer(env, d, first, source, whole);
    var delivered := Attempt(env, d, first, source, whole).0;
    FinalIsThere(delivered, first.filename);
    LinkedBecomesReceived(env, delivered, second, other, cut);
  }
}
