/**
 * What a WFP/0.3 receiver does with an OFFER, said of the bytes that arrive after it: when a receipt answers it, and
 * what a transfer leaves on the disk whoever the peer is (src/receiver_v03.rs).
 */
module OutcomesV03 {
  import opened Prelude
  import opened ChunkLayout
  import opened ChunkState
  import opened Frames
  import opened PayloadsV03
  import opened InventoryV03
  import opened PrepareV03
  import opened ReceiverV03
  import opened ReceiverInvariants
  import AcceptanceV03
  import opened Storage
  import opened SessionV03
  import opened PublicationV03
  import opened StabilisationV03
  import opened EndpointsV03

  /** A readable receipt for exactly this transfer, name and size. */
  ghost predicate Agrees(d: Disk, o: FileOffer) {
    o.transferId in d.receipts && d.receipts[o.transferId].ReceiptText? &&
    var r := d.receipts[o.transferId].receipt;
    r == Receipt(o.transferId, o.filename, o.fileSize, r.blake3)
  }

  /** The file the receipt is checked against: the published one, or else the partial one. */
  function HeldFile(d: Disk, n: Name): Option<Bytes> {
    if n in d.finals then FinalOf(d, n) else PartOf(d, n)
  }

  ghost predicate Confirmed(env: Environment, d: Disk, o: FileOffer) {
    && Agrees(d, o)
    && var held := HeldFile(d, o.filename);
    && held.Some? && |held.value| == o.fileSize
    && env.H(held.value) == d.receipts[o.transferId].receipt.blake3
  }

  /** A receipt that cannot be read or is not this offer's ends the session without an answer or any change. */
  lemma {:induction false} DisagreementEnds(env: Environment, d: Disk, o: FileOffer, stream: Bytes, cut: Cut)
    requires o.chunkSize > 0 && o.transferId in d.receipts && !Agrees(d, o)
    ensures Served(env, d, o, stream, cut) == (d, false)
    ensures ReplyFrames(env, d, o, false) == []
  {
    hide Received, PreparedDisk, PreparedState, Conclude, InventoryFrames;
    NoActions(d);
    PreparedSmall(env.H, d, o.filename, LayoutOf(o));
  }

  /**
   * Exactly when the receipt is confirmed by the file it names is the OFFER answered with VERIFIED alone, whatever else
   * the peer sends; the file is then delivered under its final name.
   */
  lemma {:induction false} ConfirmationAnswers(env: Environment, d: Disk, o: FileOffer, stream: Bytes)
    requires o.chunkSize > 0 && WellFormed(d) && Confirmed(env, d, o)
    ensures var (e, ok) := Served(env, d, o, stream, UNINTERRUPTED);
            && ok && ReplyFrames(env, d, o, ok) == [VerifiedFrame()]
            && FinalOf(e, o.filename) == HeldFile(d, o.filename)
            && Settles(env, d, e, o)
  {
    hide Received, PreparedDisk, PreparedState, Conclude, InventoryFrames, ApplyAll, PublishPlan, Settles, Landed;
    ConfirmedReconciles(env, d, o);
    PreparedSmall(env.H, d, o.filename, LayoutOf(o));
    ReconcileRuns(env, d, o);
    ReconciledSettles(env, d, o);
    if o.filename in d.finals {
      NoActions(d);
    } else {
      PublicationLands(env.platform, d, o.filename);
      LandedFinal(env.platform, d, o.filename);
    }
  }

  lemma {:induction false} ConfirmedReconciles(env: Environment, d: Disk, o: FileOffer)
    ensures ReconcilePlan(env.H, env.platform, d, o).1 == Ok(Reconciled) <==> Confirmed(env, d, o)
  {
    hide PublishPlan;
  }

  /**
   * An agreeing receipt that no file confirms is as good as none: the transfer is negotiated as if it were not there.
   */
  lemma {:induction false} UnconfirmedNegotiates(env: Environment, d: Disk, o: FileOffer, verified: bool)
    requires o.chunkSize > 0 && Agrees(d, o) && !Confirmed(env, d, o)
    ensures ReplyFrames(env, d, o, verified) ==
            ReplyFrames(env, d.(receipts := d.receipts - {o.transferId}), o, verified)
    ensures ReconcilePlan(env.H, env.platform, d, o) == ([], Ok(NotReconciled))
  {
    hide PublishPlan, InventoryFrames, PreparedState;
    var bare := d.(receipts := d.receipts - {o.transferId});
    PreparedSmall(env.H, d, o.filename, LayoutOf(o));
    PreparedSmall(env.H, bare, o.filename, LayoutOf(o));
    ConfirmedReconciles(env, d, o);
    SameFilesPrepared(env.H, d, bare, o.filename, LayoutOf(o));
  }

  lemma {:induction false} SameFilesPrepared(H: HashFunction, d: Disk, e: Disk, n: Name, l: Layout)
    requires e.inodes == d.inodes && e.parts == d.parts && e.snapshots == d.snapshots
    ensures PreparedState(H, e, n, l) == PreparedState(H, d, n, l)
  {
  }

  /** Without a receipt the transfer is always negotiated. */
  lemma {:induction false} NoReceiptNegotiates(env: Environment, d: Disk, o: FileOffer)
    requires o.transferId !in d.receipts
    ensures ReconcilePlan(env.H, env.platform, d, o) == ([], Ok(NotReconciled))
  {
  }

  // ----- a transfer, whoever the peer is -----

  /** The partial file as a transfer finds it: resized, and nothing else. */
  function Resized(d: Disk, o: FileOffer): Bytes {
    SetLength(if PartOf(d, o.filename).Some? then PartOf(d, o.filename).value else [], o.fileSize)
  }

  ghost function Advertised(env: Environment, d: Disk, o: FileOffer): Records
    requires o.chunkSize > 0
  {
    PreparedRecords(env.H, LayoutOf(o), PartOf(d, o.filename), SnapshotOf(d, o.filename))
  }

  /** The frames of the accepted transcript, with the fragment that turned out to be wrong if that ended it. */
  ghost function WrittenFrames(env: Environment, d: Disk, o: FileOffer, frames: seq<Frame>): seq<Frame>
    requires o.chunkSize > 0
  {
    var l := LayoutOf(o);
    var k := AcceptanceV03.Accepted(env.H, l, Advertised(env, d, o), frames);
    if k < |frames| && AcceptanceV03.MisHashes(env.H, l, frames[..k], frames[k]) then frames[..k + 1] else frames[..k]
  }

  /** The hash of the COMPLETE that ended the transfer, if it ended that way. */
  ghost function AnnouncedHash(env: Environment, d: Disk, o: FileOffer, frames: seq<Frame>): Option<Digest>
    requires o.chunkSize > 0
  {
    var l, records := LayoutOf(o), Advertised(env, d, o);
    var k := AcceptanceV03.Accepted(env.H, l, records, frames);
    if k < |frames| && AcceptanceV03.Finishes(l, records, frames[..k], frames[k]) then Some(frames[k].payload) else None
  }

  /** The records after the accepted frames: those advertised, and the chunks that were sent whole. */
  ghost predicate OnRecord(env: Environment, d: Disk, o: FileOffer, frames: seq<Frame>, records: Records)
    requires o.chunkSize > 0
  {
    var l, before := LayoutOf(o), frames[..AcceptanceV03.Accepted(env.H, LayoutOf(o), Advertised(env, d, o), frames)];
    forall i: u64 :: HashOf(records, i).Some? <==>
      || HashOf(Advertised(env, d, o), i).Some?
      || (AcceptanceV03.Announced(before, i) &&
          !(AcceptanceV03.Open(l, before) && AcceptanceV03.LastStart(before).value.index == i))
  }

  /** Only the partial file and its snapshot changed; the snapshot is as it was or lists what is on record now. */
  ghost predicate LeavesFile(env: Environment, d: Disk, e: Disk, o: FileOffer, frames: seq<Frame>)
    requires o.chunkSize > 0
  {
    && e == Holding(d, o.filename, AcceptanceV03.Placed(Resized(d, o), WrittenFrames(env, d, o, frames)))
            .(snapshots := e.snapshots)
    && e.snapshots - {o.filename} == d.snapshots - {o.filename}
    && exists records: Records ::
         && OnRecord(env, d, o, frames, records)
         && (SnapshotOf(e, o.filename) == Saved(LayoutOf(o), records)
             || (SnapshotOf(e, o.filename) == SnapshotOf(d, o.filename) && records == Advertised(env, d, o)))
  }

  lemma {:induction false} RunDecides(env: Environment, d: Disk, o: FileOffer, frames: seq<Frame>)
    requires o.chunkSize > 0
    ensures var s := PreparedState(env.H, d, o.filename, LayoutOf(o));
            var p, hash := Run(env.H, s, frames), AnnouncedHash(env, d, o, frames);
            && (p.Completed? <==> hash.Some?) && (p.Completed? ==> hash == Some(p.fileHash))
            && p.state.store.part == AcceptanceV03.Placed(Resized(d, o), WrittenFrames(env, d, o, frames))
            && OnRecord(env, d, o, frames, p.state.rx.records)
            && p.state.rx.layout == LayoutOf(o) && SnapshotFollows(s, p.state)
  {
    hide Run, PreparedRecords, AcceptanceV03.Accepted, AcceptanceV03.Finishes, AcceptanceV03.MisHashes,
         AcceptanceV03.Placed, SetLength, InRange, SnapshotOf, PartOf, HashOf, AcceptanceV03.Announced,
         AcceptanceV03.Open;
    var s := PreparedState(env.H, d, o.filename, LayoutOf(o));
    PreparedSmall(env.H, d, o.filename, LayoutOf(o));
    AcceptanceV03.ReceiverOutcome(env.H, s, frames);
    RunSnapshot(env.H, s, frames);
  }

  lemma {:induction false} CommittedLeaves(env: Environment, d: Disk, o: FileOffer, frames: seq<Frame>)
    requires WellFormed(d) && o.chunkSize > 0
    ensures var s := PreparedState(env.H, d, o.filename, LayoutOf(o));
            var e := Committed(PreparedDisk(d, o.filename, o.fileSize), o.filename, Run(env.H, s, frames).state.store);
            LeavesFile(env, d, e, o, frames)
  {
    hide Holding, SetLength, WellFormed, Run, WrittenFrames, AnnouncedHash, OnRecord, AcceptanceV03.Placed, Committed,
         PreparedRecords, PreparedDisk, Resized;
    var s := PreparedState(env.H, d, o.filename, LayoutOf(o));
    PreparedSmall(env.H, d, o.filename, LayoutOf(o));
    var t := Run(env.H, s, frames).state;
    RunDecides(env, d, o, frames);
    CommittedHolds(d, o.filename, o.fileSize, t.store);
    assert OnRecord(env, d, o, frames, t.rx.records);
  }

  /** What the transfer of an uninterrupted receiver does with the bytes that arrive after its inventory. */
  lemma {:induction false} TransferDecides(env: Environment, d: Disk, o: FileOffer, rest: Bytes)
    requires WellFormed(d) && o.chunkSize > 0
    ensures var frames := ParseStream(rest, WFP_VERSION_V03).0;
            var p := SessionV03.Received(env.H, PreparedState(env.H, d, o.filename, LayoutOf(o)),
                                         FrameBytes(SessionV03.AcceptFrame()) + rest, None);
            && p.Some?
            && (p.value.Completed? <==> AnnouncedHash(env, d, o, frames).Some?)
            && (p.value.Completed? ==> AnnouncedHash(env, d, o, frames) == Some(p.value.fileHash))
            && p.value.state.store.part == AcceptanceV03.Placed(Resized(d, o), WrittenFrames(env, d, o, frames))
            && |p.value.state.store.part| == o.fileSize
            && var e := Committed(PreparedDisk(d, o.filename, o.fileSize), o.filename, p.value.state.store);
               LeavesFile(env, d, e, o, frames)
  {
    hide Holding, SetLength, WellFormed, Run, WrittenFrames, AnnouncedHash, LeavesFile, PreparedState, ParseStream,
         Committed, PreparedDisk, FrameBytes, AfterAccept;
    var (frames, end) := ParseStream(rest, WFP_VERSION_V03);
    var accept := FrameBytes(SessionV03.AcceptFrame());
    TransferNeedsAccept(accept + rest);
    assert accept <= accept + rest && (accept + rest)[|accept|..] == rest;
    assert (accept + AfterAccept(accept + rest).value)[|accept|..] == AfterAccept(accept + rest).value;
    RunDecides(env, d, o, frames);
    CommittedLeaves(env, d, o, frames);
    WholeLength(env, d, o, frames);
  }

  lemma {:induction false} WholeLength(env: Environment, d: Disk, o: FileOffer, frames: seq<Frame>)
    requires o.chunkSize > 0
    ensures |Run(env.H, PreparedState(env.H, d, o.filename, LayoutOf(o)), frames).state.store.part| == o.fileSize
  {
    hide Run, PreparedRecords, InRange;
    var s := PreparedState(env.H, d, o.filename, LayoutOf(o));
    PreparedInv(env.H, LayoutOf(o), PartOf(d, o.filename), SnapshotOf(d, o.filename));
    RunKeepsInv(env.H, s, frames);
    RunSnapshot(env.H, s, frames);
  }

  /** The receipt a completed transfer asks for. */
  ghost function Asked(o: FileOffer, hash: Digest): Receipt {
    Receipt(o.transferId, o.filename, o.fileSize, hash)
  }

  /** A final file is in the way, or another receipt is, or the file does not have the announced hash. */
  ghost predicate Unpublishable(env: Environment, d: Disk, o: FileOffer, content: Bytes, hash: Digest) {
    || env.H(content) != hash || o.filename in d.finals
    || (o.transferId in d.receipts && d.receipts[o.transferId] != ReceiptText(Asked(o, hash)))
  }

  lemma {:induction false} CompletedDecides(env: Environment, d: Disk, o: FileOffer, store: Store, hash: Digest)
    requires WellFormed(d) && |store.part| == o.fileSize
    ensures var after := Committed(PreparedDisk(d, o.filename, o.fileSize), o.filename, store);
            var (e, ok) := Publish(env, after, Asked(o, hash), UNINTERRUPTED);
            && (ok <==> !Unpublishable(env, d, o, store.part, hash))
            && (ok ==> e == Deposited(env, d, o, store.part))
            && (!ok ==> e == after || (env.H(store.part) == hash && e == WithReceipt(after, Asked(o, hash))))
  {
    hide ApplyAll, FinalizePlan, SetLength, PreparedDisk, Committed, Landed, WithReceipt, Holding, PublishPlan;
    var after := Committed(PreparedDisk(d, o.filename, o.fileSize), o.filename, store);
    CommitTransfers(d, o.filename, o.fileSize, store);
    var r := Asked(o, hash);
    FullPlan(env, after, r);
    FinalizeSucceeds(env.H, env.platform, after, r);
    FinalizeLands(env.H, env.platform, after, r);
    CommittedDeposits(env, d, o, store);
    ReceiptNamesFile(after, r);
  }

  /**
   * The outcome of every session that is not answered from a receipt, for every disk and every byte that arrives.
   * VERIFIED is sent exactly when ACCEPT is followed by a transcript that covers the file, then COMPLETE with the
   * hash of what was written, and nothing is in the way of publishing it; the disk is then the one found plus the
   * delivery. In every other case nothing is published, and the partial file holds what the transcript placed in it.
   */
  lemma {:induction false} AnyPeerOutcome(env: Environment, d: Disk, o: FileOffer, stream: Bytes)
    requires WellFormed(d) && o.chunkSize > 0
    requires ReconcilePlan(env.H, env.platform, d, o).1 == Ok(NotReconciled)
    ensures var (e, ok) := Served(env, d, o, stream, UNINTERRUPTED);
            var accept := FrameBytes(SessionV03.AcceptFrame());
            if !(accept <= stream) then !ok && e == PreparedDisk(d, o.filename, o.fileSize)
            else
              var frames := ParseStream(stream[|accept|..], WFP_VERSION_V03).0;
              var content := AcceptanceV03.Placed(Resized(d, o), WrittenFrames(env, d, o, frames));
              var hash := AnnouncedHash(env, d, o, frames);
              && (ok <==> hash.Some? && !Unpublishable(env, d, o, content, hash.value))
              && (ok ==> e == Deposited(env, d, o, content))
              && (!ok ==>
                    || LeavesFile(env, d, e, o, frames)
                    || (hash.Some? && env.H(content) == hash.value
                        && exists left :: LeavesFile(env, d, left, o, frames) &&
                             e == WithReceipt(left, Asked(o, hash.value))))
  {
    hide Holding, SetLength, WellFormed, WrittenFrames, LeavesFile, PreparedState, ParseStream, Committed, PreparedDisk,
         FrameBytes, AfterAccept, ReconcilePlan, Publish, Deposited, WithReceipt, Unpublishable;
    TransferNeedsAccept(stream);
    var accept := FrameBytes(SessionV03.AcceptFrame());
    if accept <= stream {
      var rest := stream[|accept|..];
      assert stream == accept + rest;
      TransferDecides(env, d, o, rest);
      var p := SessionV03.Received(env.H, PreparedState(env.H, d, o.filename, LayoutOf(o)), stream, None).value;
      if p.Completed? {
        CompletedDecides(env, d, o, p.state.store, p.fileHash);
      }
    }
  }
}
