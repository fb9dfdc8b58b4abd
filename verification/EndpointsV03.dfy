/** Both ends of a WFP/0.3 session from OFFER on, as the code runs them (src/receiver_v03.rs, src/sender_v03.rs). */
module EndpointsV03 {
  import opened Prelude
  import opened ChunkLayout
  import opened ChunkState
  import opened Files
  import opened Frames
  import opened PayloadsV03
  import opened ReceiverV03
  import opened SenderV03
  import opened InventoryV03
  import opened PrepareV03
  import opened Storage
  import opened SessionV03
  import opened PublicationV03

  function VerifiedFrame(): Frame {
    Frame(WFP_VERSION_V03, Verified, 0, [])
  }

  // ----- the receiver -----

  const UNINTERRUPTED: Cut := Cut(true, 0, 0, None, 8, true)

  /** The frames a receiver writes after OFFER: nothing but VERIFIED when it reconciles, else its inventory first. */
  ghost function ReplyFrames(env: Environment, d: Disk, o: FileOffer, verified: bool): seq<Frame>
    requires o.chunkSize > 0
  {
    PreparedSmall(env.H, d, o.filename, LayoutOf(o));
    (if ReconcilePlan(env.H, env.platform, d, o).1 != Ok(NotReconciled) then []
     else InventoryFrames(PreparedState(env.H, d, o.filename, LayoutOf(o)).rx.records))
    + (if verified then [VerifiedFrame()] else [])
  }

  /**
   * What an OFFER that is not reconciled is answered with, as the sender reads it: an inventory it accepts, holding a
   * record exactly when the snapshot lists it for the offered layout and the partial file still has its bytes.
   */
  lemma {:induction false} AdvertisedIsProven(env: Environment, d: Disk, o: FileOffer)
    requires o.chunkSize > 0 && ReconcilePlan(env.H, env.platform, d, o).1 == Ok(NotReconciled)
    ensures var l := LayoutOf(o);
            && Sendable(ReplyFrames(env, d, o, false), WFP_VERSION_V03)
            && var answer := Negotiate(l, StreamBytes(ReplyFrames(env, d, o, false)));
            && answer.Ok? && answer.value.rest == []
            && ReplyFrames(env, d, o, true) == ReplyFrames(env, d, o, false) + [VerifiedFrame()]
            && forall r :: r in answer.value.records <==>
                 Proven(env.H, l, PartOf(d, o.filename), SnapshotOf(d, o.filename), r)
  {
    hide ReconcilePlan, PreparedRecords, Negotiate, FrameBytes, InRange, Proven, InventoryFrames, Encodable, PartOf,
         SnapshotOf;
    var l := LayoutOf(o);
    PreparedSmall(env.H, d, o.filename, l);
    var records := PreparedRecords(env.H, l, PartOf(d, o.filename), SnapshotOf(d, o.filename));
    InventorySendable(records);
    InventoryRoundTrip(l, records, |InventoryStream(records)|);
    assert InventoryStream(records)[..|InventoryStream(records)|] == InventoryStream(records);
    assert ReplyFrames(env, d, o, false) == InventoryFrames(records);
    forall r
      ensures r in records <==> Proven(env.H, l, PartOf(d, o.filename), SnapshotOf(d, o.filename), r)
    {
      PreparedIsProven(env.H, l, PartOf(d, o.filename), SnapshotOf(d, o.filename), r);
    }
  }

  /** A snapshot for another file size or chunk size, or none that can be used, is answered with RESUME 0 alone. */
  lemma {:induction false} UnusableSnapshotIsAnsweredEmpty(env: Environment, d: Disk, o: FileOffer)
    requires o.chunkSize > 0 && ReconcilePlan(env.H, env.platform, d, o).1 == Ok(NotReconciled)
    requires var snapshot := SnapshotOf(d, o.filename);
             snapshot.Saved? ==>
               || snapshot.layout.fileSize != o.fileSize || snapshot.layout.chunkSize != o.chunkSize
               || !Increasing(snapshot.chunks) || !InRange(LayoutOf(o), snapshot.chunks)
    ensures ReplyFrames(env, d, o, false) == [ResumeFrame(0)]
  {
    hide ReconcilePlan, PreparedRecords, InRange, Increasing, SnapshotOf;
    var l := LayoutOf(o);
    PreparedSmall(env.H, d, o.filename, l);
    UnusableSnapshotIsIgnored(env.H, l, PartOf(d, o.filename), SnapshotOf(d, o.filename));
    var none: Records := [];
    assert InventoryFrames(none) == [ResumeFrame(0)] by { NoBatches(); }
  }

  lemma {:induction false} NoBatches()
    ensures InventoryFrames([]) == [ResumeFrame(0)]
  {
  }

  /** The snapshot's records that the partial file still proves; anything unusable counts as no record at all. */
  method PrepareChunkInventory(H: HashFunction, l: Layout, part: Option<Bytes>, snapshot: Snapshot)
    returns (records: Records)
    ensures records == PreparedRecords(H, l, part, snapshot)
    ensures InRange(l, records)
  {
    PreparedInRange(H, l, part, snapshot);
    hide Revalidated, InRange;
    records := [];
    if snapshot.Saved? && snapshot.layout == l {
      var validated := ValidateRecordedChunks(l, snapshot.chunks);
      if validated.Ok? {
        records := RevalidateChunkState(H, l, snapshot.chunks, part);
        return;
      }
    }
    if part.Some? {
      RevalidatedNothing(H, l, part.value);
    }
  }

  /** RESUME and the batches, in order. */
  method SendInventory(writer: FrameWriter, records: Records)
    requires |records| < U64_LIMIT
    modifies writer
    ensures writer.sent == old(writer.sent) + InventoryFrames(records)
  {
    hide Encodable, ResumeFrame, HashesFrame, HashesFrames, Batches, EncodableBatch;
    BatchesPartition(records);
    ResumeFrameSendable(|records|);
    writer.WriteFrame(ResumeFrame(|records|));
    var batches := Batches(records);
    ghost var frames := HashesFrames(batches);
    ghost var begun := writer.sent;
    for i := 0 to |batches|
      invariant writer.sent == begun + frames[..i]
    {
      HashesFrameSendable(batches[i]);
      writer.WriteFrame(HashesFrame(batches[i]));
      TakeNext(begun, frames, i);
    }
    assert frames[..|batches|] == frames;
    Reassociate(old(writer.sent), [ResumeFrame(|records|)], frames);
  }

  lemma {:induction false} TakeNext(begun: seq<Frame>, frames: seq<Frame>, i: nat)
    requires i < |frames|
    ensures begun + frames[..i + 1] == (begun + frames[..i]) + [frames[i]]
  {
  }

  /** The partial file at the offered size: created, cut or extended in place. */
  method PreparePartialFile(handle: DiskHandle, n: Name, size: u64)
    modifies handle
    ensures handle.disk == PreparedDisk(old(handle.disk), n, size)
  {
    var d := handle.disk;
    if n in d.parts && d.parts[n] < |d.inodes| {
      var inode := d.parts[n];
      if |d.inodes[inode]| != size {
        d := d.(inodes := d.inodes[inode := SetLength(d.inodes[inode], size)]);
      } else {
        assert SetLength(d.inodes[inode], size) == d.inodes[inode];
        assert d.inodes[inode := d.inodes[inode]] == d.inodes;
      }
    } else {
      d := d.(inodes := d.inodes + [SetLength([], size)], parts := d.parts[n := |d.inodes|]);
    }
    handle.disk := d;
  }

  /** ACCEPT, then the transfer into the partial file and its snapshot. */
  method ReceiveIntoPartial(H: HashFunction, handle: DiskHandle, stream: ByteStream, n: Name, l: Layout,
                            records: Records)
    returns (hash: Option<Digest>)
    requires InRange(l, records) && n in handle.disk.parts && handle.disk.parts[n] < |handle.disk.inodes|
    modifies handle, stream
    ensures var d := old(handle.disk);
            var s := State(Receiver(l, records, None, None, None), Store(d.inodes[d.parts[n]], SnapshotOf(d, n)));
            match Received(H, s, old(stream.pending), None)
            case None => hash == None && handle.disk == d
            case Some(p) =>
              && handle.disk == Committed(d, n, p.state.store)
              && hash == if p.Completed? then Some(p.fileHash) else None
  {
    hide ParseFrame, ParseStream, ReceiveBytes, Run, InRange, Increasing;
    var response := ReadFrameForVersion(stream, WFP_VERSION_V03);
    if response.Err? || response.value.messageType != Accept || response.value.payload != [] {
      return None;
    }
    var d := handle.disk;
    var table := new ChunkStateTable(l, records);
    var receiver := new ChunkReceiver(table);
    var file := new PartFile(d.inodes[d.parts[n]]);
    var snapshot := new SnapshotFile(SnapshotOf(d, n));
    ReceiveBytesIsRun(H, receiver.StateOf(file, snapshot), stream.pending);
    var result := receiver.ReceiveTransfer(H, file, snapshot, stream);
    handle.disk := Committed(d, n, Store(file.content, snapshot.stored));
    return if result.Ok? then Some(result.value) else None;
  }

  lemma {:induction false} PreparedPartContent(H: HashFunction, d: Disk, n: Name, l: Layout)
    ensures var r := PreparedDisk(d, n, l.fileSize);
            PreparedState(H, d, n, l) ==
            State(Receiver(l, PreparedRecords(H, l, PartOf(d, n), SnapshotOf(d, n)), None, None, None),
                  Store(r.inodes[r.parts[n]], SnapshotOf(r, n)))
  {
    hide PreparedRecords, SetLength;
  }

  /** The receiver's session from OFFER on: reconcile, or prepare, negotiate, receive, finalise, VERIFIED. */
  method ReceiveSession(env: Environment, handle: DiskHandle, stream: ByteStream, writer: FrameWriter, o: FileOffer)
    returns (verified: bool)
    requires o.chunkSize > 0
    modifies handle, stream, writer
    ensures (handle.disk, verified) == Served(env, old(handle.disk), o, old(stream.pending), UNINTERRUPTED)
    ensures writer.sent == old(writer.sent) + ReplyFrames(env, old(handle.disk), o, verified)
  {
    hide ReconcilePlan, FinalizePlan, ApplyAll, PreparedDisk, Committed, PreparedRecords, Received, AfterAccept,
         InventoryFrames;
    ghost var d := handle.disk;
    var outcome := handle.ReconcileCompletedTransfer(env.H, env.platform, o);
    ReconcileRuns(env, d, o);
    if outcome.Err? {
      return false;
    }
    if outcome.value == Reconciled {
      writer.WriteFrame(VerifiedFrame());
      return true;
    }
    UnreconciledTouchesNothing(env, d, o);
    var l: Layout := New(o.fileSize, o.chunkSize).value;
    var n := o.filename;
    var records := PrepareChunkInventory(env.H, l, PartOf(handle.disk, n), SnapshotOf(handle.disk, n));
    PreparedSmall(env.H, d, n, l);
    PreparedPartContent(env.H, d, n, l);
    PreparePartialFile(handle, n, o.fileSize);
    SendInventory(writer, records);
    var hash := ReceiveIntoPartial(env.H, handle, stream, n, l, records);
    if hash.None? {
      return false;
    }
    var receipt := Receipt(o.transferId, n, o.fileSize, hash.value);
    FullPlan(env, handle.disk, receipt);
    var finalized := handle.Finalize(env.H, env.platform, receipt);
    if finalized.Err? {
      return false;
    }
    writer.WriteFrame(VerifiedFrame());
    return true;
  }

  lemma {:induction false} UnreconciledTouchesNothing(env: Environment, d: Disk, o: FileOffer)
    requires ReconcilePlan(env.H, env.platform, d, o).1 == Ok(NotReconciled)
    ensures ApplyAll(d, ReconcilePlan(env.H, env.platform, d, o).0) == d
  {
  }

  lemma {:induction false} FullPlan(env: Environment, after: Disk, r: Receipt)
    requires PartOf(after, r.filename).Some?
    ensures var (actions, result) := FinalizePlan(env.H, env.platform, after, r);
            && |actions| <= 8
            && Publish(env, after, r, UNINTERRUPTED) == (ApplyAll(after, actions), result.Ok?)
  {
    hide ApplyAll, FinalizePlan;
    PlanLengths(env.H, env.platform, after, r);
    var actions := FinalizePlan(env.H, env.platform, after, r).0;
    assert actions[..|actions|] == actions;
  }

  lemma {:induction false} ReconcileRuns(env: Environment, d: Disk, o: FileOffer)
    ensures var actions := ReconcilePlan(env.H, env.platform, d, o).0;
            |actions| <= 8 && actions[..Min(8, |actions|)] == actions
  {
    hide CheckFile;
  }

  // ----- the sender -----

  datatype SessionError =
    | SessionProtocol(io: ProtocolIoError)
    | InvalidVerifiedPayload(length: nat)
    | NegotiationFailed(negotiation: NegotiationError)
    | ScanFailed(scan: SourceScanError)
    | UnexpectedReply(messageType: MessageType)

  /** The answer the sender waits for: VERIFIED with an empty payload. */
  function Verdict(stream: Bytes): Result<Unit, SessionError> {
    match ParseFrame(stream, WFP_VERSION_V03)
    case Err(e) => Err(SessionProtocol(e))
    case Ok(p) =>
      if p.frame.messageType != Verified then Err(UnexpectedReply(p.frame.messageType))
      else if p.frame.payload != [] then Err(InvalidVerifiedPayload(|p.frame.payload|))
      else Ok(Unit.Unit)
  }

  method ReadVerdict(stream: ByteStream) returns (r: Result<Unit, SessionError>)
    modifies stream
    ensures r == Verdict(old(stream.pending))
  {
    hide ParseFrame;
    var frame := ReadFrameForVersion(stream, WFP_VERSION_V03);
    if frame.Err? {
      return Err(SessionProtocol(frame.error));
    }
    if frame.value.messageType != Verified {
      return Err(UnexpectedReply(frame.value.messageType));
    }
    if frame.value.payload != [] {
      return Err(InvalidVerifiedPayload(|frame.value.payload|));
    }
    return Ok(Unit.Unit);
  }

  ghost predicate AnswersOffer(stream: Bytes) {
    ParseFrame(stream, WFP_VERSION_V03).Ok? && ParseFrame(stream, WFP_VERSION_V03).value.frame.messageType == Verified
  }

  /** A sender of the offered length succeeds on what arrives from the receiver. */
  ghost predicate SenderSucceeds(l: Layout, stream: Bytes) {
    if AnswersOffer(stream) then Verdict(stream).Ok?
    else Negotiate(l, stream).Ok? && Verdict(Negotiate(l, stream).value.rest).Ok?
  }

  /**
   * The sender's session after OFFER. It reports success for VERIFIED only, either at once or after exactly the frames
   * the accepted inventory calls for, and of a source that is not as long as it offered it sends the whole chunks only.
   */
  method SendSession(H: HashFunction, stream: ByteStream, writer: FrameWriter, path: Bytes, o: FileOffer)
    returns (r: Result<Unit, SessionError>)
    requires o.chunkSize > 0
    modifies stream, writer
    ensures AnswersOffer(old(stream.pending)) ==> r == Verdict(old(stream.pending)) && writer.sent == old(writer.sent)
    ensures !AnswersOffer(old(stream.pending)) ==>
            match Negotiate(LayoutOf(o), old(stream.pending))
            case Err(e) =>
              && writer.sent == old(writer.sent)
              && r == Err(match ParseFrame(old(stream.pending), WFP_VERSION_V03)
                 case Err(io) => SessionProtocol(io)
                 case Ok(_) => NegotiationFailed(e))
            case Ok(a) =>
              if |path| == o.fileSize then
                && writer.sent == old(writer.sent) + SenderFrames(H, LayoutOf(o), path, old(stream.pending))
                && r == Verdict(a.rest)
              else
                && r == Err(ScanFailed(LengthError(LayoutOf(o), |path|)))
                && old(writer.sent) + [AcceptFrame()] <= writer.sent
                && SentUntilWrong(H, LayoutOf(o), path, a.records, writer.sent[|old(writer.sent)| + 1..])
    ensures |path| == o.fileSize ==> (r.Ok? <==> SenderSucceeds(LayoutOf(o), old(stream.pending)))
  {
    hide ParseFrame, NegotiateAfter, SentFrames, Verdict, InRange, Increasing;
    ghost var begin := stream.pending;
    ghost var sent := writer.sent;
    var l: Layout := New(o.fileSize, o.chunkSize).value;
    var response := ReadFrameForVersion(stream, WFP_VERSION_V03);
    if response.Err? {
      return Err(SessionProtocol(response.error));
    }
    if response.value.messageType == Verified {
      VerdictOf(begin);
      return if response.value.payload == [] then Ok(Unit.Unit)
          else Err(InvalidVerifiedPayload(|response.value.payload|));
    }
    var inventory := ReceiveInventoryAfterResume(stream, l, response.value);
    if inventory.Err? {
      return Err(NegotiationFailed(inventory.error));
    }
    NegotiateIsSound(l, begin);
    writer.WriteFrame(AcceptFrame());
    var file := new ReadFile(path);
    var scanner := new SourceScanner(H, file, l, inventory.value);
    ghost var accepted := writer.sent;
    var completed := SendSourceChunksAndComplete(writer, scanner);
    if completed.Err? {
      assert accepted == sent + [AcceptFrame()];
      return Err(ScanFailed(completed.error));
    }
    r := ReadVerdict(stream);
  }

  lemma {:induction false} VerdictOf(stream: Bytes)
    requires AnswersOffer(stream)
    ensures var p := ParseFrame(stream, WFP_VERSION_V03).value.frame;
            Verdict(stream) == if p.payload == [] then Ok(Unit.Unit) else Err(InvalidVerifiedPayload(|p.payload|))
  {
  }

  /** The sender takes the end of the session for success exactly when VERIFIED, and nothing in it, comes next. */
  lemma {:induction false} VerdictIsVerified(stream: Bytes)
    ensures Encodable(VerifiedFrame())
    ensures Verdict(stream).Ok? <==> FrameBytes(VerifiedFrame()) <= stream
  {
    hide FrameBytes, ParseFrame;
    FrontFrame(VerifiedFrame(), stream);
  }

  /** The receiver starts a transfer exactly when ACCEPT, and nothing in it, comes next. */
  lemma {:induction false} TransferNeedsAccept(stream: Bytes)
    ensures Encodable(AcceptFrame())
    ensures AfterAccept(stream).Some? <==> FrameBytes(AcceptFrame()) <= stream
    ensures AfterAccept(stream).Some? ==> stream == FrameBytes(AcceptFrame()) + AfterAccept(stream).value
  {
    hide FrameBytes, ParseFrame;
    FrontFrame(AcceptFrame(), stream);
  }

  // ----- both ends -----

  lemma {:induction false} VerifiedIsVerdict()
    ensures Encodable(VerifiedFrame())
    ensures AnswersOffer(FrameBytes(VerifiedFrame())) && Verdict(FrameBytes(VerifiedFrame())) == Ok(Unit.Unit)
    ensures !AnswersOffer([]) && Verdict([]).Err?
  {
    hide FrameBytes, ParseFrame;
    assert Encodable(VerifiedFrame());
    ParsePrinted(VerifiedFrame(), []);
    assert FrameBytes(VerifiedFrame()) + [] == FrameBytes(VerifiedFrame());
    ParseEmpty(WFP_VERSION_V03);
  }

  lemma {:induction false} NothingNegotiated(l: Layout)
    ensures Negotiate(l, []).Err?
  {
  }

  lemma {:induction false} InventoryIsNoAnswer(l: Layout, stream: Bytes)
    requires Negotiate(l, stream).Ok?
    ensures !AnswersOffer(stream)
  {
    hide ParseFrame, Collect;
  }

  /** An honest sender reads from the receiver's replies exactly whether VERIFIED was among them. */
  lemma {:induction false} SenderReadsReplies(l: Layout, records: Records, reconciled: bool, verified: bool)
    requires InRange(l, records) && |records| < U64_LIMIT
    ensures var frames := (if reconciled then [] else InventoryFrames(records))
            + (if verified then [VerifiedFrame()] else []);
            Sendable(frames, WFP_VERSION_V03) && (SenderSucceeds(l, StreamBytes(frames)) <==> verified)
  {
    hide FrameBytes, Negotiate, InventoryFrames, Verdict, AnswersOffer, InRange, Encodable;
    VerifiedIsVerdict();
    InventorySendable(records);
    NothingNegotiated(l);
    var first := if reconciled then [] else InventoryFrames(records);
    var last := if verified then [VerifiedFrame()] else [];
    StreamBytesAppend(first, last);
    assert StreamBytes(last) == if verified then FrameBytes(VerifiedFrame()) else [] by {
      if verified { assert FrameBytes(VerifiedFrame()) + [] == FrameBytes(VerifiedFrame()); }
    }
    if reconciled {
      assert [] + StreamBytes(last) == StreamBytes(last);
    } else {
      InventoryRoundTrip(l, records, |InventoryStream(records)|);
      assert InventoryStream(records)[..|InventoryStream(records)|] == InventoryStream(records);
      NegotiateStable(l, InventoryStream(records), StreamBytes(last));
      InventoryIsNoAnswer(l, InventoryStream(records) + StreamBytes(last));
      assert [] + StreamBytes(last) == StreamBytes(last);
    }
  }

  /**
   * An attempt of the whole-run theorems is both ends of the code: the receiver serves what the cut connection delivers
   * of the sender's frames, those are the answer to what it delivers of the receiver's inventory, and the sender
   * succeeds exactly when VERIFIED is written and arrives.
   */
  lemma {:induction false} AttemptIsBothEnds(env: Environment, d: Disk, o: FileOffer, source: Bytes, cut: Cut)
    requires HonestOffer(o, source) && cut.offered
    ensures var l := LayoutOf(o);
            var records := PreparedState(env.H, d, o.filename, l).rx.records;
            && |records| < U64_LIMIT
            && var inventory := Deliver(InventoryStream(records), cut.inventoryBytes);
            && Sendable(SenderFrames(env.H, l, source, inventory), WFP_VERSION_V03)
            && var transfer := Deliver(StreamBytes(SenderFrames(env.H, l, source, inventory)), cut.transferBytes);
            && var (e, verified) := Served(env, d, o, transfer, cut.(replied := true));
            && Attempt(env, d, o, source, cut) == (e, verified && cut.replied)
            && Sendable(ReplyFrames(env, d, o, verified), WFP_VERSION_V03)
            && (SenderSucceeds(l, StreamBytes(ReplyFrames(env, d, o, verified))) <==> verified)
  {
    hide ReconcilePlan, FinalizePlan, ApplyAll, PreparedState, PreparedDisk, Received, InventoryStream,
         InventoryFrames, SenderFrames, SenderSucceeds, InRange, Committed, Encodable;
    var l := LayoutOf(o);
    PreparedSmall(env.H, d, o.filename, l);
    var records := PreparedState(env.H, d, o.filename, l).rx.records;
    var inventory := Deliver(InventoryStream(records), cut.inventoryBytes);
    AnswerSendable(env.H, l, source, inventory);
    var transfer := Deliver(StreamBytes(SenderFrames(env.H, l, source, inventory)), cut.transferBytes);
    var verified := Served(env, d, o, transfer, cut.(replied := true)).1;
    SenderReadsReplies(l, records, ReconcilePlan(env.H, env.platform, d, o).1 != Ok(NotReconciled), verified);
  }
}
