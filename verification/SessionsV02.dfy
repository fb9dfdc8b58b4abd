/**
 * Whole WFP/0.2 sessions: OFFER to VERIFIED over a partial file that survives them (src/receiver.rs, src/sender.rs).
 */
module SessionsV02 {
  import opened Prelude
  import opened Frames
  import opened Files
  import opened PrefixV02
  import opened Storage
  import PayloadsV03

  datatype OfferV02 = OfferV02(transferId: PayloadsV03.TransferId, filename: Name, fileSize: u64)

  /** What the receiver holds for one offer: the partial file, the final file and the receipt of its transfer ID. */
  datatype Slot = Slot(part: Option<Bytes>, final: Option<Bytes>, receipt: Option<StoredReceipt>)

  datatype RejectCode = CannotPrepareDestination | FileExists

  datatype Reply =
    | VerifiedReply
    | AcceptReply
    | RejectReply(code: RejectCode)
    | ResumeReply(offset: u64, prefixHash: Digest)

  /** Effects a process stop may fall between. `promote_rename` moves the partial file over the final name. */
  datatype Step = DropPart | SaveReceipt(receipt: Receipt) | PromoteRename

  function Do(d: Slot, step: Step): Slot {
    match step
    case DropPart => d.(part := None)
    case SaveReceipt(r) => d.(receipt := Some(ReceiptText(r)))
    case PromoteRename => if d.part.Some? then d.(part := None, final := d.part) else d
  }

  function DoAll(d: Slot, steps: seq<Step>): Slot
    decreases |steps|
  {
    if |steps| == 0 then d else DoAll(Do(d, steps[0]), steps[1..])
  }

  // ----- the receiver's answer to an OFFER -----

  /** A receipt for the offered ID is either honoured with verified bytes or the offer is rejected. */
  function Reconcile(H: HashFunction, d: Slot, o: OfferV02): (seq<Step>, bool)
    requires d.receipt.Some?
  {
    match d.receipt.value
    case UnreadableReceipt => ([], false)
    case ReceiptText(r) =>
      if r.transferId != o.transferId || r.filename != o.filename || r.fileSize != o.fileSize then ([], false)
      else if d.final.Some? then
        if CheckFile(H, d.final.value, r.fileSize, r.blake3).Ok? then ([DropPart], true) else ([], false)
      else if d.part.Some? && CheckFile(H, d.part.value, r.fileSize, r.blake3).Ok? then ([PromoteRename], true)
      else ([], false)
  }

  predicate Resumable(d: Slot, o: OfferV02) {
    d.part.Some? && 0 < |d.part.value| <= o.fileSize
  }

  function FirstReply(H: HashFunction, d: Slot, o: OfferV02): Reply {
    if d.receipt.Some? then if Reconcile(H, d, o).1 then VerifiedReply else RejectReply(CannotPrepareDestination)
    else if d.final.Some? then RejectReply(FileExists)
    else if Resumable(d, o) then ResumeReply(|d.part.value|, H(d.part.value))
    else AcceptReply
  }

  // ----- one connection, from OFFER on -----

  /** The disk before the last steps, those steps, whether VERIFIED follows them, and the replies already written. */
  datatype Served = Served(disk: Slot, steps: seq<Step>, verified: bool, replies: seq<Reply>)

  function Dropped(d: Slot): Slot {
    d.(part := None)
  }

  /** What is left after the transfer loop: a lost connection keeps the partial file, every other error drops it. */
  function Settled(H: HashFunction, d: Slot, o: OfferV02, r: Reception, replies: seq<Reply>): Served {
    match r
    case Continuing(s) => Served(d.(part := Some(s.part)), [], false, replies)
    case Broken(s, e) => Served(if ShouldPreserve(e) then d.(part := Some(s.part)) else Dropped(d), [], false, replies)
    case Announced(s, h) =>
      match Settle(H, s, o.fileSize, h)
      case Err(_) => Served(Dropped(d), [], false, replies)
      case Ok(hash) =>
        Served(d.(part := Some(s.part)),
               [SaveReceipt(Receipt(o.transferId, o.filename, o.fileSize, hash)), PromoteRename], true, replies)
  }

  /** The partial file a transfer leaves is the one it wrote. */
  lemma {:induction false} SettledIgnoresPart(H: HashFunction, d: Slot, e: Slot, o: OfferV02, r: Reception,
                                              replies: seq<Reply>)
    requires Dropped(e) == Dropped(d)
    ensures Settled(H, e, o, r, replies) == Settled(H, d, o, r, replies)
  {
  }

  const NOTHING_RECEIVED: Incoming := Incoming([], 0, [])

  function Resumed(part: Bytes): Incoming
    requires |part| < U64_LIMIT
  {
    Incoming(part, |part|, part)
  }

  function Fresh(H: HashFunction, d: Slot, o: OfferV02, stream: Bytes, writes: nat, replies: seq<Reply>): Served {
    if writes == 0 then Served(Dropped(d), [], false, replies)
    else Settled(H, d, o, TakeBytes(NOTHING_RECEIVED, o.fileSize, stream), replies + [AcceptReply])
  }

  function Written(reply: Reply, writes: nat): seq<Reply> {
    if writes > 0 then [reply] else []
  }

  /** The connection of an offer, when `stream` arrives from the sender and `writes` replies can be written. */
  function Serve(H: HashFunction, d: Slot, o: OfferV02, stream: Bytes, writes: nat): Served {
    match FirstReply(H, d, o)
    case VerifiedReply => Served(d, Reconcile(H, d, o).0, true, [])
    case RejectReply(code) => Served(d, [], false, Written(RejectReply(code), writes))
    case AcceptReply => Fresh(H, d, o, stream, writes, [])
    case ResumeReply(offset, hash) =>
      if writes == 0 then Served(d, [], false, [])
      else
        match ParseFrame(stream, WFP_VERSION_V02)
        case Err(e) =>
          Served(if ShouldPreserve(ConnectionFailed(e)) then d else Dropped(d), [], false, [ResumeReply(offset, hash)])
        case Ok(p) =>
          if p.frame.messageType == Accept && p.frame.payload == [] then
            Settled(H, d, o, TakeBytes(Resumed(d.part.value), o.fileSize, stream[p.used..]),
                [ResumeReply(offset, hash)])
          else if p.frame.messageType == Restart && p.frame.payload == [] then
            Fresh(H, d, o, stream[p.used..], writes - 1, [ResumeReply(offset, hash)])
          else Served(Dropped(d), [], false, [ResumeReply(offset, hash)])
  }

  // ----- the receiver's code -----

  /** Replies to the sender; a write fails once the connection is lost. */
  class ReplyWriter {
    var sent: seq<Reply>
    var writes: nat

    constructor (writes: nat)
      ensures sent == [] && this.writes == writes
    {
      sent := [];
      this.writes := writes;
    }

    method Write(reply: Reply) returns (ok: bool)
      modifies this
      ensures ok == (old(writes) > 0)
      ensures sent == old(sent) + Written(reply, old(writes))
      ensures writes == if ok then old(writes) - 1 else 0
    {
      if writes == 0 {
        return false;
      }
      sent := sent + [reply];
      writes := writes - 1;
      return true;
    }
  }

  /** The bytes a transfer starts from: the open partial file, its length and the running hash. */
  datatype Prepared = Prepared(bytesReceived: u64, hasher: Bytes)

  class Destination {
    var part: Option<Bytes>
    var final: Option<Bytes>
    var receipt: Option<StoredReceipt>

    constructor (d: Slot)
      ensures Contents() == d
    {
      part := d.part;
      final := d.final;
      receipt := d.receipt;
    }

    function Contents(): Slot
      reads this
    {
      Slot(part, final, receipt)
    }

    method VerifyCompletedFile(H: HashFunction, content: Bytes, r: Receipt) returns (ok: bool)
      ensures ok == CheckFile(H, content, r.fileSize, r.blake3).Ok?
    {
      if |content| != r.fileSize {
        return false;
      }
      var checked := HashPhysicalFile(H, content, r.fileSize, r.blake3);
      return checked.Ok?;
    }

    method ReconcileCompletedTransfer(H: HashFunction, o: OfferV02, writer: ReplyWriter)
      returns (done: bool, verified: bool)
      modifies this, writer
      ensures done == old(receipt).Some?
      ensures !done ==>
                && !verified && Contents() == old(Contents()) && writer.sent == old(writer.sent)
                && writer.writes == old(writer.writes)
      ensures done ==> verified == Reconcile(H, old(Contents()), o).1
      ensures done ==> Contents() == DoAll(old(Contents()), Reconcile(H, old(Contents()), o).0)
      ensures done ==> writer.sent == old(writer.sent) +
                       Written(if verified then VerifiedReply else RejectReply(CannotPrepareDestination),
                               old(writer.writes))
    {
      if receipt.None? {
        return false, false;
      }
      done, verified := true, false;
      if receipt.value.ReceiptText? {
        var r := receipt.value.receipt;
        if r.transferId == o.transferId && r.filename == o.filename && r.fileSize == o.fileSize {
          if final.Some? {
            verified := VerifyCompletedFile(H, final.value, r);
            if verified {
              part := None;
            }
          } else if part.Some? {
            verified := VerifyCompletedFile(H, part.value, r);
            if verified {
              part, final := None, part;
            }
          }
        }
      }
      var _ := writer.Write(if verified then VerifiedReply else RejectReply(CannotPrepareDestination));
    }

    method PrepareFreshTransfer(writer: ReplyWriter) returns (p: Option<Prepared>)
      modifies this, writer
      ensures final == old(final) && receipt == old(receipt)
      ensures p == if old(writer.writes) > 0 then Some(Prepared(0, [])) else None
      ensures part == if old(writer.writes) > 0 then Some([]) else None
      ensures writer.sent == old(writer.sent) + Written(AcceptReply, old(writer.writes))
      ensures writer.writes == Max0(old(writer.writes) - 1)
    {
      part := Some([]);
      var ok := writer.Write(AcceptReply);
      if !ok {
        part := None;
        return None;
      }
      return Some(Prepared(0, []));
    }

    /** RESUME with the hash of the partial file, then ACCEPT, RESTART or the end of the transfer. */
    method PrepareTransfer(H: HashFunction, stream: ByteStream, writer: ReplyWriter, o: OfferV02)
      returns (p: Option<Prepared>)
      requires receipt.None? && final.None?
      modifies this, stream, writer
      ensures final == None && receipt == None
      ensures p.Some? ==>
                && part.Some? && p.value.hasher == part.value
                && p.value.bytesReceived == |part.value| <= o.fileSize
      ensures old(writer.sent) <= writer.sent
      ensures p.None? ==> Serve(H, old(Contents()), o, old(stream.pending), old(writer.writes)) ==
                          Served(Contents(), [], false, writer.sent[|old(writer.sent)|..])
      ensures p.Some? ==> Serve(H, old(Contents()), o, old(stream.pending), old(writer.writes)) ==
                          Settled(H, Contents(), o, TakeBytes(Resumed(part.value), o.fileSize, stream.pending),
                                  writer.sent[|old(writer.sent)|..])
      ensures writer.writes == Max0(old(writer.writes) - (|writer.sent| - |old(writer.sent)|))
    {
      hide TakeBytes, ParseFrame, Settled, Reconcile;
      if part.None? {
        p := PrepareFreshTransfer(writer);
        assert p.Some? ==> writer.sent[|old(writer.sent)|..] == [] + [AcceptReply];
        SettledIgnoresPart(H, old(Contents()), Contents(), o, TakeBytes(NOTHING_RECEIVED, o.fileSize, stream.pending),
                           writer.sent[|old(writer.sent)|..]);
        return;
      }
      var partialSize := |part.value|;
      if partialSize == 0 || partialSize > o.fileSize {
        part := None;
        p := PrepareFreshTransfer(writer);
        assert p.Some? ==> writer.sent[|old(writer.sent)|..] == [] + [AcceptReply];
        SettledIgnoresPart(H, old(Contents()), Contents(), o, TakeBytes(NOTHING_RECEIVED, o.fileSize, stream.pending),
                           writer.sent[|old(writer.sent)|..]);
        return;
      }
      var file := new ReadFile(part.value);
      var hasher := file.ReadToEnd(MAX_DATA_PAYLOAD_LENGTH);
      assert part.value[0..] == part.value;
      var resume := ResumeReply(partialSize, H(hasher));
      var ok := writer.Write(resume);
      if !ok {
        return None;
      }
      var response := ReadFrameForVersion(stream, WFP_VERSION_V02);
      if response.Err? {
        if !ShouldPreserve(ConnectionFailed(response.error)) {
          part := None;
        }
        return None;
      }
      if response.value.messageType == Accept && response.value.payload == [] {
        return Some(Prepared(partialSize, hasher));
      }
      if response.value.messageType == Restart && response.value.payload == [] {
        part := None;
        p := PrepareFreshTransfer(writer);
        assert p.Some? ==> writer.sent[|old(writer.sent)|..] == [resume] + [AcceptReply];
        SettledIgnoresPart(H, old(Contents()), Contents(), o, TakeBytes(NOTHING_RECEIVED, o.fileSize, stream.pending),
                           writer.sent[|old(writer.sent)|..]);
        return;
      }
      part := None;
      return None;
    }

    method ReceiveConnection(H: HashFunction, stream: ByteStream, writer: ReplyWriter, o: OfferV02)
      returns (verified: bool)
      modifies this, stream, writer
      ensures var s := Serve(H, old(Contents()), o, old(stream.pending), old(writer.writes));
              && verified == s.verified
              && Contents() == DoAll(s.disk, s.steps)
              && writer.sent == old(writer.sent) + s.replies +
                                (if verified then Written(VerifiedReply, Max0(old(writer.writes) - |s.replies|))
                                    else [])
    {
      hide TakeBytes, ParseFrame;
      var done, reconciled := ReconcileCompletedTransfer(H, o, writer);
      if done {
        return reconciled;
      }
      if final.Some? {
        var _ := writer.Write(RejectReply(FileExists));
        return false;
      }
      var prepared := PrepareTransfer(H, stream, writer, o);
      if prepared.None? {
        return false;
      }
      ghost var ready := Contents();
      var output := new OutputFile(part.value);
      var result := ReceiveFileData(H, stream, output, o.fileSize, prepared.value.bytesReceived, prepared.value.hasher);
      part := Some(output.content);
      if result.Err? {
        if !ShouldPreserve(result.error) {
          part := None;
        }
        return false;
      }
      ghost var steps := [SaveReceipt(Receipt(o.transferId, o.filename, o.fileSize, result.value)), PromoteRename];
      receipt := Some(ReceiptText(Receipt(o.transferId, o.filename, o.fileSize, result.value)));
      part, final := None, part;
      TwoSteps(ready.(part := Some(output.content)), steps);
      var _ := writer.Write(VerifiedReply);
      return true;
    }
  }

  function Max0(n: int): nat {
    if n < 0 then 0 else n
  }

  lemma {:induction false} TwoSteps(d: Slot, steps: seq<Step>)
    requires |steps| == 2
    ensures DoAll(d, steps) == Do(Do(d, steps[0]), steps[1])
    ensures DoAll(d, steps[..1]) == Do(d, steps[0]) && DoAll(d, steps[..0]) == d
  {
    hide Do;
    var tail, none := steps[1..], steps[2..];
    assert tail[1..] == none;
    assert DoAll(Do(Do(d, steps[0]), steps[1]), none) == Do(Do(d, steps[0]), steps[1]);
    assert DoAll(Do(d, steps[0]), tail) == DoAll(Do(Do(d, steps[0]), steps[1]), none);
    assert steps[..1][1..] == [];
  }

  // ----- the sender's side of a connection -----

  function AcceptFrame(): Frame {
    Frame(WFP_VERSION_V02, Accept, 0, [])
  }

  function RestartFrame(): Frame {
    Frame(WFP_VERSION_V02, Restart, 0, [])
  }

  predicate AcceptsResume(H: HashFunction, source: Bytes, fileSize: u64, offset: u64, prefixHash: Digest) {
    offset <= fileSize && offset <= |source| && H(source[..offset]) == prefixHash
  }

  /** Where the sender starts sending, and what it answers first. */
  function StartOffset(H: HashFunction, source: Bytes, fileSize: u64, reply: Reply): (r: nat)
    ensures r <= |source|
  {
    if reply.ResumeReply? && AcceptsResume(H, source, fileSize, reply.offset, reply.prefixHash) then reply.offset else 0
  }

  function Response(H: HashFunction, source: Bytes, fileSize: u64, reply: Reply): seq<Frame> {
    if !reply.ResumeReply? then []
    else if AcceptsResume(H, source, fileSize, reply.offset, reply.prefixHash) then [AcceptFrame()]
    else [RestartFrame()]
  }

  datatype SenderError = ConnectionLost | RejectedByReceiver | UnexpectedReply | Source(error: SendError)

  class ReplyReader {
    var pending: seq<Reply>

    constructor (pending: seq<Reply>)
      ensures this.pending == pending
    {
      this.pending := pending;
    }

    method Read() returns (r: Option<Reply>)
      modifies this
      ensures old(pending) == [] ==> r == None && pending == []
      ensures old(pending) != [] ==> r == Some(old(pending)[0]) && pending == old(pending)[1..]
    {
      if pending == [] {
        return None;
      }
      r := Some(pending[0]);
      pending := pending[1..];
    }
  }

  method NegotiateResume(H: HashFunction, replies: ReplyReader, writer: FrameSink, file: ReadFile, fileSize: u64,
                         offset: u64, prefixHash: Digest)
    returns (r: Result<Bytes, SenderError>)
    requires file.position == 0
    modifies replies, writer, file
    ensures |file.content| < offset <= fileSize ==>
            r == Err(Source(SourceEndedEarly)) && writer.sent == old(writer.sent)
    ensures AcceptsResume(H, file.content, fileSize, offset, prefixHash) ==>
            && r == Ok(file.content[..offset]) && file.position == offset
            && writer.sent == old(writer.sent) + [AcceptFrame()] && replies.pending == old(replies.pending)
    ensures !AcceptsResume(H, file.content, fileSize, offset, prefixHash)
            && (offset > fileSize || offset <= |file.content|) ==>
            && writer.sent == old(writer.sent) + [RestartFrame()] && file.position == 0
            && r == (match RestartRefusal(old(replies.pending)) case None => Ok([]) case Some(e) => Err(e))
            && (r.Ok? ==> replies.pending == old(replies.pending)[1..])
  {
    if offset > fileSize {
      writer.WriteFrame(RestartFrame());
      r := WaitForRestartAccept(replies);
      file.Seek(0);
      return;
    }
    var hashed := HashPrefix(file, offset);
    if hashed.Err? {
      return Err(Source(hashed.error));
    }
    if H(hashed.value) == prefixHash {
      writer.WriteFrame(AcceptFrame());
      return Ok(hashed.value);
    }
    writer.WriteFrame(RestartFrame());
    r := WaitForRestartAccept(replies);
    file.Seek(0);
  }

  /** What ends the session while a sender that asked to restart waits for ACCEPT; `None` when ACCEPT arrives. */
  function RestartRefusal(replies: seq<Reply>): Option<SenderError> {
    if replies == [] then Some(ConnectionLost)
    else
      match replies[0]
      case AcceptReply => None
      case RejectReply(_) => Some(RejectedByReceiver)
      case _ => Some(UnexpectedReply)
  }

  method WaitForRestartAccept(replies: ReplyReader) returns (r: Result<Bytes, SenderError>)
    modifies replies
    ensures r == match RestartRefusal(old(replies.pending)) case None => Ok([]) case Some(e) => Err(e)
    ensures old(replies.pending) != [] ==> replies.pending == old(replies.pending)[1..]
  {
    var response := replies.Read();
    match response
    case None => return Err(ConnectionLost);
    case Some(AcceptReply) => return Ok([]);
    case Some(RejectReply(_)) => return Err(RejectedByReceiver);
    case Some(_) => return Err(UnexpectedReply);
  }

  /** What a sender writes before any data, and the result if its session ends there. */
  function Opening(H: HashFunction, path: Bytes, fileSize: u64, replies: seq<Reply>)
    : (seq<Frame>, Option<Result<Unit, SenderError>>)
  {
    if replies == [] then ([], Some(Err(ConnectionLost)))
    else
      match replies[0]
      case VerifiedReply => ([], Some(Ok(Unit.Unit)))
      case RejectReply(_) => ([], Some(Err(RejectedByReceiver)))
      case AcceptReply => ([], None)
      case ResumeReply(offset, hash) =>
        if |path| < offset <= fileSize then ([], Some(Err(Source(SourceEndedEarly))))
        else if AcceptsResume(H, path, fileSize, offset, hash) then ([AcceptFrame()], None)
        else ([RestartFrame()], match RestartRefusal(replies[1..]) case None => None case Some(e) => Some(Err(e)))
  }

  /** The replies read before any data: one more when the sender asked to restart. */
  function Consumed(H: HashFunction, path: Bytes, fileSize: u64, reply: Reply): nat {
    if Response(H, path, fileSize, reply) == [RestartFrame()] then 2 else 1
  }

  /** What the sender concludes from the reply after COMPLETE. */
  function FinalAnswer(replies: seq<Reply>): Result<Unit, SenderError> {
    if replies == [] then Err(ConnectionLost)
    else if replies[0] == VerifiedReply then Ok(Unit.Unit)
    else Err(UnexpectedReply)
  }

  /** From the first reply on, for every sequence of replies. The sender reports success only after VERIFIED. */
  method SendOnce(H: HashFunction, replies: ReplyReader, writer: FrameSink, path: Bytes, fileSize: u64,
                  cancelAfter: Option<nat>)
    returns (r: Result<Unit, SenderError>, ghost pieces: seq<Bytes>)
    modifies replies, writer
    ensures var all := old(replies.pending);
            var (opening, early) := Opening(H, path, fileSize, all);
            match early
            case Some(result) => r == result && writer.sent == old(writer.sent) + opening
            case None =>
              var begin := StartOffset(H, path, fileSize, all[0]);
              if cancelAfter.Some? && cancelAfter.value <= |pieces| then
                && r == Err(Source(CancelledByUser)) && cancelAfter == Some(|pieces|)
                && (exists end :: begin <= end <= |path| && Splits(pieces, path[begin..end]))
                && writer.sent == old(writer.sent) + opening + DataFrames(pieces) + [CancelFrame()]
              else
                && Splits(pieces, path[begin..])
                && writer.sent == old(writer.sent) + opening + DataFrames(pieces)
                                  + (if |path| == fileSize then [CompleteFrame(H(path))] else [])
                && r == (if |path| == fileSize then FinalAnswer(all[Consumed(H, path, fileSize, all[0])..])
                         else Err(Source(ProcessedWrongLength(fileSize, |path|))))
  {
    hide Splits, DataFrames;
    pieces := [];
    var response := replies.Read();
    if response.None? {
      return Err(ConnectionLost), pieces;
    }
    if response.value == VerifiedReply {
      return Ok(Unit.Unit), pieces;
    }
    if response.value.RejectReply? {
      return Err(RejectedByReceiver), pieces;
    }
    var file := new ReadFile(path);
    var hasher: Bytes := [];
    if response.value.ResumeReply? {
      var negotiated := NegotiateResume(H, replies, writer, file, fileSize, response.value.offset,
          response.value.prefixHash);
      if negotiated.Err? {
        return Err(negotiated.error), pieces;
      }
      hasher := negotiated.value;
    }
    var sent;
    sent, pieces := SendFileData(H, writer, file, hasher, fileSize, cancelAfter);
    ghost var end := file.position;
    assert Splits(pieces, path[|hasher|..end]);
    assert path[|hasher|..|path|] == path[|hasher|..];
    if sent.Err? {
      return Err(Source(sent.error)), pieces;
    }
    var verdict := replies.Read();
    r := if verdict == Some(VerifiedReply) then Ok(Unit.Unit)
         else if verdict == None then Err(ConnectionLost)
         else Err(UnexpectedReply);
  }
}
