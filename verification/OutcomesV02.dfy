/**
 * What a WFP/0.2 receiver is left with, said of the bytes that reached it: when a connection is verified, when its
 * partial file survives, and what a cancelled transfer leaves (src/receiver.rs, src/sender.rs).
 */
module OutcomesV02 {
  import opened Prelude
  import opened Frames
  import opened PrefixV02
  import opened Storage
  import opened SessionsV02

  // ----- frames that arrived -----

  /** The number of DATA frames before the first frame of another type. */
  function DataRun(frames: seq<Frame>): (k: nat)
    ensures k <= |frames|
    ensures forall i :: 0 <= i < k ==> frames[i].messageType == Data
    ensures k < |frames| ==> frames[k].messageType != Data
    decreases |frames|
  {
    if |frames| == 0 || frames[0].messageType != Data then 0 else 1 + DataRun(frames[1..])
  }

  lemma {:induction false} RunOfData(frames: seq<Frame>)
    requires |frames| > 0 && frames[0].messageType == Data
    ensures DataRun(frames) == 1 + DataRun(frames[1..])
    ensures Payloads(frames[..DataRun(frames)]) == frames[0].payload + Payloads(frames[1..][..DataRun(frames[1..])])
  {
    hide Payloads;
    var k := DataRun(frames[1..]);
    assert frames[..1 + k][0] == frames[0] && frames[..1 + k][1..] == frames[1..][..k];
    PayloadsStep(frames[..1 + k]);
  }

  lemma {:induction false} PayloadsStep(frames: seq<Frame>)
    requires |frames| > 0 && frames[0].messageType == Data
    ensures Payloads(frames) == frames[0].payload + Payloads(frames[1..])
  {
  }

  /** The file a transfer holds when its leading DATA frames were all accepted. */
  function Whole(start: Bytes, frames: seq<Frame>): Bytes {
    start + Payloads(frames[..DataRun(frames)])
  }

  /** The receiving loop, by the first frame that is not DATA. */
  lemma {:induction false} LoopDecides(start: Bytes, size: u64, frames: seq<Frame>)
    requires |start| <= size
    ensures var r := TakeAll(Resumed(start), size, frames);
            var k, whole := DataRun(frames), Whole(start, frames);
            if |whole| > size then r.Broken? && !r.error.ConnectionFailed?
            else if k == |frames| then r == Continuing(Resumed(whole))
            else if frames[k].messageType == Complete && |frames[k].payload| == 32
            then r == Announced(Resumed(whole), frames[k].payload)
            else r.Broken? && !r.error.ConnectionFailed?
    decreases |frames|
  {
    if |frames| == 0 || frames[0].messageType != Data {
      assert frames[..0] == [];
      assert Whole(start, frames) == start;
    } else {
      RunOfData(frames);
      var piece := frames[0].payload;
      assert Whole(start, frames) == (start + piece) + Payloads(frames[1..][..DataRun(frames[1..])]);
      if |start + piece| <= size {
        LoopDecides(start + piece, size, frames[1..]);
      }
    }
  }

  // ----- where a connection's transfer begins -----

  /** The sender's answer is ACCEPT, with nothing in it. */
  predicate Accepts(stream: Bytes) {
    FrameBytes(AcceptFrame()) <= stream
  }

  /** A partial file the receiver offers to resume from. */
  predicate Offered(d: Slot, o: OfferV02) {
    d.part.Some? && 0 < |d.part.value| && |d.part.value| <= o.fileSize
  }

  /**
   * The file a transfer starts from and the bytes that arrive for it; `None` when the connection does not get there.
   */
  function TransferOf(d: Slot, o: OfferV02, stream: Bytes, writes: nat): Option<(Bytes, Bytes)> {
    var accept, restart := FrameBytes(AcceptFrame()), FrameBytes(RestartFrame());
    if !Offered(d, o) then if writes >= 1 then Some(([], stream)) else None
    else if writes >= 1 && Accepts(stream) then Some((d.part.value, stream[|accept|..]))
    else if writes >= 2 && restart <= stream then Some(([], stream[|restart|..]))
    else None
  }

  lemma {:induction false} AnswersEncodable()
    ensures Encodable(AcceptFrame()) && Encodable(RestartFrame())
  {
  }

  /** A connection that reaches a transfer runs it on the bytes after the negotiation, from the file named above. */
  lemma {:induction false} TransferIsServed(H: HashFunction, d: Slot, o: OfferV02, stream: Bytes, writes: nat)
    returns (replies: seq<Reply>)
    requires d.receipt == None && d.final == None && TransferOf(d, o, stream, writes).Some?
    ensures var (start, rest) := TransferOf(d, o, stream, writes).value;
            && |start| <= o.fileSize
            && Serve(H, d, o, stream, writes) ==
               Settled(H, d, o, TakeBytes(Resumed(start), o.fileSize, rest), replies)
    ensures replies == (if Offered(d, o) then [ResumeReply(|d.part.value|, H(d.part.value))] else []) +
                       (if Offered(d, o) && Accepts(stream) then [] else [AcceptReply])
  {
    hide TakeBytes, Settled, ParseFrame, FrameBytes;
    AnswersEncodable();
    FrontFrame(AcceptFrame(), stream);
    FrontFrame(RestartFrame(), stream);
    var served := Serve(H, d, o, stream, writes);
    if !Offered(d, o) {
      replies := [] + [AcceptReply];
    } else {
      var resume := [ResumeReply(|d.part.value|, H(d.part.value))];
      replies := if FrameBytes(AcceptFrame()) <= stream then resume else resume + [AcceptReply];
      assert resume + [] == resume;
    }
  }

  // ----- the outcome of a connection -----

  /** The disk when a connection is over and every step of it was run. */
  function After(H: HashFunction, d: Slot, o: OfferV02, stream: Bytes, writes: nat): Slot {
    var s := Serve(H, d, o, stream, writes);
    DoAll(s.disk, s.steps)
  }

  /** What a finished loop leaves, by its three ways to end. */
  lemma {:induction false} SettledDecides(H: HashFunction, d: Slot, o: OfferV02, start: Bytes, rest: Bytes,
                                          replies: seq<Reply>)
    requires d.receipt == None && d.final == None && |start| <= o.fileSize
    ensures var s := Settled(H, d, o, TakeBytes(Resumed(start), o.fileSize, rest), replies);
            var e := DoAll(s.disk, s.steps);
            var (frames, end) := ParseStream(rest, WFP_VERSION_V02);
            var k, whole := DataRun(frames), Whole(start, frames);
            && s.replies == replies
            && (s.verified <==> && |whole| == o.fileSize && k < |frames|
                                && frames[k].messageType == Complete && frames[k].payload == H(whole))
            && (s.verified ==>
                  e == Slot(None, Some(whole),
                      Some(ReceiptText(Receipt(o.transferId, o.filename, o.fileSize, H(whole))))))
            && (!s.verified ==>
                  var kept := |whole| <= o.fileSize && k == |frames| && end == UnexpectedEof;
                  e == Slot(if kept then Some(whole) else None, None, None))
  {
    hide TakeBytes, TakeAll, ParseStream, DoAll, Whole;
    var (frames, end) := ParseStream(rest, WFP_VERSION_V02);
    TakeBytesIsTakeAll(Resumed(start), o.fileSize, rest);
    LoopDecides(start, o.fileSize, frames);
    var s := Settled(H, d, o, TakeBytes(Resumed(start), o.fileSize, rest), replies);
    if s.verified {
      TwoSteps(s.disk, s.steps);
    } else {
      assert s.steps == [];
      assert DoAll(s.disk, []) == s.disk by { NoSteps(s.disk); }
    }
  }

  lemma {:induction false} NoSteps(d: Slot)
    ensures DoAll(d, []) == d
  {
  }

  /**
   * The outcome of every connection that reaches its transfer, whatever the peer sends. It is verified exactly when the
   * DATA frames are followed by a COMPLETE with the hash of a whole file of the offered size. An unverified one keeps a
   * partial file exactly when every frame that arrived was DATA within the offer and the bytes then just stopped; what
   * it keeps is the file it started from and all that data.
   */
  lemma {:induction false} TransferOutcome(H: HashFunction, d: Slot, o: OfferV02, stream: Bytes, writes: nat)
    requires d.receipt == None && d.final == None && TransferOf(d, o, stream, writes).Some?
    ensures var (start, rest) := TransferOf(d, o, stream, writes).value;
            var (frames, end) := ParseStream(rest, WFP_VERSION_V02);
            var k, whole := DataRun(frames), Whole(start, frames);
            var verified, e := Serve(H, d, o, stream, writes).verified, After(H, d, o, stream, writes);
            && (verified <==> && |whole| == o.fileSize && k < |frames|
                              && frames[k].messageType == Complete && frames[k].payload == H(whole))
            && (verified ==>
                  e == Slot(None, Some(whole),
                      Some(ReceiptText(Receipt(o.transferId, o.filename, o.fileSize, H(whole))))))
            && (!verified ==> e.final == None && e.receipt == None)
            && (!verified && e.part.Some? <==> |whole| <= o.fileSize && k == |frames| && end == UnexpectedEof)
            && (!verified && e.part.Some? ==> e.part.value == whole)
    ensures Serve(H, d, o, stream, writes).replies ==
            (if Offered(d, o) then [ResumeReply(|d.part.value|, H(d.part.value))] else []) +
            (if Offered(d, o) && Accepts(stream) then [] else [AcceptReply])
  {
    hide Serve, Settled, TakeBytes, ParseStream, DoAll, TransferOf, Whole, Accepts;
    var replies := TransferIsServed(H, d, o, stream, writes);
    var (start, rest) := TransferOf(d, o, stream, writes).value;
    SettledDecides(H, d, o, start, rest, replies);
  }

  /**
   * A connection that does not reach its transfer changes nothing but the partial file, and keeps that exactly when
   * RESUME could not be written or the bytes stopped before the whole answer to it had arrived.
   */
  lemma {:induction false} NegotiationOutcome(H: HashFunction, d: Slot, o: OfferV02, stream: Bytes, writes: nat)
    requires d.receipt == None && d.final == None && TransferOf(d, o, stream, writes).None?
    ensures !Serve(H, d, o, stream, writes).verified
    ensures After(H, d, o, stream, writes) ==
            if Offered(d, o) && (writes == 0 || ParseFrame(stream, WFP_VERSION_V02) == Err(UnexpectedEof)) then d
            else Slot(None, None, None)
    ensures Serve(H, d, o, stream, writes).replies ==
            if Offered(d, o) && writes > 0 then [ResumeReply(|d.part.value|, H(d.part.value))] else []
  {
    hide TakeBytes, Settled, ParseFrame, FrameBytes, DoAll;
    AnswersEncodable();
    FrontFrame(AcceptFrame(), stream);
    FrontFrame(RestartFrame(), stream);
    NoSteps(d);
    NoSteps(Slot(None, None, None));
    if ParseFrame(stream, WFP_VERSION_V02).Ok? {
      PrintParsed(stream, WFP_VERSION_V02);
    }
  }

  /** The answer of a receiver that already has a receipt or a final file; only a proven file is ever confirmed. */
  lemma {:induction false} SettledEarlierOutcome(H: HashFunction, d: Slot, o: OfferV02, stream: Bytes, writes: nat)
    requires d.receipt.Some? || d.final.Some?
    ensures var s, e := Serve(H, d, o, stream, writes), After(H, d, o, stream, writes);
            var held := if d.final.Some? then d.final else d.part;
            && (s.verified <==>
                  && held.Some? && |held.value| == o.fileSize
                  && d.receipt ==
                     Some(ReceiptText(Receipt(o.transferId, o.filename, o.fileSize, H(held.value)))))
            && e == (if s.verified then Slot(None, held, d.receipt) else d)
            && s.replies == (if s.verified || writes == 0 then []
                             else [RejectReply(if d.receipt.Some? then CannotPrepareDestination else FileExists)])
  {
    hide TakeBytes, ParseFrame, DoAll;
    NoSteps(d);
    OneStep(d, DropPart);
    OneStep(d, PromoteRename);
  }

  lemma {:induction false} OneStep(d: Slot, step: Step)
    ensures DoAll(d, [step]) == Do(d, step)
  {
    hide Do;
    assert [step][1..] == [];
  }

  // ----- a cancelled transfer -----

  /** The frames of a sender that its user interrupts. */
  function CancelledFrames(H: HashFunction, path: Bytes, size: u64, replies: seq<Reply>, pieces: seq<Bytes>)
    : seq<Frame>
  {
    Opening(H, path, size, replies).0 + DataFrames(pieces) + [CancelFrame()]
  }

  lemma {:induction false} CancelledSendable(H: HashFunction, path: Bytes, size: u64, replies: seq<Reply>,
                                             pieces: seq<Bytes>, data: Bytes)
    requires Splits(pieces, data)
    ensures Sendable(CancelledFrames(H, path, size, replies, pieces), WFP_VERSION_V02)
    ensures Sendable(DataFrames(pieces) + [CancelFrame()], WFP_VERSION_V02)
    ensures CancelledFrames(H, path, size, replies, pieces) ==
            Opening(H, path, size, replies).0 + (DataFrames(pieces) + [CancelFrame()])
  {
    hide Splits, DataFrames;
    SplitsPayload(pieces, data);
    AnswersEncodable();
    assert Encodable(CancelFrame());
  }

  /** The file a transfer starts from once both sides have agreed on it. */
  function AgreedStart(H: HashFunction, d: Slot, o: OfferV02, path: Bytes): Bytes {
    if Offered(d, o) && |d.part.value| <= |path| && H(path[..|d.part.value|]) == H(d.part.value) then d.part.value
    else []
  }

  /** The sender's opening leads the receiver to the transfer of exactly the frames that follow it. */
  lemma {:induction false} OpeningReaches(H: HashFunction, d: Slot, o: OfferV02, path: Bytes, replies: seq<Reply>,
                                          tail: seq<Frame>, writes: nat)
    requires d.receipt == None && d.final == None
    requires Opening(H, path, o.fileSize, replies).1.None? && replies[0] == FirstReply(H, d, o)
    requires writes >= Consumed(H, path, o.fileSize, replies[0])
    requires Sendable(tail, WFP_VERSION_V02)
    ensures Sendable(Opening(H, path, o.fileSize, replies).0 + tail, WFP_VERSION_V02)
    ensures TransferOf(d, o, StreamBytes(Opening(H, path, o.fileSize, replies).0 + tail), writes) ==
            Some((AgreedStart(H, d, o, path), StreamBytes(tail)))
  {
    hide FrameBytes, ParseFrame;
    AnswersEncodable();
    var opening := Opening(H, path, o.fileSize, replies).0;
    if opening == [] {
      assert opening + tail == tail;
    } else {
      var f := opening[0];
      assert opening == [f] && (opening + tail)[1..] == tail;
      var stream := StreamBytes(opening + tail);
      assert stream == FrameBytes(f) + StreamBytes(tail);
      assert stream[|FrameBytes(f)|..] == StreamBytes(tail);
      FrontFrame(AcceptFrame(), stream);
      FrontFrame(RestartFrame(), stream);
    }
  }

  lemma {:induction false} RunOfPieces(pieces: seq<Bytes>, f: Frame)
    requires f.messageType != Data
    ensures DataRun(DataFrames(pieces) + [f]) == |pieces|
    decreases |pieces|
  {
    if |pieces| == 0 {
      assert DataFrames(pieces) + [f] == [f];
    } else {
      assert (DataFrames(pieces) + [f])[1..] == DataFrames(pieces[1..]) + [f];
      RunOfPieces(pieces[1..], f);
    }
  }

  /** The receiving loop on the frames of an interrupted sender: it takes every piece and reports the cancellation. */
  lemma {:induction false} CancelIsTaken(s: Incoming, source: Bytes, pieces: seq<Bytes>, end: nat)
    requires |source| < U64_LIMIT && InStep(s, |source|) && s.part <= source && |s.part| <= end <= |source|
    requires Splits(pieces, source[|s.part|..end])
    ensures var r := TakeAll(s, |source|, DataFrames(pieces) + [CancelFrame()]);
            && r.Broken? && r.error == Cancelled
            && r.state.part == s.part + Payloads(DataFrames(pieces)) == source[..end]
  {
    hide Splits, DataFrames, TakeAll;
    SplitsPayload(pieces, source[|s.part|..end]);
    var data := DataFrames(pieces);
    DataIsTaken(s, source, pieces, end);
    TakeAppend(s, |source|, data, [CancelFrame()]);
    TakeCancel(TakeAll(s, |source|, data).state, |source|);
  }

  lemma {:induction false} DataIsTaken(s: Incoming, source: Bytes, pieces: seq<Bytes>, end: nat)
    requires |source| < U64_LIMIT && InStep(s, |source|) && s.part <= source && |s.part| <= end <= |source|
    requires Splits(pieces, source[|s.part|..end])
    ensures var r := TakeAll(s, |source|, DataFrames(pieces));
            r.Continuing? && r.state.part == source[..end] && source[..end] == s.part + source[|s.part|..end]
    decreases |pieces|
  {
    assert source[..end] == s.part + source[|s.part|..end];
    if |pieces| > 0 {
      var first := pieces[0];
      var t := Take(s, |source|, DataFrame(first)).state;
      assert source[..end] == t.part + source[|s.part|..end][|first|..];
      assert source[|t.part|..end] == source[|s.part|..end][|first|..];
      assert t.part <= source[..end];
      DataIsTaken(t, source, pieces[1..], end);
      assert DataFrames(pieces)[1..] == DataFrames(pieces[1..]);
    }
  }

  lemma {:induction false} TakeCancel(s: Incoming, expectedSize: u64)
    ensures TakeAll(s, expectedSize, [CancelFrame()]) == Broken(s, Cancelled)
  {
  }

  /**
   * Cancellation on both ends: for every source, every partial file the receiver holds and every division of the data,
   * once the frames of an interrupted sender have arrived nothing is verified and nothing is left for the offer: no
   * partial file, no final file, no receipt.
   */
  lemma {:induction false} CancelledLeavesNothing(H: HashFunction, d: Slot, o: OfferV02, path: Bytes,
                                                  replies: seq<Reply>, pieces: seq<Bytes>, data: Bytes, writes: nat)
    requires d.receipt == None && d.final == None
    requires Opening(H, path, o.fileSize, replies).1.None? && replies[0] == FirstReply(H, d, o)
    requires writes >= Consumed(H, path, o.fileSize, replies[0])
    requires Splits(pieces, data)
    ensures var frames := CancelledFrames(H, path, o.fileSize, replies, pieces);
            && Sendable(frames, WFP_VERSION_V02)
            && !Serve(H, d, o, StreamBytes(frames), writes).verified
            && After(H, d, o, StreamBytes(frames), writes) == Slot(None, None, None)
  {
    hide Splits, DataFrames, Opening, Serve, After, TransferOf, Payloads, StreamBytes, ParseStream, Encodable;
    CancelledSendable(H, path, o.fileSize, replies, pieces, data);
    var tail := DataFrames(pieces) + [CancelFrame()];
    OpeningReaches(H, d, o, path, replies, tail, writes);
    ParsePrintedStream(tail, WFP_VERSION_V02);
    RunOfPieces(pieces, CancelFrame());
    TransferOutcome(H, d, o, StreamBytes(CancelledFrames(H, path, o.fileSize, replies, pieces)), writes);
  }

  // ----- the sender's decisions -----

  /** The sender's answer to every first reply, and when it goes on to send data. */
  lemma {:induction false} OpeningDecides(H: HashFunction, path: Bytes, size: u64, replies: seq<Reply>)
    requires |replies| > 0
    ensures var (opening, early) := Opening(H, path, size, replies);
            var resume := replies[0].ResumeReply?;
            var short := resume && |path| < replies[0].offset <= size;
            var matches := resume && !short && replies[0].offset <= size &&
                           H(path[..replies[0].offset]) == replies[0].prefixHash;
            && (early == Some(Ok(Unit.Unit)) <==> replies[0] == VerifiedReply)
            && opening == (if matches then [AcceptFrame()] else if resume && !short then [RestartFrame()] else [])
            && (early.None? <==>
                  || replies[0] == AcceptReply || matches
                  || (resume && !short && |replies| > 1 && replies[1] == AcceptReply))
  {
  }

  /** A sender that hears nothing, or anything but VERIFIED at the end, does not report success. */
  lemma {:induction false} SuccessMeansVerified(H: HashFunction, path: Bytes, size: u64, replies: seq<Reply>)
    ensures Opening(H, path, size, []) == ([], Some(Err(ConnectionLost)))
    ensures FinalAnswer(replies).Ok? <==> |replies| > 0 && replies[0] == VerifiedReply
  {
  }
}
