/**
 * What WFP/0.2 sessions promise together: every byte is accepted once, and VERIFIED means the source (src/receiver.rs,
 * src/sender.rs).
 */
module ConservationV02 {
  import opened Prelude
  import opened Frames
  import opened PrefixV02
  import opened Storage
  import opened SessionsV02

  // ----- counting -----

  /** The bytes of the DATA frames the receiving loop accepts. */
  function AcceptedData(s: Incoming, expectedSize: u64, frames: seq<Frame>): nat
    decreases |frames|
  {
    if |frames| == 0 then 0
    else
      match Take(s, expectedSize, frames[0])
      case Continuing(t) => |frames[0].payload| + AcceptedData(t, expectedSize, frames[1..])
      case _ => 0
  }

  lemma {:induction false} AcceptedDataIsGrowth(s: Incoming, expectedSize: u64, frames: seq<Frame>)
    ensures |TakeAll(s, expectedSize, frames).state.part| == |s.part| + AcceptedData(s, expectedSize, frames)
    decreases |frames|
  {
    if |frames| > 0 {
      var r := Take(s, expectedSize, frames[0]);
      if r.Continuing? {
        AcceptedDataIsGrowth(r.state, expectedSize, frames[1..]);
      }
    }
  }

  /** The bytes of the DATA frames a connection accepts, wherever its transfer starts. */
  function AcceptedBytes(H: HashFunction, d: Slot, o: OfferV02, stream: Bytes, writes: nat): nat {
    match FirstReply(H, d, o)
    case VerifiedReply => 0
    case RejectReply(_) => 0
    case AcceptReply => FreshBytes(o, stream, writes)
    case ResumeReply(_, _) =>
      if writes == 0 then 0
      else
        match ParseFrame(stream, WFP_VERSION_V02)
        case Err(_) => 0
        case Ok(p) =>
          if p.frame.payload != [] then 0
          else if p.frame.messageType == Accept then
            AcceptedData(Resumed(d.part.value), o.fileSize, ParseStream(stream[p.used..], WFP_VERSION_V02).0)
          else if p.frame.messageType == Restart then FreshBytes(o, stream[p.used..], writes - 1)
          else 0
  }

  function FreshBytes(o: OfferV02, stream: Bytes, writes: nat): nat {
    if writes == 0 then 0 else AcceptedData(NOTHING_RECEIVED, o.fileSize, ParseStream(stream, WFP_VERSION_V02).0)
  }

  // ----- honest sessions, cut anywhere -----

  /** The pieces the source is read in, and where the session is interrupted. */
  datatype Connection = Connection(pieces: seq<Bytes>, offered: bool, writes: nat, bytes: nat, steps: nat,
      replied: bool)

  datatype Outcome = Outcome(disk: Slot, verified: bool, accepted: nat)

  function HonestFrames(H: HashFunction, source: Bytes, reply: Reply, pieces: seq<Bytes>): seq<Frame>
    requires |source| < U64_LIMIT
  {
    Response(H, source, |source|, reply) + Transmission(H, source, pieces)
  }

  function Transmission(H: HashFunction, source: Bytes, pieces: seq<Bytes>): seq<Frame> {
    DataFrames(pieces) + [CompleteFrame(H(source))]
  }

  ghost predicate Reads(H: HashFunction, d: Slot, o: OfferV02, source: Bytes, c: Connection) {
    && o.fileSize == |source|
    && Splits(c.pieces, source[StartOffset(H, source, |source|, FirstReply(H, d, o))..])
  }

  /** A sender that gets to send data, and is not interrupted, sends exactly these frames. */
  lemma {:induction false} HonestFramesAreSent(H: HashFunction, source: Bytes, replies: seq<Reply>, pieces: seq<Bytes>)
    requires |source| < U64_LIMIT && Opening(H, source, |source|, replies).1.None?
    ensures HonestFrames(H, source, replies[0], pieces) ==
            Opening(H, source, |source|, replies).0 + DataFrames(pieces) + [CompleteFrame(H(source))]
  {
    hide DataFrames;
    Reassociate(Opening(H, source, |source|, replies).0, DataFrames(pieces), [CompleteFrame(H(source))]);
  }

  lemma {:induction false} TransmissionSendable(H: HashFunction, source: Bytes, pieces: seq<Bytes>, data: Bytes)
    requires Splits(pieces, data)
    ensures Sendable(Transmission(H, source, pieces), WFP_VERSION_V02)
  {
    hide Splits, DataFrames;
    SplitsPayload(pieces, data);
  }

  lemma {:induction false} HonestSendable(H: HashFunction, source: Bytes, reply: Reply, pieces: seq<Bytes>, data: Bytes)
    requires |source| < U64_LIMIT && Splits(pieces, data)
    ensures Sendable(HonestFrames(H, source, reply, pieces), WFP_VERSION_V02)
  {
    hide Splits, DataFrames, Transmission;
    TransmissionSendable(H, source, pieces, data);
  }

  ghost function HonestBytes(H: HashFunction, d: Slot, o: OfferV02, source: Bytes, c: Connection): Bytes
    requires Reads(H, d, o, source, c)
  {
    HonestSendable(H, source, FirstReply(H, d, o), c.pieces,
        source[StartOffset(H, source, |source|, FirstReply(H, d, o))..]);
    StreamBytes(HonestFrames(H, source, FirstReply(H, d, o), c.pieces))
  }

  ghost function Arriving(H: HashFunction, d: Slot, o: OfferV02, source: Bytes, c: Connection): Bytes
    requires Reads(H, d, o, source, c)
  {
    HonestBytes(H, d, o, source, c)[..Min(c.bytes, |HonestBytes(H, d, o, source, c)|)]
  }

  /** One session of an honest sender, with the receiver stopped after any of its last steps. */
  ghost function Session(H: HashFunction, d: Slot, o: OfferV02, source: Bytes, c: Connection): Outcome
    requires Reads(H, d, o, source, c)
  {
    if !c.offered then Outcome(d, false, 0)
    else
      var stream := Arriving(H, d, o, source, c);
      var s := Serve(H, d, o, stream, c.writes);
      Outcome(DoAll(s.disk, s.steps[..Min(c.steps, |s.steps|)]),
              s.verified && c.steps >= |s.steps| && c.writes > |s.replies| && c.replied,
              AcceptedBytes(H, d, o, stream, c.writes))
  }

  // ----- one honest transfer from a prefix of the source -----

  ghost function CutReception(H: HashFunction, s: Incoming, source: Bytes, pieces: seq<Bytes>, n: nat): Reception
    requires |source| < U64_LIMIT && n <= |pieces| + 1
  {
    LostAfter(TakeAll(s, |source|, Transmission(H, source, pieces)[..n]), UnexpectedEof)
  }

  /** Cut before COMPLETE it leaves a longer prefix; whole, it settles with the source. */
  lemma {:induction false} CutTransmission(H: HashFunction, s: Incoming, source: Bytes, pieces: seq<Bytes>, n: nat)
    requires |source| < U64_LIMIT && InStep(s, |source|) && s.part <= source
    requires Splits(pieces, source[|s.part|..]) && n <= |pieces| + 1
    ensures var r := CutReception(H, s, source, pieces, n);
            && s.part <= r.state.part <= source
            && |r.state.part| == |s.part| + AcceptedData(s, |source|, Transmission(H, source, pieces)[..n])
            && (if n <= |pieces| then r == Broken(r.state, ConnectionFailed(UnexpectedEof))
                else
                  && r.Announced? && r.state.part == source
                  && Settle(H, r.state, |source|, r.senderHash) == Ok(H(source)))
  {
    hide Splits, DataFrames, TakeAll, Settle, AcceptedData, InStep;
    var frames := Transmission(H, source, pieces);
    AcceptedDataIsGrowth(s, |source|, frames[..n]);
    if n <= |pieces| {
      assert frames[..n] == DataFrames(pieces)[..n];
      HonestPieces(s, source, pieces, n);
    } else {
      assert frames[..n] == frames;
      HonestWhole(H, s, source, pieces);
    }
  }

  // ----- sessions of one transfer -----

  ghost function ReceiptOf(H: HashFunction, o: OfferV02, source: Bytes): Receipt
    requires o.fileSize == |source|
  {
    Receipt(o.transferId, o.filename, o.fileSize, H(source))
  }

  /** Every disk a transfer can leave: a prefix, the whole file with its receipt, or the published file. */
  ghost predicate Genuine(H: HashFunction, o: OfferV02, source: Bytes, d: Slot)
    requires o.fileSize == |source|
  {
    var receipt := Some(ReceiptText(ReceiptOf(H, o, source)));
    || (d.receipt == None && d.final == None && (d.part.Some? ==> d.part.value <= source))
    || (d.receipt == receipt && d.final == None && d.part == Some(source))
    || Published(H, o, source, d)
  }

  ghost predicate Published(H: HashFunction, o: OfferV02, source: Bytes, d: Slot)
    requires o.fileSize == |source|
  {
    d.receipt == Some(ReceiptText(ReceiptOf(H, o, source))) && d.final == Some(source) && d.part == None
  }

  /** The bytes of the source a disk holds. */
  function Held(d: Slot): nat {
    if d.final.Some? then |d.final.value| else if d.part.Some? then |d.part.value| else 0
  }

  /** From a prefix of the source, a cut transmission leaves a genuine disk and holds what it accepted. */
  ghost predicate StepKeeps(H: HashFunction, o: OfferV02, source: Bytes, s: Served, steps: nat, before: nat,
                            accepted: nat)
    requires o.fileSize == |source|
  {
    var after := DoAll(s.disk, s.steps[..Min(steps, |s.steps|)]);
    && Genuine(H, o, source, after) && Held(after) == before + accepted
    && (s.verified && steps >= |s.steps| ==> Published(H, o, source, after))
  }

  lemma {:induction false} SettledKeeps(H: HashFunction, d: Slot, o: OfferV02, s: Incoming, source: Bytes,
                                        pieces: seq<Bytes>, n: nat, replies: seq<Reply>, steps: nat)
    requires o.fileSize == |source| && d.receipt == None && d.final == None
    requires InStep(s, |source|) && s.part <= source
    requires Splits(pieces, source[|s.part|..]) && n <= |pieces| + 1
    ensures StepKeeps(H, o, source, Settled(H, d, o, CutReception(H, s, source, pieces, n), replies), steps,
                      |s.part|, AcceptedData(s, |source|, Transmission(H, source, pieces)[..n]))
    ensures Settled(H, d, o, CutReception(H, s, source, pieces, n), replies).verified <==> n == |pieces| + 1
  {
    hide Splits, CutReception, Settle, AcceptedData, InStep, Transmission;
    CutTransmission(H, s, source, pieces, n);
    var r := CutReception(H, s, source, pieces, n);
    var served := Settled(H, d, o, r, replies);
    if n <= |pieces| {
      assert served.steps[..Min(steps, 0)] == [];
    } else {
      TwoSteps(served.disk, served.steps);
      assert served.steps[..2] == served.steps;
    }
  }

  // ----- the bytes of a session -----

  lemma {:induction false} CutBytes(H: HashFunction, s: Incoming, source: Bytes, pieces: seq<Bytes>, k: nat)
    requires |source| < U64_LIMIT && s.part <= source && Splits(pieces, source[|s.part|..])
    requires Sendable(Transmission(H, source, pieces), WFP_VERSION_V02)
    requires k <= |StreamBytes(Transmission(H, source, pieces))|
    ensures var frames := Transmission(H, source, pieces);
            var n := WholeFrames(frames, k);
            && |frames| == |pieces| + 1 && n <= |frames|
            && TakeBytes(s, |source|, StreamBytes(frames)[..k]) == CutReception(H, s, source, pieces, n)
            && ParseStream(StreamBytes(frames)[..k], WFP_VERSION_V02).0 == frames[..n]
            && (k == |StreamBytes(frames)| ==> n == |pieces| + 1)
  {
    hide Splits, TakeBytes, TakeAll, ParseStream, StreamBytes, WholeFrames;
    var frames := Transmission(H, source, pieces);
    assert |frames| == |pieces| + 1;
    TakeCutStream(s, |source|, frames, k);
    ParseCutStream(frames, WFP_VERSION_V02, k);
  }

  /** The receiver's side of a transmission that starts at a prefix and is cut after `k` bytes. */
  lemma {:induction false} TransmissionKeeps(H: HashFunction, d: Slot, o: OfferV02, s: Incoming, source: Bytes,
                                             pieces: seq<Bytes>, k: nat, replies: seq<Reply>, steps: nat)
    requires o.fileSize == |source| && d.receipt == None && d.final == None
    requires InStep(s, |source|) && s.part <= source && Splits(pieces, source[|s.part|..])
    requires Sendable(Transmission(H, source, pieces), WFP_VERSION_V02)
    requires k <= |StreamBytes(Transmission(H, source, pieces))|
    ensures var stream := StreamBytes(Transmission(H, source, pieces))[..k];
            var served := Settled(H, d, o, TakeBytes(s, o.fileSize, stream), replies);
            && StepKeeps(H, o, source, served, steps, |s.part|,
               AcceptedData(s, o.fileSize, ParseStream(stream, WFP_VERSION_V02).0))
            && (k == |StreamBytes(Transmission(H, source, pieces))| ==> served.verified)
            && served.replies == replies && |served.steps| <= 2
  {
    hide Splits, TakeBytes, AcceptedData, InStep, Transmission, StepKeeps, CutReception, ParseStream, StreamBytes,
         WholeFrames;
    CutBytes(H, s, source, pieces, k);
    SettledKeeps(H, d, o, s, source, pieces, WholeFrames(Transmission(H, source, pieces), k), replies, steps);
  }

  lemma {:induction false} CutResponse(f: Frame, rest: Bytes, k: nat)
    requires Encodable(f) && f.flags == 0 && f.version == WFP_VERSION_V02 && k <= |FrameBytes(f) + rest|
    ensures ParseFrame((FrameBytes(f) + rest)[..k], WFP_VERSION_V02) ==
            if k < |FrameBytes(f)| then Err(UnexpectedEof) else Ok(Parsed(f, |FrameBytes(f)|))
    ensures k >= |FrameBytes(f)| ==> (FrameBytes(f) + rest)[..k][|FrameBytes(f)|..] == rest[..k - |FrameBytes(f)|]
  {
    hide FrameBytes, ParseFrame;
    if k < |FrameBytes(f)| {
      assert (FrameBytes(f) + rest)[..k] == FrameBytes(f)[..k];
      ParseCut(f, k);
    } else {
      CutAfter(FrameBytes(f), rest, k);
      ParsePrinted(f, rest[..k - |FrameBytes(f)|]);
    }
  }

  /** The whole connection goes through: every byte, every reply and every step. */
  ghost predicate Whole(H: HashFunction, d: Slot, o: OfferV02, source: Bytes, c: Connection)
    requires Reads(H, d, o, source, c)
  {
    && c.offered && c.writes >= 3 && c.steps >= 2 && c.replied
    && c.bytes >= |HonestBytes(H, d, o, source, c)|
  }

  lemma {:induction false} FreshKeeps(H: HashFunction, d: Slot, o: OfferV02, source: Bytes, pieces: seq<Bytes>, k: nat,
                                      writes: nat, replies: seq<Reply>, steps: nat)
    requires o.fileSize == |source| && d.receipt == None && d.final == None && Splits(pieces, source)
    requires Sendable(Transmission(H, source, pieces), WFP_VERSION_V02)
    requires k <= |StreamBytes(Transmission(H, source, pieces))|
    ensures var stream := StreamBytes(Transmission(H, source, pieces))[..k];
            var served := Fresh(H, d, o, stream, writes, replies);
            && StepKeeps(H, o, source, served, steps, 0, FreshBytes(o, stream, writes))
            && (k == |StreamBytes(Transmission(H, source, pieces))| && writes > 0 ==> served.verified)
            && |served.replies| <= |replies| + 1 && |served.steps| <= 2
  {
    hide Splits, TakeBytes, AcceptedData, Transmission, ParseStream, StreamBytes;
    assert source[0..] == source;
    if writes == 0 {
      var none: seq<Step> := [];
      assert none[..Min(steps, 0)] == none;
    } else {
      hide StepKeeps, Settled;
      TransmissionKeeps(H, d, o, NOTHING_RECEIVED, source, pieces, k, replies + [AcceptReply], steps);
    }
  }

  /** What `Serve` does with an honest sender's bytes, against the partial file it starts from. */
  ghost predicate ServeKeeps(H: HashFunction, d: Slot, o: OfferV02, source: Bytes, c: Connection, before: nat)
    requires Reads(H, d, o, source, c)
  {
    var served := Serve(H, d, o, Arriving(H, d, o, source, c), c.writes);
    && StepKeeps(H, o, source, served, c.steps, before, AcceptedBytes(H, d, o, Arriving(H, d, o, source, c), c.writes))
    && (Whole(H, d, o, source, c) ==> served.verified)
    && |served.replies| <= 2 && |served.steps| <= 2
  }

  lemma {:induction false} AcceptKeeps(H: HashFunction, d: Slot, o: OfferV02, source: Bytes, c: Connection)
    requires Reads(H, d, o, source, c) && FirstReply(H, d, o) == AcceptReply
    ensures ServeKeeps(H, d, o, source, c, 0)
  {
    hide Splits, TakeBytes, AcceptedData, Transmission, StepKeeps, ParseStream, StreamBytes, ParseFrame, Fresh,
         FreshBytes;
    assert source[0..] == source;
    TransmissionSendable(H, source, c.pieces, source);
    var frames := Transmission(H, source, c.pieces);
    assert HonestFrames(H, source, AcceptReply, c.pieces) == frames;
    FreshKeeps(H, d, o, source, c.pieces, Min(c.bytes, |StreamBytes(frames)|), c.writes, [], c.steps);
  }

  /** The honest bytes after RESUME: the response and then the transmission. */
  lemma {:induction false} ResponseBytes(H: HashFunction, source: Bytes, reply: Reply, pieces: seq<Bytes>, f: Frame)
    requires |source| < U64_LIMIT && Response(H, source, |source|, reply) == [f] && Encodable(f)
    requires Sendable(Transmission(H, source, pieces), WFP_VERSION_V02)
    requires Sendable(HonestFrames(H, source, reply, pieces), WFP_VERSION_V02)
    ensures StreamBytes(HonestFrames(H, source, reply, pieces)) == FrameBytes(f)
            + StreamBytes(Transmission(H, source, pieces))
  {
  }

  /** A partial file that is a prefix of the source is accepted, whatever the hash function. */
  lemma {:induction false} ResumeKeeps(H: HashFunction, d: Slot, o: OfferV02, source: Bytes, c: Connection)
    requires Reads(H, d, o, source, c) && FirstReply(H, d, o).ResumeReply? && d.part.value <= source
    ensures ServeKeeps(H, d, o, source, c, |d.part.value|)
  {
    hide Splits, TakeBytes, AcceptedData, Transmission, StepKeeps, ParseStream, StreamBytes, ParseFrame, FrameBytes,
         Settled;
    var part := d.part.value;
    var reply := FirstReply(H, d, o);
    assert source[..|part|] == part;
    assert Response(H, source, |source|, reply) == [AcceptFrame()];
    TransmissionSendable(H, source, c.pieces, source[|part|..]);
    HonestSendable(H, source, reply, c.pieces, source[|part|..]);
    ResponseBytes(H, source, reply, c.pieces, AcceptFrame());
    var tail := StreamBytes(Transmission(H, source, c.pieces));
    var k := Min(c.bytes, |FrameBytes(AcceptFrame()) + tail|);
    CutResponse(AcceptFrame(), tail, k);
    if c.writes == 0 || k < |FrameBytes(AcceptFrame())| {
      KeptPrefix(H, d, o, source, c.steps, Serve(H, d, o, Arriving(H, d, o, source, c), c.writes));
    } else {
      TransmissionKeeps(H, d, o, Resumed(part), source, c.pieces, k - |FrameBytes(AcceptFrame())|, [reply], c.steps);
    }
  }

  lemma {:induction false} KeptPrefix(H: HashFunction, d: Slot, o: OfferV02, source: Bytes, steps: nat, served: Served)
    requires o.fileSize == |source| && d.receipt == None && d.final == None && d.part.Some? && d.part.value <= source
    requires served.disk == d && served.steps == [] && !served.verified
    ensures StepKeeps(H, o, source, served, steps, |d.part.value|, 0)
  {
  }

  /** A partial file whose hash is not the prefix's is restarted from nothing when the connection holds. */
  lemma {:induction false} RestartKeeps(H: HashFunction, d: Slot, o: OfferV02, source: Bytes, c: Connection)
    requires Reads(H, d, o, source, c) && Whole(H, d, o, source, c)
    requires FirstReply(H, d, o).ResumeReply? && H(source[..|d.part.value|]) != H(d.part.value)
    ensures ServeKeeps(H, d, o, source, c, 0)
  {
    hide Splits, TakeBytes, AcceptedData, Transmission, StepKeeps, ParseStream, StreamBytes, ParseFrame, FrameBytes,
         Fresh, FreshBytes;
    var reply := FirstReply(H, d, o);
    assert source[0..] == source;
    assert Response(H, source, |source|, reply) == [RestartFrame()];
    TransmissionSendable(H, source, c.pieces, source);
    HonestSendable(H, source, reply, c.pieces, source);
    ResponseBytes(H, source, reply, c.pieces, RestartFrame());
    var tail := StreamBytes(Transmission(H, source, c.pieces));
    var k := |FrameBytes(RestartFrame()) + tail|;
    CutResponse(RestartFrame(), tail, k);
    FreshKeeps(H, d, o, source, c.pieces, |tail|, c.writes - 1, [reply], c.steps);
  }

  // ----- the sender's side of a session -----

  /** The replies the receiver gets written in a session it is not stopped in. */
  ghost function RepliesOf(H: HashFunction, d: Slot, o: OfferV02, source: Bytes, c: Connection): seq<Reply>
    requires Reads(H, d, o, source, c)
  {
    var s := Serve(H, d, o, Arriving(H, d, o, source, c), c.writes);
    s.replies + (if s.verified then Written(VerifiedReply, Max0(c.writes - |s.replies|)) else [])
  }

  /** What an uninterrupted sender of the offered length returns for a sequence of replies. */
  function SenderResult(H: HashFunction, source: Bytes, replies: seq<Reply>): Result<Unit, SenderError>
    requires |source| < U64_LIMIT
  {
    match Opening(H, source, |source|, replies).1
    case Some(result) => result
    case None => FinalAnswer(replies[Consumed(H, source, |source|, replies[0])..])
  }

  /** The first frame of an honest answer to RESUME, when it arrives, is the one the sender chose. */
  lemma {:induction false} ResponseArrives(H: HashFunction, d: Slot, o: OfferV02, source: Bytes, c: Connection,
                                           f: Frame)
    requires Reads(H, d, o, source, c) && Response(H, source, |source|, FirstReply(H, d, o)) == [f]
    requires f == AcceptFrame() || f == RestartFrame()
    ensures var r := ParseFrame(Arriving(H, d, o, source, c), WFP_VERSION_V02);
            if r.Ok? then r.value.frame == f else r == Err(UnexpectedEof)
  {
    hide Splits, Transmission, StreamBytes, ParseFrame, FrameBytes, Response, FirstReply;
    var reply := FirstReply(H, d, o);
    var data := source[StartOffset(H, source, |source|, reply)..];
    TransmissionSendable(H, source, c.pieces, data);
    HonestSendable(H, source, reply, c.pieces, data);
    ResponseBytes(H, source, reply, c.pieces, f);
    var tail := StreamBytes(Transmission(H, source, c.pieces));
    CutResponse(f, tail, Min(c.bytes, |FrameBytes(f) + tail|));
  }

  /**
   * A session of the theorems is both ends of the code: the replies the receiver writes begin with the one the honest
   * frames answer, a sender that gets to send data on them sends exactly those frames, and it succeeds exactly when
   * VERIFIED is written.
   */
  lemma {:induction false} SessionIsBothEnds(H: HashFunction, d: Slot, o: OfferV02, source: Bytes, c: Connection)
    requires Reads(H, d, o, source, c)
    ensures var replies := RepliesOf(H, d, o, source, c);
            var s := Serve(H, d, o, Arriving(H, d, o, source, c), c.writes);
            && (replies != [] ==> replies[0] == FirstReply(H, d, o))
            && (Opening(H, source, |source|, replies).1.None? ==>
                  HonestFrames(H, source, FirstReply(H, d, o), c.pieces) ==
                  Opening(H, source, |source|, replies).0 + DataFrames(c.pieces) + [CompleteFrame(H(source))])
            && (SenderResult(H, source, replies).Ok? <==> s.verified && c.writes > |s.replies|)
  {
    hide Splits, Arriving, TakeBytes, ParseFrame, Reconcile, HonestFrames, DataFrames, Settle;
    var replies := RepliesOf(H, d, o, source, c);
    if FirstReply(H, d, o).ResumeReply? {
      ResumedLength(d, o, source);
      var f := if AcceptsResume(H, source, |source|, FirstReply(H, d, o).offset, FirstReply(H, d, o).prefixHash)
               then AcceptFrame() else RestartFrame();
      ResponseArrives(H, d, o, source, c, f);
    }
    if Opening(H, source, |source|, replies).1.None? {
      HonestFramesAreSent(H, source, replies, c.pieces);
    }
  }

  lemma {:induction false} ResumedLength(d: Slot, o: OfferV02, source: Bytes)
    requires Resumable(d, o) && o.fileSize == |source|
    ensures |d.part.value| <= |source|
  {
  }

  // ----- main results -----

  /** What a session owes to a genuine disk that holds `before` bytes. */
  ghost predicate Keeps(H: HashFunction, d: Slot, o: OfferV02, source: Bytes, c: Connection, before: nat)
    requires Reads(H, d, o, source, c)
  {
    var r := Session(H, d, o, source, c);
    && Genuine(H, o, source, r.disk) && Held(r.disk) == before + r.accepted
    && (r.verified ==> Published(H, o, source, r.disk))
    && (Whole(H, d, o, source, c) ==> r.verified)
  }

  /** An offered session is what the receiver serves. */
  lemma {:induction false} ServedSession(H: HashFunction, d: Slot, o: OfferV02, source: Bytes, c: Connection,
                                         before: nat)
    requires Reads(H, d, o, source, c) && c.offered && ServeKeeps(H, d, o, source, c, before)
    ensures Keeps(H, d, o, source, c, before)
  {
    hide Splits, Reads, Serve, AcceptedBytes, Arriving, HonestBytes, Genuine, Published, Held, DoAll;
  }

  lemma {:induction false} NotOffered(H: HashFunction, d: Slot, o: OfferV02, source: Bytes, c: Connection)
    requires Reads(H, d, o, source, c) && Genuine(H, o, source, d) && !c.offered
    ensures Keeps(H, d, o, source, c, Held(d)) && Session(H, d, o, source, c).disk == d
  {
    hide Splits, Reads, Serve, AcceptedBytes, Arriving, HonestBytes, Genuine, Published, Held;
  }

  /** A genuine disk without a receipt holds a prefix of the source. */
  lemma {:induction false} PrefixSession(H: HashFunction, d: Slot, o: OfferV02, source: Bytes, c: Connection)
    requires Reads(H, d, o, source, c) && Genuine(H, o, source, d) && d.receipt.None? && c.offered
    ensures Keeps(H, d, o, source, c, Held(d))
  {
    hide Splits, Reads, Serve, AcceptedBytes, Arriving, HonestBytes, ServeKeeps, Keeps, DoAll;
    assert o.fileSize == |source| by { ReadsSize(H, d, o, source, c); }
    if FirstReply(H, d, o).AcceptReply? {
      AcceptKeeps(H, d, o, source, c);
    } else {
      ResumeKeeps(H, d, o, source, c);
    }
    ServedSession(H, d, o, source, c, Held(d));
  }

  lemma {:induction false} ReadsSize(H: HashFunction, d: Slot, o: OfferV02, source: Bytes, c: Connection)
    requires Reads(H, d, o, source, c)
    ensures o.fileSize == |source|
  {
  }

  /** The plan a receipt leads to: one step, from the source under either name to the published source. */
  lemma {:induction false} ReceiptPlanned(H: HashFunction, d: Slot, o: OfferV02, source: Bytes)
    requires o.fileSize == |source| && Genuine(H, o, source, d) && d.receipt.Some?
    ensures Held(d) == |source| && FirstReply(H, d, o) == VerifiedReply
    ensures var steps := Reconcile(H, d, o).0;
            && |steps| == 1 && DoAll(d, steps[..0]) == d && DoAll(d, steps[..1]) == Do(d, steps[0])
            && Published(H, o, source, Do(d, steps[0]))
  {
    var steps := Reconcile(H, d, o).0;
    assert steps[..1][1..] == [];
  }

  lemma {:induction false} ReceiptSession(H: HashFunction, d: Slot, o: OfferV02, source: Bytes, c: Connection)
    requires Reads(H, d, o, source, c) && Genuine(H, o, source, d) && d.receipt.Some? && c.offered
    ensures Keeps(H, d, o, source, c, Held(d))
    ensures Published(H, o, source, d) ==> Published(H, o, source, Session(H, d, o, source, c).disk)
  {
    hide Splits, Arriving, HonestBytes, Reads, Reconcile, Do, DoAll, FirstReply, ReceiptOf;
    assert o.fileSize == |source| by { ReadsSize(H, d, o, source, c); }
    ReceiptPlanned(H, d, o, source);
  }

  /** One session of an honest sender, cut anywhere, keeps the disk genuine and accounts for every byte. */
  lemma {:induction false} SessionKeepsGenuine(H: HashFunction, d: Slot, o: OfferV02, source: Bytes, c: Connection)
    requires Reads(H, d, o, source, c) && Genuine(H, o, source, d)
    ensures var r := Session(H, d, o, source, c);
            && Genuine(H, o, source, r.disk) && Held(r.disk) == Held(d) + r.accepted
            && (r.verified || Published(H, o, source, d) ==> Published(H, o, source, r.disk))
            && (Whole(H, d, o, source, c) ==> r.verified)
  {
    hide Reads, Session, Held, Whole;
    if !c.offered {
      NotOffered(H, d, o, source, c);
    } else if d.receipt.Some? {
      ReceiptSession(H, d, o, source, c);
    } else {
      PrefixSession(H, d, o, source, c);
    }
  }

  /** Every connection reads the source to its end, from where the sender starts. */
  ghost predicate AllRead(H: HashFunction, d: Slot, o: OfferV02, source: Bytes, cs: seq<Connection>)
    decreases |cs|
  {
    |cs| > 0 ==> Reads(H, d, o, source, cs[0]) && AllRead(H, Session(H, d, o, source, cs[0]).disk, o, source, cs[1..])
  }

  /** The disk after any number of sessions, the bytes accepted over all of them, and whether one was verified. */
  ghost function Sessions(H: HashFunction, d: Slot, o: OfferV02, source: Bytes, cs: seq<Connection>): Outcome
    requires AllRead(H, d, o, source, cs)
    decreases |cs|
  {
    if |cs| == 0 then Outcome(d, false, 0)
    else
      var first := Session(H, d, o, source, cs[0]);
      var rest := Sessions(H, first.disk, o, source, cs[1..]);
      Outcome(rest.disk, first.verified || rest.verified, first.accepted + rest.accepted)
  }

  lemma {:induction false} SessionsKeepGenuine(H: HashFunction, d: Slot, o: OfferV02, source: Bytes,
                                               cs: seq<Connection>)
    requires o.fileSize == |source| && Genuine(H, o, source, d) && AllRead(H, d, o, source, cs)
    ensures var r := Sessions(H, d, o, source, cs);
            && Genuine(H, o, source, r.disk) && Held(r.disk) == Held(d) + r.accepted
            && (r.verified || Published(H, o, source, d) ==> Published(H, o, source, r.disk))
    decreases |cs|
  {
    hide Reads, Session;
    if |cs| > 0 {
      var first := Session(H, d, o, source, cs[0]);
      SessionKeepsGenuine(H, d, o, source, cs[0]);
      hide Genuine, Published, Held;
      SessionsKeepGenuine(H, first.disk, o, source, cs[1..]);
    }
  }

  /**
   * From no partial file at all: over any sequence of interrupted sessions the partial file stays a prefix of the
   * source as long as the bytes accepted in total, and by VERIFIED every byte of the source has been accepted exactly
   * once.
   */
  lemma {:induction false} Conservation(H: HashFunction, o: OfferV02, source: Bytes, cs: seq<Connection>)
    requires o.fileSize == |source| && AllRead(H, Slot(None, None, None), o, source, cs)
    ensures var r := Sessions(H, Slot(None, None, None), o, source, cs);
            && r.accepted <= |source|
            && (r.disk.part.Some? ==> r.disk.part.value == source[..r.accepted])
            && (r.verified ==> r.disk.final == Some(source) && r.accepted == |source|)
            && (r.disk.final.Some? ==> r.disk.final == Some(source) && r.accepted == |source|)
  {
    hide AllRead, Sessions;
    SessionsKeepGenuine(H, Slot(None, None, None), o, source, cs);
  }

  /** However the earlier sessions were cut, a session that holds to its end is verified. */
  lemma {:induction false} ConservationEnds(H: HashFunction, o: OfferV02, source: Bytes, cs: seq<Connection>,
                                            last: Connection)
    requires o.fileSize == |source| && AllRead(H, Slot(None, None, None), o, source, cs)
    requires Reads(H, Sessions(H, Slot(None, None, None), o, source, cs).disk, o, source, last)
    requires Whole(H, Sessions(H, Slot(None, None, None), o, source, cs).disk, o, source, last)
    ensures var before := Sessions(H, Slot(None, None, None), o, source, cs);
            var r := Session(H, before.disk, o, source, last);
            r.verified && r.disk.final == Some(source) && before.accepted + r.accepted == |source|
  {
    hide AllRead, Sessions, Reads, Session, Whole;
    SessionsKeepGenuine(H, Slot(None, None, None), o, source, cs);
    SessionKeepsGenuine(H, Sessions(H, Slot(None, None, None), o, source, cs).disk, o, source, last);
  }

  // ----- any partial file -----

  predicate PrefixCollides(H: HashFunction, part: Option<Bytes>, source: Bytes) {
    && part.Some? && 0 < |part.value| <= |source|
    && part.value != source[..|part.value|] && H(part.value) == H(source[..|part.value|])
  }

  /** The offset an honest sender accepts: all of a non-empty prefix of the source, and otherwise nothing. */
  function ReusedBytes(part: Option<Bytes>, source: Bytes): nat {
    if part.Some? && part.value <= source then |part.value| else 0
  }

  /**
   * From any partial file, a session that holds to its end publishes the source and transfers only what the partial
   * file lacks, exactly when the partial file is not a same-length hash collision with the source's prefix.
   */
  lemma {:induction false} EndToEnd(H: HashFunction, d: Slot, o: OfferV02, source: Bytes, c: Connection)
    requires Reads(H, d, o, source, c) && Whole(H, d, o, source, c) && d.receipt == None && d.final == None
    ensures var r := Session(H, d, o, source, c);
            && (!PrefixCollides(H, d.part, source) <==> r.verified && r.disk.final == Some(source))
            && (!PrefixCollides(H, d.part, source) ==> r.accepted == |source| - ReusedBytes(d.part, source))
  {
    hide Serve, AcceptedBytes, Arriving, HonestBytes, Splits, Genuine, Reconcile, DoAll;
    if FirstReply(H, d, o).AcceptReply? {
      AcceptKeeps(H, d, o, source, c);
    } else if d.part.value <= source {
      ResumeKeeps(H, d, o, source, c);
    } else if !PrefixCollides(H, d.part, source) {
      RestartKeeps(H, d, o, source, c);
    } else {
      CollidingPartSurvives(H, d, o, source, c);
    }
  }

  /** A partial file the sender wrongly accepts is only ever appended to. */
  lemma {:induction false} CollidingPartSurvives(H: HashFunction, d: Slot, o: OfferV02, source: Bytes, c: Connection)
    requires Reads(H, d, o, source, c) && Whole(H, d, o, source, c) && d.receipt == None && d.final == None
    requires PrefixCollides(H, d.part, source)
    ensures Session(H, d, o, source, c).disk.final != Some(source)
  {
    hide Splits, TakeBytes, Transmission, ParseStream, StreamBytes, ParseFrame, FrameBytes, AcceptedData;
    var part := d.part.value;
    var reply := FirstReply(H, d, o);
    assert Response(H, source, |source|, reply) == [AcceptFrame()];
    TransmissionSendable(H, source, c.pieces, source[|part|..]);
    HonestSendable(H, source, reply, c.pieces, source[|part|..]);
    ResponseBytes(H, source, reply, c.pieces, AcceptFrame());
    var tail := StreamBytes(Transmission(H, source, c.pieces));
    CutResponse(AcceptFrame(), tail, |FrameBytes(AcceptFrame()) + tail|);
    assert tail[..|tail|] == tail;
    AppendsOnly(H, d, o, tail, [reply], c.steps);
    assert part == source[..|part|] <==> part <= source;
    assert !(part <= source);
  }

  lemma {:induction false} AppendsOnly(H: HashFunction, d: Slot, o: OfferV02, stream: Bytes, replies: seq<Reply>,
                                       steps: nat)
    requires d.final == None && d.part.Some? && |d.part.value| <= o.fileSize
    ensures var served := Settled(H, d, o, TakeBytes(Resumed(d.part.value), o.fileSize, stream), replies);
            var after := DoAll(served.disk, served.steps[..Min(steps, |served.steps|)]);
            after.final.Some? ==> d.part.value <= after.final.value
  {
    hide TakeBytes, TakeAll, Settle, ParseStream;
    TakeBytesIsTakeAll(Resumed(d.part.value), o.fileSize, stream);
    TakeAllStaysInStep(Resumed(d.part.value), o.fileSize, ParseStream(stream, WFP_VERSION_V02).0);
    var served := Settled(H, d, o, TakeBytes(Resumed(d.part.value), o.fileSize, stream), replies);
    if |served.steps| == 2 {
      TwoSteps(served.disk, served.steps);
      assert served.steps[..2] == served.steps;
    } else {
      assert served.steps == [] && served.steps[..Min(steps, 0)] == [];
    }
  }

  // ----- any peer -----

  /**
   * Whatever arrives and wherever the receiver stops, an existing final file is left alone, and a file that appears
   * under the final name has the offered size and the hash of the receipt saved before it.
   */
  lemma {:induction false} PublishedIsChecked(H: HashFunction, d: Slot, o: OfferV02, stream: Bytes, writes: nat,
                                              steps: nat)
    ensures var s := Serve(H, d, o, stream, writes);
            var after := DoAll(s.disk, s.steps[..Min(steps, |s.steps|)]);
            && (d.final.Some? ==> after.final == d.final)
            && (d.final.None? && after.final.Some? ==> Checked(H, after, o))
            && (s.verified && steps >= |s.steps| ==> Checked(H, after, o))
  {
    hide TakeBytes, ParseFrame, Settle;
    var served := Serve(H, d, o, stream, writes);
    if |served.steps| == 2 {
      TwoSteps(served.disk, served.steps);
      assert served.steps[..2] == served.steps;
      if FirstReply(H, d, o).AcceptReply? {
        SettledInStep(H, d, o, NOTHING_RECEIVED, stream, [AcceptReply]);
      } else {
        var p := ParseFrame(stream, WFP_VERSION_V02).value;
        SettledInStep(H, d, o, Resumed(d.part.value), stream[p.used..], served.replies);
        SettledInStep(H, d, o, NOTHING_RECEIVED, stream[p.used..], served.replies);
      }
    } else if |served.steps| == 1 {
      assert served.steps[1..] == [] && served.steps[..1] == served.steps && served.steps[..0] == [];
    } else {
      assert served.steps[..Min(steps, 0)] == [];
    }
  }

  ghost predicate Checked(H: HashFunction, d: Slot, o: OfferV02) {
    && d.final.Some? && |d.final.value| == o.fileSize
    && d.receipt == Some(ReceiptText(Receipt(o.transferId, o.filename, o.fileSize, H(d.final.value))))
  }

  lemma {:induction false} SettledInStep(H: HashFunction, d: Slot, o: OfferV02, s: Incoming, stream: Bytes,
                                         replies: seq<Reply>)
    requires InStep(s, o.fileSize)
    ensures var served := Settled(H, d, o, TakeBytes(s, o.fileSize, stream), replies);
            |served.steps| == 2 ==>
              && served.disk.part.Some? && |served.disk.part.value| == o.fileSize
              && served.steps == [
                   SaveReceipt(Receipt(o.transferId, o.filename, o.fileSize, H(served.disk.part.value))),
                   PromoteRename]
  {
    hide TakeBytes, TakeAll, ParseStream;
    TakeBytesIsTakeAll(s, o.fileSize, stream);
    TakeAllStaysInStep(s, o.fileSize, ParseStream(stream, WFP_VERSION_V02).0);
  }
}
