/**
 * Whole WFP/0.3 attempts: OFFER to VERIFIED on a persistent disk, cut anywhere (src/receiver_v03.rs,
 * src/sender_v03.rs).
 */
module SessionV03 {
  import opened Prelude
  import opened ChunkLayout
  import opened ChunkState
  import opened Frames
  import opened PayloadsV03
  import opened ReceiverV03
  import opened ReceiverInvariants
  import opened SenderV03
  import opened InventoryV03
  import opened PrepareV03
  import opened TransferV03
  import opened Storage

  // ----- one attempt -----

  /** The receiver process stops inside the next frame after `frames` whole ones, with `written` bytes of it on disk. */
  datatype Stop = Stop(frames: nat, written: nat)

  /**
   * Where an attempt is interrupted: whether the OFFER arrives, how many bytes of the inventory reach the sender,
   * how many bytes of the transfer reach the receiver, whether its process stops inside the transfer, how many storage
   * steps of publication run before it stops, and whether VERIFIED arrives.
   */
  datatype Cut = Cut(offered: bool, inventoryBytes: nat, transferBytes: nat, stop: Option<Stop>, storageSteps: nat,
      replied: bool)

  function AcceptFrame(): Frame {
    Frame(WFP_VERSION_V03, Accept, 0, [])
  }

  function Deliver(bytes: Bytes, k: nat): Bytes {
    if k < |bytes| then bytes[..k] else bytes
  }

  /** The receiver's reading of ACCEPT: what follows it, if it was accepted. */
  function AfterAccept(stream: Bytes): Option<Bytes> {
    match ParseFrame(stream, WFP_VERSION_V03)
    case Err(_) => None
    case Ok(p) => if p.frame.messageType == Accept && p.frame.payload == [] then Some(stream[p.used..]) else None
  }

  /** The sender's side of the stream after the inventory it accepted. */
  function SenderStream(H: HashFunction, l: Layout, source: Bytes, inventory: seq<RecordedChunk>): Bytes {
    FrameBytes(AcceptFrame()) + SentStream(H, l, source, inventory)
  }

  function PreparedDisk(d: Disk, n: Name, size: u64): (r: Disk)
    ensures n in r.parts && r.parts[n] < |r.inodes|
  {
    if n in d.parts && d.parts[n] < |d.inodes|
    then d.(inodes := d.inodes[d.parts[n] := SetLength(d.inodes[d.parts[n]], size)])
    else d.(inodes := d.inodes + [SetLength([], size)], parts := d.parts[n := |d.inodes|])
  }

  function Committed(d: Disk, n: Name, store: Store): (r: Disk)
    requires n in d.parts && d.parts[n] < |d.inodes|
    ensures PartOf(r, n) == Some(store.part) && SnapshotOf(r, n) == store.snapshot
  {
    d.(inodes := d.inodes[d.parts[n] := store.part],
       snapshots := if store.snapshot == NoSnapshot then d.snapshots - {n} else d.snapshots[n := store.snapshot])
  }

  ghost function PreparedState(H: HashFunction, d: Disk, n: Name, l: Layout): State {
    Prepared(H, l, PartOf(d, n), SnapshotOf(d, n))
  }

  /** The receive loop over the frames that arrive, unless the process stops inside one of them. */
  ghost function RunUntil(H: HashFunction, s: State, frames: seq<Frame>, stop: Option<Stop>, end: ProtocolIoError)
    : Progress
  {
    if stop.Some? && stop.value.frames < |frames| && Run(H, s, frames[..stop.value.frames]).More? then
      var t := Run(H, s, frames[..stop.value.frames]).state;
      Stopped(State(t.rx, TornStore(t, frames[stop.value.frames], stop.value.written)), Protocol(end))
    else EndOfFrames(Run(H, s, frames), end)
  }

  /** The transfer the receiver runs on the bytes that arrive after its inventory; `None` when no ACCEPT reaches it. */
  ghost function Received(H: HashFunction, s: State, stream: Bytes, stop: Option<Stop>): Option<Progress> {
    match AfterAccept(stream)
    case None => None
    case Some(rest) =>
      var (frames, end) := ParseStream(rest, WFP_VERSION_V03);
      Some(RunUntil(H, s, frames, stop, end))
  }

  /** The frames an honest sender answers an inventory with. */
  ghost function SenderFrames(H: HashFunction, l: Layout, source: Bytes, inventory: Bytes): seq<Frame> {
    match Negotiate(l, inventory)
    case Err(_) => []
    case Ok(a) => [AcceptFrame()] + SentFrames(H, l, source, a.records)
  }

  lemma {:induction false} AnswerSendable(H: HashFunction, l: Layout, source: Bytes, inventory: Bytes)
    ensures Sendable(SenderFrames(H, l, source, inventory), WFP_VERSION_V03)
  {
    hide SentFrames, Negotiate, Encodable;
    if Negotiate(l, inventory).Ok? {
      SentSendable(H, l, source, Negotiate(l, inventory).value.records);
      assert Encodable(AcceptFrame()) by { AcceptEncodable(); }
    }
  }

  lemma {:induction false} AcceptEncodable()
    ensures Encodable(AcceptFrame())
  {
  }

  /** What of that answer arrives at a receiver in state `s` over a connection that is cut. */
  ghost function Delivered(H: HashFunction, l: Layout, source: Bytes, s: State, cut: Cut): Bytes
    requires |s.rx.records| < U64_LIMIT
  {
    var inventory := Deliver(InventoryStream(s.rx.records), cut.inventoryBytes);
    AnswerSendable(H, l, source, inventory);
    Deliver(StreamBytes(SenderFrames(H, l, source, inventory)), cut.transferBytes)
  }

  /** How the transfer of an attempt ends for the receiver. */
  ghost function Transfer(H: HashFunction, l: Layout, source: Bytes, s: State, cut: Cut): Option<Progress>
    requires |s.rx.records| < U64_LIMIT
  {
    Received(H, s, Delivered(H, l, source, s, cut), cut.stop)
  }

  datatype Environment = Environment(H: HashFunction, platform: Platform)

  ghost predicate HonestOffer(o: FileOffer, source: Bytes) {
    o.chunkSize > 0 && |source| == o.fileSize
  }

  ghost function LayoutOf(o: FileOffer): Layout
    requires o.chunkSize > 0
  {
    RawLayout(o.fileSize, o.chunkSize)
  }

  ghost function ReceiptFor(H: HashFunction, o: FileOffer, source: Bytes): Receipt {
    Receipt(o.transferId, o.filename, o.fileSize, H(source))
  }

  /** What a completed transfer still does to the disk, and whether VERIFIED reaches the sender. */
  ghost function Publish(env: Environment, after: Disk, r: Receipt, cut: Cut): (Disk, bool)
    requires PartOf(after, r.filename).Some?
  {
    var (actions, result) := FinalizePlan(env.H, env.platform, after, r);
    (ApplyAll(after, actions[..Min(cut.storageSteps, |actions|)]),
     result.Ok? && cut.storageSteps >= |actions| && cut.replied)
  }

  /** From the end of the transfer on. */
  ghost function Conclude(env: Environment, ready: Disk, o: FileOffer, end: Option<Progress>, cut: Cut): (Disk, bool)
    requires o.filename in ready.parts && ready.parts[o.filename] < |ready.inodes|
  {
    match end
    case None => (ready, false)
    case Some(p) =>
      var after := Committed(ready, o.filename, p.state.store);
      if !p.Completed? then (after, false)
      else Publish(env, after, Receipt(o.transferId, o.filename, o.fileSize, p.fileHash), cut)
  }

  /** The disk after a session in which `stream` arrives after the OFFER, and whether VERIFIED reaches the sender. */
  ghost function Served(env: Environment, d: Disk, o: FileOffer, stream: Bytes, cut: Cut): (Disk, bool)
    requires o.chunkSize > 0
  {
    var (actions, outcome) := ReconcilePlan(env.H, env.platform, d, o);
    if outcome == Ok(NotReconciled) then
      Conclude(env, PreparedDisk(d, o.filename, o.fileSize), o,
               Received(env.H, PreparedState(env.H, d, o.filename, LayoutOf(o)), stream, cut.stop), cut)
    else
      (ApplyAll(d, actions[..Min(cut.storageSteps, |actions|)]),
       outcome.Ok? && cut.storageSteps >= |actions| && cut.replied)
  }

  /** What an honest sender of `source` gets through to the receiver after its OFFER. */
  ghost function Delivery(env: Environment, d: Disk, o: FileOffer, source: Bytes, cut: Cut): Bytes
    requires HonestOffer(o, source)
  {
    PreparedSmall(env.H, d, o.filename, LayoutOf(o));
    Delivered(env.H, LayoutOf(o), source, PreparedState(env.H, d, o.filename, LayoutOf(o)), cut)
  }

  /** One attempt of the sender's retry loop against the receiver's disk, and whether the sender returned Ok. */
  ghost function Attempt(env: Environment, d: Disk, o: FileOffer, source: Bytes, cut: Cut): (Disk, bool)
    requires HonestOffer(o, source)
  {
    if cut.offered then Served(env, d, o, Delivery(env, d, o, source, cut), cut) else (d, false)
  }

  /** The attempt when the OFFER is not answered from a receipt. */
  ghost function TransferAttempt(env: Environment, d: Disk, o: FileOffer, source: Bytes, cut: Cut): (Disk, bool)
    requires HonestOffer(o, source)
  {
    var s := PreparedState(env.H, d, o.filename, LayoutOf(o));
    PreparedSmall(env.H, d, o.filename, LayoutOf(o));
    Conclude(env, PreparedDisk(d, o.filename, o.fileSize), o, Transfer(env.H, LayoutOf(o), source, s, cut), cut)
  }

  lemma {:induction false} AttemptCases(env: Environment, d: Disk, o: FileOffer, source: Bytes, cut: Cut)
    requires HonestOffer(o, source)
    ensures var (actions, outcome) := ReconcilePlan(env.H, env.platform, d, o);
            Attempt(env, d, o, source, cut) ==
            if !cut.offered then (d, false)
            else if outcome == Ok(NotReconciled) then TransferAttempt(env, d, o, source, cut)
            else (ApplyAll(d, actions[..Min(cut.storageSteps, |actions|)]),
                  outcome.Ok? && cut.storageSteps >= |actions| && cut.replied)
  {
    hide ReconcilePlan, Conclude, PreparedDisk, PreparedState, Received, Delivered, ApplyAll;
  }

  lemma {:induction false} PreparedSmall(H: HashFunction, d: Disk, n: Name, l: Layout)
    ensures |PreparedState(H, d, n, l).rx.records| < U64_LIMIT
    ensures PreparedState(H, d, n, l).rx.records == PreparedRecords(H, l, PartOf(d, n), SnapshotOf(d, n))
    ensures InRange(l, PreparedState(H, d, n, l).rx.records)
  {
    hide PreparedRecords, InRange;
    PreparedInRange(H, l, PartOf(d, n), SnapshotOf(d, n));
    CountAtMost(l, PreparedRecords(H, l, PartOf(d, n), SnapshotOf(d, n)));
  }

  // ----- the channel inside an attempt -----

  lemma {:induction false} AcceptDelivered(stream: Bytes, k: nat)
    ensures AfterAccept(Deliver(FrameBytes(AcceptFrame()) + stream, k)) ==
            if k < |FrameBytes(AcceptFrame())| then None
            else Some(Deliver(stream, k - |FrameBytes(AcceptFrame())|))
  {
    hide FrameBytes, ParseFrame;
    var first := FrameBytes(AcceptFrame());
    if k < |first| {
      assert (first + stream)[..k] == first[..k];
      ParseCut(AcceptFrame(), k);
    } else {
      var rest := Deliver(stream, k - |first|);
      assert Deliver(first + stream, k) == first + rest;
      ParsePrinted(AcceptFrame(), rest);
      assert (first + rest)[|first|..] == rest;
    }
  }

  lemma {:induction false} InventoryDelivered(l: Layout, records: Records, k: nat)
    requires InRange(l, records) && |records| < U64_LIMIT
    ensures Negotiate(l, Deliver(InventoryStream(records), k)) ==
            if k < |InventoryStream(records)| then Err(InventoryProtocol(UnexpectedEof)) else Ok(Accepted(records, []))
  {
    hide Negotiate, InventoryStream, InRange;
    var all := InventoryStream(records);
    InventoryRoundTrip(l, records, Min(k, |all|));
    assert all[..|all|] == all;
  }

  /** The number of whole frames of the transfer the receiver sees. */
  ghost function Seen(H: HashFunction, l: Layout, source: Bytes, inventory: seq<RecordedChunk>, k: nat): (n: nat)
    ensures n <= |SentFrames(H, l, source, inventory)|
  {
    SentSendable(H, l, source, inventory);
    var left := k - |FrameBytes(AcceptFrame())|;
    if left < 0 then 0 else WholeFrames(SentFrames(H, l, source, inventory), left)
  }

  /** A run over a prefix of the sender's frames, chosen for exactly the records the receiver holds. */
  ghost function PrefixRun(H: HashFunction, l: Layout, source: Bytes, s: State, cut: Cut): Option<Progress>
    requires |s.rx.records| < U64_LIMIT
  {
    if cut.inventoryBytes < |InventoryStream(s.rx.records)| || cut.transferBytes < |FrameBytes(AcceptFrame())| then None
    else
      var n := Seen(H, l, source, s.rx.records, cut.transferBytes);
      Some(RunUntil(H, s, SentFrames(H, l, source, s.rx.records)[..n], cut.stop, UnexpectedEof))
  }

  lemma {:induction false} SeenAll(H: HashFunction, l: Layout, source: Bytes, inventory: seq<RecordedChunk>, k: nat)
    requires k >= |SenderStream(H, l, source, inventory)|
    ensures Seen(H, l, source, inventory, k) == |SentFrames(H, l, source, inventory)|
  {
    hide FrameBytes, SentFrames, StreamBytes;
  }

  /** The bytes of the sender's answer are ACCEPT and then the transfer. */
  lemma {:induction false} AnswerBytes(H: HashFunction, l: Layout, source: Bytes, s: State, cut: Cut)
    requires InRange(l, s.rx.records) && |s.rx.records| < U64_LIMIT
    ensures Delivered(H, l, source, s, cut) ==
            if cut.inventoryBytes < |InventoryStream(s.rx.records)| then []
            else Deliver(SenderStream(H, l, source, s.rx.records), cut.transferBytes)
  {
    hide FrameBytes, Negotiate, InventoryStream, SentFrames, InRange;
    InventoryDelivered(l, s.rx.records, cut.inventoryBytes);
    var inventory := Deliver(InventoryStream(s.rx.records), cut.inventoryBytes);
    AnswerSendable(H, l, source, inventory);
    if cut.inventoryBytes >= |InventoryStream(s.rx.records)| {
      var sent := SentFrames(H, l, source, s.rx.records);
      SentSendable(H, l, source, s.rx.records);
      assert ([AcceptFrame()] + sent)[1..] == sent;
    }
  }

  lemma {:induction false} NothingAccepted()
    ensures AfterAccept([]) == None
  {
  }

  /** The frames spelled by what arrives of the transfer. */
  lemma {:induction false} ArrivingFrames(H: HashFunction, l: Layout, source: Bytes, inventory: seq<RecordedChunk>,
                                          left: nat)
    ensures ParseStream(Deliver(SentStream(H, l, source, inventory), left), WFP_VERSION_V03) ==
            (SentFrames(H, l, source, inventory)[..Seen(H, l, source, inventory, left + |FrameBytes(AcceptFrame())|)],
                UnexpectedEof)
  {
    hide FrameBytes, SentFrames, StreamBytes;
    var frames, stream := SentFrames(H, l, source, inventory), SentStream(H, l, source, inventory);
    SentSendable(H, l, source, inventory);
    ParseCutStream(frames, WFP_VERSION_V03, Min(left, |stream|));
    assert stream[..|stream|] == stream;
    WholeBeyond(frames, left);
  }

  /** However both directions are cut, the receiver sees no ACCEPT or runs a prefix of the sender's frames. */
  lemma {:induction false} TransferIsPrefixRun(H: HashFunction, l: Layout, source: Bytes, s: State, cut: Cut)
    requires InRange(l, s.rx.records) && |s.rx.records| < U64_LIMIT
    ensures Transfer(H, l, source, s, cut) == PrefixRun(H, l, source, s, cut)
  {
    hide FrameBytes, InventoryStream, SentFrames, SentStream, Seen, AfterAccept, RunUntil, InRange, Delivered, Deliver,
         ParseStream;
    AnswerBytes(H, l, source, s, cut);
    NothingAccepted();
    if cut.inventoryBytes >= |InventoryStream(s.rx.records)| {
      AcceptDelivered(SentStream(H, l, source, s.rx.records), cut.transferBytes);
      var left := cut.transferBytes - |FrameBytes(AcceptFrame())|;
      if left >= 0 {
        ArrivingFrames(H, l, source, s.rx.records, left);
      }
    }
  }

  lemma {:induction false} WholeBeyond(frames: seq<Frame>, k: nat)
    requires forall i :: 0 <= i < |frames| ==> Encodable(frames[i])
    ensures WholeFrames(frames, Min(k, |StreamBytes(frames)|)) == WholeFrames(frames, k)
  {
  }

  /** Both directions of the connection last for the whole inventory and the whole transfer. */
  ghost predicate EnoughBytes(env: Environment, d: Disk, o: FileOffer, source: Bytes, cut: Cut)
    requires HonestOffer(o, source)
  {
    var records := PreparedRecords(env.H, LayoutOf(o), PartOf(d, o.filename), SnapshotOf(d, o.filename));
    && |records| < U64_LIMIT && cut.inventoryBytes >= |InventoryStream(records)| && cut.stop.None?
    && cut.transferBytes >= |SenderStream(env.H, LayoutOf(o), source, records)|
  }

  /** No cut: the whole inventory, the whole transfer, every storage step and the reply go through. */
  ghost predicate Uncut(env: Environment, d: Disk, o: FileOffer, source: Bytes, cut: Cut)
    requires HonestOffer(o, source)
  {
    cut.offered && cut.replied && cut.storageSteps >= 8 && EnoughBytes(env, d, o, source, cut)
  }
}
