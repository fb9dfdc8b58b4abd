/** How the receiver advertises its records and the sender accepts them (src/receiver_v03.rs, src/sender_v03.rs). */
module InventoryV03 {
  import opened Prelude
  import opened ChunkLayout
  import opened ChunkState
  import opened Frames
  import opened PayloadsV03

  // ----- the receiver's batches -----

  function MaximumRecordsPerBatch(): (n: nat)
    ensures n > 0 && CHUNK_HASH_RECORD_LENGTH * n + 4 <= MAX_PAYLOAD_LENGTH
    ensures CHUNK_HASH_RECORD_LENGTH * (n + 1) + 4 > MAX_PAYLOAD_LENGTH
  {
    (MAX_PAYLOAD_LENGTH - 4) / CHUNK_HASH_RECORD_LENGTH
  }

  function Batches(records: seq<RecordedChunk>): seq<seq<RecordedChunk>>
    decreases |records|
  {
    if |records| == 0 then []
    else
      var n := Min(|records|, MaximumRecordsPerBatch());
      [records[..n]] + Batches(records[n..])
  }

  function Concatenated(batches: seq<seq<RecordedChunk>>): seq<RecordedChunk> {
    if |batches| == 0 then [] else batches[0] + Concatenated(batches[1..])
  }

  predicate GoodBatches(batches: seq<seq<RecordedChunk>>) {
    forall i :: 0 <= i < |batches| ==> |batches[i]| > 0 && EncodableBatch(batches[i])
  }

  /** Batches are never empty, fit a frame, and concatenate to the records. */
  lemma {:induction false} BatchesPartition(records: seq<RecordedChunk>)
    ensures GoodBatches(Batches(records)) && Concatenated(Batches(records)) == records
    decreases |records|
  {
    if |records| > 0 {
      var n := Min(|records|, MaximumRecordsPerBatch());
      BatchesPartition(records[n..]);
      assert ([records[..n]] + Batches(records[n..]))[1..] == Batches(records[n..]);
      assert records == records[..n] + records[n..];
    }
  }

  /** A batch is encodable exactly up to the number of records the receiver puts in one. */
  lemma {:induction false} EncodableUpToMaximum(batch: seq<RecordedChunk>)
    ensures EncodableBatch(batch) <==> |batch| <= MaximumRecordsPerBatch()
  {
  }

  /** Every batch but the last is full: the next record would not have fitted. */
  lemma {:induction false} BatchesAreFull(records: seq<RecordedChunk>, i: nat)
    requires i + 1 < |Batches(records)|
    ensures |Batches(records)[i + 1]| > 0
    ensures !EncodableBatch(Batches(records)[i] + [Batches(records)[i + 1][0]])
    decreases |records|
  {
    hide EncodableBatch;
    var n := Min(|records|, MaximumRecordsPerBatch());
    assert Batches(records)[1..] == Batches(records[n..]);
    BatchesPartition(records[n..]);
    if i > 0 {
      BatchesAreFull(records[n..], i - 1);
    } else {
      EncodableUpToMaximum(records[..n] + [Batches(records)[1][0]]);
    }
  }

  lemma {:induction false} BatchesNeeded(records: seq<RecordedChunk>, n: nat)
    requires |records| <= MaximumRecordsPerBatch() * n
    ensures |Batches(records)| <= n
    decreases n
  {
    if n > 0 && |records| > 0 {
      var k := Min(|records|, MaximumRecordsPerBatch());
      assert MaximumRecordsPerBatch() * n == MaximumRecordsPerBatch() * (n - 1) + MaximumRecordsPerBatch();
      BatchesNeeded(records[k..], n - 1);
    }
  }

  lemma {:induction false} EncodableTotal(batches: seq<seq<RecordedChunk>>)
    requires forall i :: 0 <= i < |batches| ==> EncodableBatch(batches[i])
    ensures |Concatenated(batches)| <= MaximumRecordsPerBatch() * |batches|
    decreases |batches|
  {
    hide EncodableBatch;
    if |batches| > 0 {
      EncodableUpToMaximum(batches[0]);
      EncodableTotal(batches[1..]);
      assert MaximumRecordsPerBatch() * |batches| == MaximumRecordsPerBatch() * (|batches| - 1)
          + MaximumRecordsPerBatch();
    }
  }

  /** No division of the records into batches that fit a payload has fewer batches than the receiver's. */
  lemma {:induction false} BatchesAreFewest(records: seq<RecordedChunk>, other: seq<seq<RecordedChunk>>)
    requires Concatenated(other) == records
    requires forall i :: 0 <= i < |other| ==> EncodableBatch(other[i])
    ensures |Batches(records)| <= |other|
  {
    hide EncodableBatch, Batches, Concatenated;
    EncodableTotal(other);
    BatchesNeeded(records, |other|);
  }

  function ResumeFrame(count: u64): Frame {
    Frame(WFP_VERSION_V03, Resume, 0, ResumeBytes(count))
  }

  function HashesFrame(batch: seq<RecordedChunk>): Frame
    requires EncodableBatch(batch)
  {
    Frame(WFP_VERSION_V03, ChunkHashes, 0, BatchBytes(batch))
  }

  function HashesFrames(batches: seq<seq<RecordedChunk>>): (r: seq<Frame>)
    requires forall i :: 0 <= i < |batches| ==> EncodableBatch(batches[i])
    ensures |r| == |batches|
    ensures forall i :: 0 <= i < |batches| ==> r[i] == HashesFrame(batches[i])
  {
    if |batches| == 0 then [] else [HashesFrame(batches[0])] + HashesFrames(batches[1..])
  }

  /** RESUME and every batch, in the order they are written. */
  function InventoryFrames(records: seq<RecordedChunk>): seq<Frame>
    requires |records| < U64_LIMIT
  {
    BatchesPartition(records);
    [ResumeFrame(|records|)] + HashesFrames(Batches(records))
  }

  lemma {:induction false} HashesFrameSendable(batch: seq<RecordedChunk>)
    requires EncodableBatch(batch)
    ensures Encodable(HashesFrame(batch)) && HashesFrame(batch).flags == 0
            && HashesFrame(batch).version == WFP_VERSION_V03
    ensures HashesFrame(batch).messageType == ChunkHashes && DecodeBatch(HashesFrame(batch).payload) == Ok(batch)
  {
    BatchRoundTrip(batch);
  }

  lemma {:induction false} ResumeFrameSendable(count: u64)
    ensures Encodable(ResumeFrame(count)) && ResumeFrame(count).flags == 0
            && ResumeFrame(count).version == WFP_VERSION_V03
    ensures ResumeFrame(count).messageType == Resume && DecodeResume(ResumeFrame(count).payload) == Some(count)
  {
  }

  lemma {:induction false} HashesSendable(batches: seq<seq<RecordedChunk>>)
    requires GoodBatches(batches)
    ensures Sendable(HashesFrames(batches), WFP_VERSION_V03)
  {
  }

  function HashesStream(batches: seq<seq<RecordedChunk>>): Bytes
    requires GoodBatches(batches)
  {
    HashesSendable(batches);
    StreamBytes(HashesFrames(batches))
  }

  lemma {:induction false} InventorySendable(records: seq<RecordedChunk>)
    requires |records| < U64_LIMIT
    ensures Sendable(InventoryFrames(records), WFP_VERSION_V03)
  {
    hide Encodable, ResumeFrame;
    BatchesPartition(records);
    ResumeFrameSendable(|records|);
    HashesSendable(Batches(records));
  }

  function InventoryStream(records: seq<RecordedChunk>): Bytes
    requires |records| < U64_LIMIT
  {
    InventorySendable(records);
    StreamBytes(InventoryFrames(records))
  }

  // ----- the sender's acceptance -----

  datatype NegotiationError =
    | InventoryProtocol(io: ProtocolIoError)
    | InvalidResume(length: nat)
    | InvalidHashes(hashes: ChunkHashesError)
    | UnexpectedInventoryMessage(messageType: MessageType)
    | RecordCountExceedsLayout(declared: u64, chunkCount: u64)
    | EmptyChunkHashes
    | RecordCountOverflow
    | RecordCountOverrun(declared: u64, attempted: u64)
    | InventoryIndexOutOfRange(index: u64)
    | InventoryIndexNotIncreasing(previous: u64, current: u64)

  /** The accepted records, and what is left on the stream after them. */
  datatype Accepted = Accepted(records: seq<RecordedChunk>, rest: Bytes)

  function LastIndex(records: seq<RecordedChunk>): Option<u64> {
    if |records| == 0 then None else Some(records[|records| - 1].index)
  }

  /** What is wrong with the first unacceptable record of a batch. */
  function FirstBad(l: Layout, previous: Option<u64>, batch: seq<RecordedChunk>): Option<NegotiationError>
    decreases |batch|
  {
    if |batch| == 0 then None
    else
      var index := batch[0].index;
      if Range(l, index).None? then Some(InventoryIndexOutOfRange(index))
      else if previous.Some? && index <= previous.value then Some(InventoryIndexNotIncreasing(previous.value, index))
      else FirstBad(l, Some(index), batch[1..])
  }

  /** The next frame of an inventory of which `received` has been accepted so far. */
  function TakeBatch(l: Layout, declared: u64, received: seq<RecordedChunk>, f: Frame)
    : Result<seq<RecordedChunk>, NegotiationError>
  {
    if f.messageType != ChunkHashes then Err(UnexpectedInventoryMessage(f.messageType))
    else
      match DecodeBatch(f.payload)
      case Err(e) => Err(InvalidHashes(e))
      case Ok(batch) =>
        var total := |received| + |batch|;
        if |batch| == 0 then Err(EmptyChunkHashes)
        else if total >= U64_LIMIT then Err(RecordCountOverflow)
        else if total > declared then Err(RecordCountOverrun(declared, total))
        else
          match FirstBad(l, LastIndex(received), batch)
          case Some(e) => Err(e)
          case None => Ok(received + batch)
  }

  function Collect(l: Layout, declared: u64, received: seq<RecordedChunk>, stream: Bytes)
    : Result<Accepted, NegotiationError>
    decreases |stream|
  {
    if |received| >= declared then Ok(Accepted(received, stream))
    else
      match ParseFrame(stream, WFP_VERSION_V03)
      case Err(e) => Err(InventoryProtocol(e))
      case Ok(p) =>
        match TakeBatch(l, declared, received, p.frame)
        case Err(e) => Err(e)
        case Ok(more) => Collect(l, declared, more, stream[p.used..])
  }

  function Declared(l: Layout, f: Frame): Result<u64, NegotiationError> {
    if f.messageType != Resume then Err(UnexpectedInventoryMessage(f.messageType))
    else
      match DecodeResume(f.payload)
      case None => Err(InvalidResume(|f.payload|))
      case Some(declared) =>
        if declared > ChunkCount(l) then Err(RecordCountExceedsLayout(declared, ChunkCount(l))) else Ok(declared)
  }

  /** What follows once the frame that should be RESUME has been read. */
  function NegotiateAfter(l: Layout, resume: Frame, stream: Bytes): Result<Accepted, NegotiationError> {
    match Declared(l, resume)
    case Err(e) => Err(e)
    case Ok(declared) => Collect(l, declared, [], stream)
  }

  function Negotiate(l: Layout, stream: Bytes): Result<Accepted, NegotiationError> {
    match ParseFrame(stream, WFP_VERSION_V03)
    case Err(e) => Err(InventoryProtocol(e))
    case Ok(p) => NegotiateAfter(l, p.frame, stream[p.used..])
  }

  // ----- what acceptance guarantees, whoever the peer is -----

  lemma {:induction false} FirstBadMeaning(l: Layout, received: seq<RecordedChunk>, batch: seq<RecordedChunk>)
    requires Increasing(received) && InRange(l, received)
    ensures FirstBad(l, LastIndex(received), batch).None? <==>
            Increasing(received + batch) && InRange(l, received + batch)
    decreases |batch|
  {
    hide Range;
    if |batch| == 0 {
      assert received + batch == received;
    } else {
      var more := received + [batch[0]];
      assert more + batch[1..] == received + batch;
      RangeIsSome(l, batch[0].index);
      var all := received + batch;
      assert all[|received|] == batch[0];
      if Increasing(more) && InRange(l, more) {
        assert more[|received|] == batch[0];
        FirstBadMeaning(l, more, batch[1..]);
      } else if Increasing(received + batch) && InRange(l, received + batch) {
        PrefixIsGood(l, more, batch[1..]);
      }
      OneMore(l, received, batch[0]);
    }
  }

  lemma {:induction false} RangeIsSome(l: Layout, i: u64)
    ensures Range(l, i).Some? <==> i < ChunkCount(l)
  {
  }

  lemma {:induction false} OneMore(l: Layout, received: seq<RecordedChunk>, r: RecordedChunk)
    requires Increasing(received) && InRange(l, received)
    ensures Increasing(received + [r]) && InRange(l, received + [r]) <==>
            r.index < ChunkCount(l) && (LastIndex(received).Some? ==> LastIndex(received).value < r.index)
  {
    var more := received + [r];
    assert more[|received|] == r;
    if |received| > 0 {
      assert more[|received| - 1] == received[|received| - 1];
    }
  }

  lemma {:induction false} PrefixIsGood(l: Layout, a: seq<RecordedChunk>, b: seq<RecordedChunk>)
    requires Increasing(a + b) && InRange(l, a + b)
    ensures Increasing(a) && InRange(l, a)
  {
    assert forall j :: 0 <= j < |a| ==> (a + b)[j] == a[j];
  }

  /** An accepted inventory is strictly increasing, in range and as long as declared, whatever the peer sent. */
  lemma {:induction false} CollectIsSound(l: Layout, declared: u64, received: seq<RecordedChunk>, stream: Bytes)
    requires Increasing(received) && InRange(l, received) && |received| <= declared
    requires Collect(l, declared, received, stream).Ok?
    ensures var r := Collect(l, declared, received, stream).value.records;
            Increasing(r) && InRange(l, r) && |r| == declared && received <= r
    decreases |stream|
  {
    hide ParseFrame, Increasing, InRange, DecodeBatch, FirstBad;
    if |received| < declared {
      var p := ParseFrame(stream, WFP_VERSION_V03).value;
      var batch := DecodeBatch(p.frame.payload).value;
      FirstBadMeaning(l, received, batch);
      CollectIsSound(l, declared, received + batch, stream[p.used..]);
    }
  }

  lemma {:induction false} NegotiateIsSound(l: Layout, stream: Bytes)
    requires Negotiate(l, stream).Ok?
    ensures var r := Negotiate(l, stream).value.records;
            Increasing(r) && InRange(l, r) && |r| <= ChunkCount(l)
  {
    hide ParseFrame, Declared, Collect;
    var p := ParseFrame(stream, WFP_VERSION_V03).value;
    CollectIsSound(l, Declared(l, p.frame).value, [], stream[p.used..]);
    CountAtMost(l, Negotiate(l, stream).value.records);
  }

  // ----- round trip, and what a cut leaves -----

  lemma {:induction false} TakeHonestBatch(l: Layout, declared: u64, received: seq<RecordedChunk>,
                                           batch: seq<RecordedChunk>)
    requires Increasing(received + batch) && InRange(l, received + batch)
    requires |batch| > 0 && EncodableBatch(batch) && |received| + |batch| <= declared
    ensures TakeBatch(l, declared, received, HashesFrame(batch)) == Ok(received + batch)
  {
    hide FirstBad, DecodeBatch, HashesFrame;
    HashesFrameSendable(batch);
    PrefixIsGood(l, received, batch);
    FirstBadMeaning(l, received, batch);
  }

  /** The batch frames of a good list, cut after `k` bytes: accepted exactly when none is missing. */
  lemma {:induction false} CollectHonest(l: Layout, declared: u64, received: seq<RecordedChunk>,
                                         batches: seq<seq<RecordedChunk>>, k: nat)
    requires GoodBatches(batches)
    requires Increasing(received + Concatenated(batches)) && InRange(l, received + Concatenated(batches))
    requires |received| + |Concatenated(batches)| == declared
    requires k <= |HashesStream(batches)|
    ensures Collect(l, declared, received, HashesStream(batches)[..k]) ==
            if k < |HashesStream(batches)| then Err(InventoryProtocol(UnexpectedEof))
            else Ok(Accepted(received + Concatenated(batches), []))
    decreases |batches|
  {
    hide ParseFrame, FrameBytes, TakeBatch, HashesFrame, Encodable, EncodableBatch, InRange, Increasing;
    if |batches| == 0 {
      assert received + [] == received;
    } else {
      var frames := HashesFrames(batches);
      assert frames[1..] == HashesFrames(batches[1..]);
      HashesFrameSendable(batches[0]);
      HashesSendable(batches);
      var first, tail := FrameBytes(frames[0]), HashesStream(batches[1..]);
      if k < |first| {
        assert (first + tail)[..k] == first[..k];
        ParseCut(frames[0], k);
      } else {
        CutAfter(first, tail, k);
        ParsePrinted(frames[0], tail[..k - |first|]);
        assert (first + tail[..k - |first|])[|first|..] == tail[..k - |first|];
        assert received + Concatenated(batches) == (received + batches[0]) + Concatenated(batches[1..]);
        PrefixIsGood(l, received + batches[0], Concatenated(batches[1..]));
        TakeHonestBatch(l, declared, received, batches[0]);
        CollectHonest(l, declared, received + batches[0], batches[1..], k - |first|);
      }
    }
  }

  /**
   * What the sender makes of the receiver's inventory after a cut at byte `k`: exactly the receiver's records
   * when nothing is missing, and otherwise the end of the stream.
   */
  lemma {:induction false} InventoryRoundTrip(l: Layout, records: Records, k: nat)
    requires InRange(l, records) && |records| < U64_LIMIT
    requires k <= |InventoryStream(records)|
    ensures Negotiate(l, InventoryStream(records)[..k]) ==
            if k < |InventoryStream(records)| then Err(InventoryProtocol(UnexpectedEof))
            else Ok(Accepted(records, []))
  {
    hide ParseFrame, FrameBytes, Collect, Encodable, DecodeResume, HashesFrames, Batches;
    BatchesPartition(records);
    ResumeFrameSendable(|records|);
    CountAtMost(l, records);
    var batches := Batches(records);
    var frames := InventoryFrames(records);
    assert frames[1..] == HashesFrames(batches);
    var first, tail := FrameBytes(frames[0]), HashesStream(batches);
    if k < |first| {
      assert (first + tail)[..k] == first[..k];
      ParseCut(frames[0], k);
    } else {
      CutAfter(first, tail, k);
      ParsePrinted(frames[0], tail[..k - |first|]);
      assert (first + tail[..k - |first|])[|first|..] == tail[..k - |first|];
      assert [] + Concatenated(batches) == records;
      CollectHonest(l, |records|, [], batches, k - |first|);
    }
  }

  /** An accepted inventory is accepted alike whatever follows it, and what follows is left on the stream. */
  lemma {:induction false} CollectStable(l: Layout, declared: u64, received: seq<RecordedChunk>, stream: Bytes,
                                         more: Bytes)
    requires Collect(l, declared, received, stream).Ok?
    ensures var a := Collect(l, declared, received, stream).value;
            Collect(l, declared, received, stream + more) == Ok(Accepted(a.records, a.rest + more))
    decreases |stream|
  {
    hide ParseFrame, TakeBatch;
    if |received| < declared {
      ParseStable(stream, more, WFP_VERSION_V03);
      var p := ParseFrame(stream, WFP_VERSION_V03).value;
      CollectStable(l, declared, TakeBatch(l, declared, received, p.frame).value, stream[p.used..], more);
    }
  }

  lemma {:induction false} NegotiateStable(l: Layout, stream: Bytes, more: Bytes)
    requires Negotiate(l, stream).Ok?
    ensures var a := Negotiate(l, stream).value;
            Negotiate(l, stream + more) == Ok(Accepted(a.records, a.rest + more))
  {
    hide ParseFrame, Declared, Collect;
    ParseStable(stream, more, WFP_VERSION_V03);
    var p := ParseFrame(stream, WFP_VERSION_V03).value;
    CollectStable(l, Declared(l, p.frame).value, [], stream[p.used..], more);
  }

  // ----- exactly the inventories that are accepted -----

  lemma {:induction false} BatchRead(l: Layout, declared: u64, received: seq<RecordedChunk>, f: Frame)
    returns (batch: seq<RecordedChunk>)
    requires TakeBatch(l, declared, received, f).Ok? && f.flags == 0 && f.version == WFP_VERSION_V03
    ensures |batch| > 0 && EncodableBatch(batch) && f == HashesFrame(batch)
    ensures TakeBatch(l, declared, received, f).value == received + batch
  {
    hide FirstBad;
    batch := DecodeBatch(f.payload).value;
    BatchReencodes(f.payload);
  }

  lemma {:induction false} OneBatchMore(batch: seq<RecordedChunk>, rest: seq<seq<RecordedChunk>>)
    requires |batch| > 0 && EncodableBatch(batch) && GoodBatches(rest)
    ensures GoodBatches([batch] + rest) && Encodable(HashesFrame(batch))
    ensures Concatenated([batch] + rest) == batch + Concatenated(rest)
    ensures HashesStream([batch] + rest) == FrameBytes(HashesFrame(batch)) + HashesStream(rest)
  {
    hide FrameBytes, HashesFrame, EncodableBatch, Encodable;
    HashesFrameSendable(batch);
    HashesSendable(rest);
    assert ([batch] + rest)[1..] == rest;
    assert HashesFrames([batch] + rest)[1..] == HashesFrames(rest);
  }

  lemma {:induction false} Front(stream: Bytes, n: nat)
    requires n <= |stream|
    ensures stream == stream[..n] + stream[n..]
  {
  }

  /** The bytes read are non-empty batches, one frame each, of the records accepted. */
  lemma {:induction false} CollectReads(l: Layout, declared: u64, received: seq<RecordedChunk>, stream: Bytes)
    returns (batches: seq<seq<RecordedChunk>>)
    requires Collect(l, declared, received, stream).Ok?
    ensures GoodBatches(batches)
    ensures var a := Collect(l, declared, received, stream).value;
            a.records == received + Concatenated(batches) && stream == HashesStream(batches) + a.rest
    decreases |stream|
  {
    hide ParseFrame, TakeBatch, FrameBytes, HashesFrame, Encodable, EncodableBatch;
    if |received| >= declared {
      batches := [];
      assert received + [] == received && [] + stream == stream;
    } else {
      hide GoodBatches, HashesStream, Concatenated;
      var p := ParseFrame(stream, WFP_VERSION_V03).value;
      var a := Collect(l, declared, received, stream).value;
      PrintParsed(stream, WFP_VERSION_V03);
      var batch := BatchRead(l, declared, received, p.frame);
      var rest := CollectReads(l, declared, received + batch, stream[p.used..]);
      OneBatchMore(batch, rest);
      batches := [batch] + rest;
      Front(stream, p.used);
      Reassociate(received, batch, Concatenated(rest));
      Reassociate(stream[..p.used], HashesStream(rest), a.rest);
    }
  }

  /** RESUME with the number of records, those records in non-empty batches, and whatever comes after them. */
  ghost predicate Spells(stream: Bytes, batches: seq<seq<RecordedChunk>>, a: Accepted) {
    && GoodBatches(batches) && Concatenated(batches) == a.records && |a.records| < U64_LIMIT
    && Encodable(ResumeFrame(|a.records|))
    && stream == FrameBytes(ResumeFrame(|a.records|)) + (HashesStream(batches) + a.rest)
  }

  /**
   * A sender accepts exactly the streams that begin with an inventory: a RESUME that counts the records and non-empty
   * batches that hold them, in increasing order and in range. The records and the rest are then the ones spelled.
   */
  lemma {:induction false} NegotiatesExactly(l: Layout, stream: Bytes, a: Accepted)
    ensures Negotiate(l, stream) == Ok(a) <==>
            Increasing(a.records) && InRange(l, a.records) && exists batches :: Spells(stream, batches, a)
  {
    hide Spells, Increasing, InRange, Negotiate;
    if Negotiate(l, stream) == Ok(a) {
      NegotiateIsSound(l, stream);
      var batches := NegotiateReads(l, stream);
      assert Spells(stream, batches, a);
    }
    if batches :| Increasing(a.records) && InRange(l, a.records) && Spells(stream, batches, a) {
      SpelledIsNegotiated(l, stream, batches, a);
    }
  }

  lemma {:induction false} NegotiateReads(l: Layout, stream: Bytes) returns (batches: seq<seq<RecordedChunk>>)
    requires Negotiate(l, stream).Ok?
    ensures Spells(stream, batches, Negotiate(l, stream).value)
  {
    hide ParseFrame, Collect, FrameBytes, Encodable;
    var p := ParseFrame(stream, WFP_VERSION_V03).value;
    PrintParsed(stream, WFP_VERSION_V03);
    ResumeReencodes(p.frame.payload);
    var declared := Declared(l, p.frame).value;
    batches := CollectReads(l, declared, [], stream[p.used..]);
    CollectIsSound(l, declared, [], stream[p.used..]);
    assert [] + Concatenated(batches) == Concatenated(batches);
    assert stream == stream[..p.used] + stream[p.used..];
    ResumeFrameSendable(declared);
  }

  lemma {:induction false} SpelledIsNegotiated(l: Layout, stream: Bytes, batches: seq<seq<RecordedChunk>>, a: Accepted)
    requires Increasing(a.records) && InRange(l, a.records) && Spells(stream, batches, a)
    ensures Negotiate(l, stream) == Ok(a)
  {
    hide ParseFrame, Collect, FrameBytes, Encodable, Increasing, InRange, HashesStream, Concatenated;
    var tail := HashesStream(batches);
    var first := FrameBytes(ResumeFrame(|a.records|));
    CountAtMost(l, a.records);
    ResumeFrameSendable(|a.records|);
    ParsePrinted(ResumeFrame(|a.records|), tail + a.rest);
    assert (first + (tail + a.rest))[|first|..] == tail + a.rest;
    assert [] + a.records == a.records && tail[..|tail|] == tail;
    CollectHonest(l, |a.records|, [], batches, |tail|);
    CollectStable(l, |a.records|, [], tail, a.rest);
    assert [] + a.rest == a.rest;
  }

  /** A RESUME that promises more records than there are chunks is refused before any of them is read. */
  lemma {:induction false} OverdeclaredIsRefused(l: Layout, declared: u64, stream: Bytes)
    requires declared > ChunkCount(l)
    ensures Encodable(ResumeFrame(declared))
    ensures Negotiate(l, FrameBytes(ResumeFrame(declared)) + stream) ==
            Err(RecordCountExceedsLayout(declared, ChunkCount(l)))
  {
    hide ParseFrame, FrameBytes;
    ResumeFrameSendable(declared);
    ParsePrinted(ResumeFrame(declared), stream);
  }

  // ----- the code's loop -----

  /** Reads the batches after RESUME, checking every record as it arrives. */
  method ReceiveInventoryAfterResume(stream: ByteStream, l: Layout, resumeFrame: Frame)
    returns (r: Result<seq<RecordedChunk>, NegotiationError>)
    modifies stream
    ensures match NegotiateAfter(l, resumeFrame, old(stream.pending))
            case Err(e) => r == Err(e)
            case Ok(a) => r == Ok(a.records) && stream.pending == a.rest
  {
    hide ParseFrame, DecodeResume, TakeBatch;
    if resumeFrame.messageType != Resume {
      return Err(UnexpectedInventoryMessage(resumeFrame.messageType));
    }
    var resume := DecodeResume(resumeFrame.payload);
    if resume.None? {
      return Err(InvalidResume(|resumeFrame.payload|));
    }
    var chunkCount := ComputeChunkCount(l);
    if resume.value > chunkCount {
      return Err(RecordCountExceedsLayout(resume.value, chunkCount));
    }
    var records: seq<RecordedChunk> := [];
    var received: nat := 0;
    ghost var whole := Collect(l, resume.value, [], stream.pending);
    while received < resume.value
      invariant received == |records|
      invariant Collect(l, resume.value, records, stream.pending) == whole
      decreases |stream.pending|
    {
      var frame := ReadFrameForVersion(stream, WFP_VERSION_V03);
      if frame.Err? {
        return Err(InventoryProtocol(frame.error));
      }
      var more := AppendBatch(l, resume.value, records, frame.value);
      if more.Err? {
        return Err(more.error);
      }
      records := more.value;
      received := |records|;
    }
    return Ok(records);
  }

  /** One pass of the loop: the batch is decoded and its records are appended one by one. */
  method AppendBatch(l: Layout, declared: u64, received: seq<RecordedChunk>, f: Frame)
    returns (r: Result<seq<RecordedChunk>, NegotiationError>)
    ensures r == TakeBatch(l, declared, received, f)
  {
    hide DecodeBatch, Range;
    if f.messageType != ChunkHashes {
      return Err(UnexpectedInventoryMessage(f.messageType));
    }
    var batch := DecodeChunkHashes(f.payload);
    if batch.Err? {
      return Err(InvalidHashes(batch.error));
    }
    if |batch.value| == 0 {
      return Err(EmptyChunkHashes);
    }
    var total := |received| + |batch.value|;
    if total >= U64_LIMIT {
      return Err(RecordCountOverflow);
    }
    if total > declared {
      return Err(RecordCountOverrun(declared, total));
    }
    var records := received;
    var previousIndex := LastIndex(received);
    ghost var verdict := FirstBad(l, previousIndex, batch.value);
    for i := 0 to |batch.value|
      invariant records == received + batch.value[..i]
      invariant FirstBad(l, previousIndex, batch.value[i..]) == verdict
    {
      var record := batch.value[i];
      assert batch.value[i..][1..] == batch.value[i + 1..];
      if ComputeRange(l, record.index).None? {
        return Err(InventoryIndexOutOfRange(record.index));
      }
      if previousIndex.Some? && record.index <= previousIndex.value {
        return Err(InventoryIndexNotIncreasing(previousIndex.value, record.index));
      }
      previousIndex := Some(record.index);
      records := records + [record];
    }
    assert batch.value[|batch.value|..] == [];
    assert batch.value[..|batch.value|] == batch.value;
    return Ok(records);
  }
}
