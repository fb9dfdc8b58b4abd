/** The receiving half of a WFP/0.3 transfer (src/receiver_v03.rs). */
module ReceiverV03 {
  import opened Prelude
  import opened ChunkLayout
  import opened ChunkState
  import opened Frames
  import opened PayloadsV03

  // ----- state -----

  datatype Incoming = Incoming(range: ChunkRange, expectedHash: Digest, nextOffset: u64, absorbed: Bytes)

  datatype Receiver = Receiver(
    layout: Layout,
    records: Records,
    lastChunkIndex: Option<u64>,
    active: Option<Incoming>,
    pendingVerified: Option<RecordedChunk>)

  /** What a snapshot file holds: nothing readable, or a layout and a list that may or may not be acceptable. */
  datatype Snapshot = NoSnapshot | Undecodable | Saved(layout: Layout, chunks: seq<RecordedChunk>)

  /** The two files a transfer writes: the random-access partial file and the snapshot beside it. */
  datatype Store = Store(part: Bytes, snapshot: Snapshot)

  datatype State = State(rx: Receiver, store: Store)

  datatype ReceiverError =
    | ChunkIndexOutsideLayout(index: u64)
    | ChunkAlreadyActive
    | ChunkPendingPersistence(index: u64)
    | NonIncreasingChunkIndex(previous: u64, current: u64)
    | AlreadyVerifiedChunk(index: u64)
    | NoPendingVerifiedChunk
    | DataWithoutActiveChunk
    | UnexpectedDataOffset(expected: u64, actual: u64)
    | DataRangeOverflow
    | DataExceedsFileSize(end: u64, fileSize: u64)
    | DataCrossesChunkBoundary(end: u64, chunkEnd: u64)
    | ChunkHashMismatch(index: u64)
    | RecordingFailed(state: ChunkStateError)

  datatype TransferError =
    | Protocol(io: ProtocolIoError)
    | InvalidChunkStart(length: nat)
    | InvalidData(data: DataError)
    | Refused(receiver: ReceiverError)
    | UnexpectedMessageType(messageType: MessageType)
    | InvalidCompletePayload(length: nat)
    | CompleteWhileChunkActive(index: u64)
    | CompleteWhileChunkPendingPersistence(index: u64)
    | IncompleteVerifiedCoverage(expected: u64, actual: nat)

  // ----- one operation at a time -----

  function Begin(rx: Receiver, index: u64, expectedHash: Digest): Result<Receiver, ReceiverError> {
    if rx.pendingVerified.Some? then Err(ChunkPendingPersistence(rx.pendingVerified.value.index))
    else if rx.active.Some? then Err(ChunkAlreadyActive)
    else
      match Range(rx.layout, index)
      case None => Err(ChunkIndexOutsideLayout(index))
      case Some(range) =>
        if rx.lastChunkIndex.Some? && index <= rx.lastChunkIndex.value
        then Err(NonIncreasingChunkIndex(rx.lastChunkIndex.value, index))
        else if HashOf(rx.records, index) == Some(expectedHash) then Err(AlreadyVerifiedChunk(index))
        else Ok(rx.(lastChunkIndex := Some(index), active := Some(Incoming(range, expectedHash, range.offset, []))))
  }

  /** The end of an acceptable fragment. */
  function CheckData(rx: Receiver, d: DataFragment): Result<u64, ReceiverError> {
    if rx.active.None? then Err(DataWithoutActiveChunk)
    else
      var active := rx.active.value;
      if d.absoluteOffset != active.nextOffset then Err(UnexpectedDataOffset(active.nextOffset, d.absoluteOffset))
      else if d.absoluteOffset + |d.data| >= U64_LIMIT then Err(DataRangeOverflow)
      else if active.range.offset + active.range.length >= U64_LIMIT then Err(DataRangeOverflow)
      else
        var end, chunkEnd := d.absoluteOffset + |d.data|, active.range.offset + active.range.length;
        if end > rx.layout.fileSize then Err(DataExceedsFileSize(end, rx.layout.fileSize))
        else if end > chunkEnd then Err(DataCrossesChunkBoundary(end, chunkEnd))
        else Ok(end)
  }

  /** The state after an acceptable fragment is written, and whether its chunk is now verified. */
  function Absorb(H: HashFunction, rx: Receiver, d: DataFragment)
    : (Receiver, Result<Option<RecordedChunk>, ReceiverError>)
    requires CheckData(rx, d).Ok?
  {
    var end := CheckData(rx, d).value;
    var active := rx.active.value.(absorbed := rx.active.value.absorbed + d.data, nextOffset := end);
    if end != active.range.offset + active.range.length then (rx.(active := Some(active)), Ok(None))
    else if H(active.absorbed) != active.expectedHash
    then (rx.(active := Some(active)), Err(ChunkHashMismatch(active.range.index)))
    else
      var verified := RecordedChunk(active.range.index, active.expectedHash);
      (rx.(active := None, pendingVerified := Some(verified)), Ok(Some(verified)))
  }

  function Persist(rx: Receiver): Result<Receiver, ReceiverError> {
    if rx.pendingVerified.None? then Err(NoPendingVerifiedChunk)
    else
      var verified := rx.pendingVerified.value;
      if Range(rx.layout, verified.index).None? then Err(RecordingFailed(ChunkIndexOutOfRange(verified.index)))
      else Ok(rx.(records := Recorded(rx.records, verified.index, verified.hash), pendingVerified := None))
  }

  // ----- the receive loop -----

  datatype Progress =
    | More(state: State)
    | Stopped(state: State, error: TransferError)
    | Completed(state: State, fileHash: Digest)

  function StepChunkStart(s: State, payload: Bytes): Progress {
    match DecodeChunkStart(payload)
    case None => Stopped(s, InvalidChunkStart(|payload|))
    case Some(start) =>
      match Begin(s.rx, start.index, start.hash)
      case Err(e) => Stopped(s, Refused(e))
      case Ok(rx) => More(s.(rx := rx))
  }

  function StepFragment(H: HashFunction, s: State, d: DataFragment): Progress {
    match CheckData(s.rx, d)
    case Err(e) => Stopped(s, Refused(e))
    case Ok(_) =>
      var (rx, verified) := Absorb(H, s.rx, d);
      var written := State(rx, s.store.(part := Splice(s.store.part, d.absoluteOffset, d.data)));
      match verified
      case Err(e) => Stopped(written, Refused(e))
      case Ok(None) => More(written)
      case Ok(Some(_)) =>
        match Persist(rx)
        case Err(e) => Stopped(written, Refused(e))
        case Ok(rx') => More(State(rx', written.store.(snapshot := Saved(rx'.layout, rx'.records))))
  }

  function StepData(H: HashFunction, s: State, payload: Bytes): Progress {
    match DecodeData(payload)
    case Err(e) => Stopped(s, InvalidData(e))
    case Ok(d) => StepFragment(H, s, d)
  }

  function StepComplete(s: State, payload: Bytes): Progress {
    if s.rx.active.Some? then Stopped(s, CompleteWhileChunkActive(s.rx.active.value.range.index))
    else if s.rx.pendingVerified.Some?
    then Stopped(s, CompleteWhileChunkPendingPersistence(s.rx.pendingVerified.value.index))
    else if |payload| != 32 then Stopped(s, InvalidCompletePayload(|payload|))
    else if |s.rx.records| != ChunkCount(s.rx.layout)
    then Stopped(s, IncompleteVerifiedCoverage(ChunkCount(s.rx.layout), |s.rx.records|))
    else Completed(s, payload)
  }

  function Step(H: HashFunction, s: State, f: Frame): Progress {
    match f.messageType
    case ChunkStart => StepChunkStart(s, f.payload)
    case Data => StepData(H, s, f.payload)
    case Complete => StepComplete(s, f.payload)
    case _ => Stopped(s, UnexpectedMessageType(f.messageType))
  }

  function Run(H: HashFunction, s: State, frames: seq<Frame>): Progress
    decreases |frames|
  {
    if |frames| == 0 then More(s)
    else
      match Step(H, s, frames[0])
      case More(s') => Run(H, s', frames[1..])
      case Stopped(s', e) => Stopped(s', e)
      case Completed(s', h) => Completed(s', h)
  }

  /** The loop over the bytes of a connection. */
  function ReceiveBytes(H: HashFunction, s: State, stream: Bytes): Progress
    decreases |stream|
  {
    match ParseFrame(stream, WFP_VERSION_V03)
    case Err(e) => Stopped(s, Protocol(e))
    case Ok(p) =>
      match Step(H, s, p.frame)
      case More(s') => ReceiveBytes(H, s', stream[p.used..])
      case Stopped(s', e) => Stopped(s', e)
      case Completed(s', h) => Completed(s', h)
  }

  function EndOfFrames(p: Progress, e: ProtocolIoError): Progress {
    if p.More? then Stopped(p.state, Protocol(e)) else p
  }

  /** Receiving bytes is receiving the frames they spell, and then the error that ends the stream. */
  lemma {:induction false} ReceiveBytesIsRun(H: HashFunction, s: State, stream: Bytes)
    ensures var (frames, e) := ParseStream(stream, WFP_VERSION_V03);
            ReceiveBytes(H, s, stream) == EndOfFrames(Run(H, s, frames), e)
    decreases |stream|
  {
    hide Step, ParseFrame;
    match ParseFrame(stream, WFP_VERSION_V03)
    case Err(_) =>
    case Ok(p) =>
      var (frames, e) := ParseStream(stream[p.used..], WFP_VERSION_V03);
      assert ([p.frame] + frames)[1..] == frames;
      match Step(H, s, p.frame)
      case More(s') => ReceiveBytesIsRun(H, s', stream[p.used..]);
      case Stopped(_, _) =>
      case Completed(_, _) =>
  }

  /** Whatever a cut connection still delivers is a prefix of the frames that were sent. */
  lemma {:induction false} ReceiveCutStream(H: HashFunction, s: State, frames: seq<Frame>, k: nat)
    requires Sendable(frames, WFP_VERSION_V03) && k <= |StreamBytes(frames)|
    ensures ReceiveBytes(H, s, StreamBytes(frames)[..k]) ==
            EndOfFrames(Run(H, s, frames[..WholeFrames(frames, k)]), UnexpectedEof)
  {
    ReceiveBytesIsRun(H, s, StreamBytes(frames)[..k]);
    ParseCutStream(frames, WFP_VERSION_V03, k);
  }

  lemma {:induction false} RunAppend(H: HashFunction, s: State, a: seq<Frame>, b: seq<Frame>)
    ensures Run(H, s, a + b) == if Run(H, s, a).More? then Run(H, Run(H, s, a).state, b) else Run(H, s, a)
    decreases |a|
  {
    hide Step;
    if |a| == 0 {
      assert a + b == b;
    } else {
      assert (a + b)[0] == a[0];
      assert (a + b)[1..] == a[1..] + b;
      match Step(H, s, a[0])
      case More(s') => RunAppend(H, s', a[1..], b);
      case Stopped(_, _) =>
      case Completed(_, _) =>
    }
  }

  // ----- the code: objects updated in place -----

  class PartFile {
    var content: Bytes

    constructor (content: Bytes)
      ensures this.content == content
    {
      this.content := content;
    }

    /** `seek` followed by `write_all`. */
    method WriteAt(offset: u64, data: Bytes)
      modifies this
      ensures content == Splice(old(content), offset, data)
    {
      content := Splice(content, offset, data);
    }
  }

  class SnapshotFile {
    var stored: Snapshot
    var temporary: Snapshot
    /** Every state the snapshot name went through; a process stop leaves the last of them. */
    ghost var visible: seq<Snapshot>

    constructor (stored: Snapshot)
      ensures this.stored == stored && visible == [stored]
    {
      this.stored := stored;
      temporary := NoSnapshot;
      visible := [stored];
    }

    /** Write aside, remove the previous snapshot, rename. */
    method Write(layout: Layout, chunks: Records)
      modifies this
      ensures stored == Saved(layout, chunks) && temporary == NoSnapshot
      ensures visible == old(visible) + [NoSnapshot, Saved(layout, chunks)]
    {
      temporary := NoSnapshot;
      temporary := Undecodable;
      temporary := Saved(layout, chunks);
      stored, visible := NoSnapshot, visible + [NoSnapshot];
      stored, visible := temporary, visible + [temporary];
      temporary := NoSnapshot;
    }
  }

  class ChunkReceiver {
    var chunkState: ChunkStateTable
    var lastChunkIndex: Option<u64>
    var active: Option<Incoming>
    var pendingVerified: Option<RecordedChunk>

    ghost predicate Valid()
      reads this, chunkState
    {
      chunkState.Valid()
    }

    ghost function View(): Receiver
      reads this, chunkState
    {
      Receiver(chunkState.layout, chunkState.chunks, lastChunkIndex, active, pendingVerified)
    }

    constructor (chunkState: ChunkStateTable)
      requires chunkState.Valid()
      ensures Valid() && this.chunkState == chunkState
      ensures View() == Receiver(chunkState.layout, chunkState.chunks, None, None, None)
    {
      this.chunkState := chunkState;
      lastChunkIndex, active, pendingVerified := None, None, None;
    }

    method BeginChunk(index: u64, expectedHash: Digest) returns (r: Result<Unit, ReceiverError>)
      requires Valid()
      modifies this
      ensures Valid() && chunkState == old(chunkState)
      ensures match Begin(old(View()), index, expectedHash)
              case Err(e) => r == Err(e) && View() == old(View())
              case Ok(rx) => r.Ok? && View() == rx
    {
      if pendingVerified.Some? {
        return Err(ChunkPendingPersistence(pendingVerified.value.index));
      }
      if active.Some? {
        return Err(ChunkAlreadyActive);
      }
      var range := ComputeRange(chunkState.layout, index);
      if range.None? {
        return Err(ChunkIndexOutsideLayout(index));
      }
      if lastChunkIndex.Some? && index <= lastChunkIndex.value {
        return Err(NonIncreasingChunkIndex(lastChunkIndex.value, index));
      }
      var known := chunkState.Hash(index);
      if known == Some(expectedHash) {
        return Err(AlreadyVerifiedChunk(index));
      }
      lastChunkIndex := Some(index);
      active := Some(Incoming(range.value, expectedHash, range.value.offset, []));
      return Ok(Unit.Unit);
    }

    method WriteData(H: HashFunction, file: PartFile, d: DataFragment)
      returns (r: Result<Option<RecordedChunk>, ReceiverError>)
      requires Valid()
      modifies this, file
      ensures Valid() && chunkState == old(chunkState)
      ensures CheckData(old(View()), d).Err? ==>
                r == Err(CheckData(old(View()), d).error) && View() == old(View()) && file.content == old(file.content)
      ensures CheckData(old(View()), d).Ok? ==>
                (View(), r) == Absorb(H, old(View()), d) &&
                file.content == Splice(old(file.content), d.absoluteOffset, d.data)
    {
      if active.None? {
        return Err(DataWithoutActiveChunk);
      }
      if d.absoluteOffset != active.value.nextOffset {
        return Err(UnexpectedDataOffset(active.value.nextOffset, d.absoluteOffset));
      }
      if |d.data| >= U64_LIMIT {
        return Err(DataRangeOverflow);
      }
      var end := CheckedAdd(d.absoluteOffset, |d.data|);
      if end.None? {
        return Err(DataRangeOverflow);
      }
      var chunkEnd := CheckedAdd(active.value.range.offset, active.value.range.length);
      if chunkEnd.None? {
        return Err(DataRangeOverflow);
      }
      var fileSize := chunkState.layout.fileSize;
      if end.value > fileSize {
        return Err(DataExceedsFileSize(end.value, fileSize));
      }
      if end.value > chunkEnd.value {
        return Err(DataCrossesChunkBoundary(end.value, chunkEnd.value));
      }

      file.WriteAt(d.absoluteOffset, d.data);
      active := Some(active.value.(absorbed := active.value.absorbed + d.data, nextOffset := end.value));
      if end.value != chunkEnd.value {
        return Ok(None);
      }
      var hash := H(active.value.absorbed);
      if hash != active.value.expectedHash {
        return Err(ChunkHashMismatch(active.value.range.index));
      }
      var verified := RecordedChunk(active.value.range.index, hash);
      active := None;
      pendingVerified := Some(verified);
      return Ok(Some(verified));
    }

    method PersistVerifiedChunk(snapshot: SnapshotFile) returns (r: Result<Unit, ReceiverError>)
      requires Valid()
      modifies this, snapshot
      ensures Valid() && (chunkState == old(chunkState) || fresh(chunkState))
      ensures match Persist(old(View()))
              case Err(e) => r == Err(e) && View() == old(View()) && snapshot.stored == old(snapshot.stored)
              case Ok(rx) => r.Ok? && View() == rx && snapshot.stored == Saved(rx.layout, rx.records)
    {
      if pendingVerified.None? {
        return Err(NoPendingVerifiedChunk);
      }
      var verified := pendingVerified.value;
      var candidate := new ChunkStateTable(chunkState.layout, chunkState.chunks);
      var recorded := candidate.RecordVerifiedChunk(verified.index, verified.hash);
      if recorded.Err? {
        return Err(RecordingFailed(recorded.error));
      }
      snapshot.Write(candidate.layout, candidate.chunks);
      chunkState := candidate;
      pendingVerified := None;
      return Ok(Unit.Unit);
    }

    ghost function StateOf(file: PartFile, snapshot: SnapshotFile): State
      reads this, chunkState, file, snapshot
    {
      State(View(), Store(file.content, snapshot.stored))
    }

    /** One frame of the loop in `ReceiveTransfer`; the result is the hash of an accepted COMPLETE. */
    method HandleFrame(H: HashFunction, file: PartFile, snapshot: SnapshotFile, f: Frame)
      returns (r: Result<Option<Digest>, TransferError>)
      requires Valid()
      modifies this, file, snapshot
      ensures Valid() && (chunkState == old(chunkState) || fresh(chunkState))
      ensures match Step(H, old(StateOf(file, snapshot)), f)
              case More(s) => r == Ok(None) && StateOf(file, snapshot) == s
              case Stopped(s, e) => r == Err(e) && StateOf(file, snapshot) == s
              case Completed(s, h) => r == Ok(Some(h)) && StateOf(file, snapshot) == s
    {
      hide Begin, CheckData, Absorb, Persist, DecodeChunkStart, DecodeData, Splice;
      match f.messageType
      case ChunkStart =>
        var start := DecodeChunkStart(f.payload);
        if start.None? {
          return Err(InvalidChunkStart(|f.payload|));
        }
        var begun := BeginChunk(start.value.index, start.value.hash);
        return if begun.Ok? then Ok(None) else Err(Refused(begun.error));
      case Data =>
        var d := DecodeData(f.payload);
        if d.Err? {
          return Err(InvalidData(d.error));
        }
        var written := WriteData(H, file, d.value);
        if written.Err? {
          return Err(Refused(written.error));
        }
        if written.value.Some? {
          var persisted := PersistVerifiedChunk(snapshot);
          if persisted.Err? {
            return Err(Refused(persisted.error));
          }
        }
        return Ok(None);
      case Complete =>
        if active.Some? {
          return Err(CompleteWhileChunkActive(active.value.range.index));
        }
        if pendingVerified.Some? {
          return Err(CompleteWhileChunkPendingPersistence(pendingVerified.value.index));
        }
        if |f.payload| != 32 {
          return Err(InvalidCompletePayload(|f.payload|));
        }
        var expected := ComputeChunkCount(chunkState.layout);
        var actual := |chunkState.chunks|;
        if actual != expected {
          return Err(IncompleteVerifiedCoverage(expected, actual));
        }
        return Ok(Some(f.payload));
      case _ =>
        return Err(UnexpectedMessageType(f.messageType));
    }

    method ReceiveTransfer(H: HashFunction, file: PartFile, snapshot: SnapshotFile, stream: ByteStream)
      returns (r: Result<Digest, TransferError>)
      requires Valid()
      modifies this, file, snapshot, stream
      ensures match ReceiveBytes(H, old(StateOf(file, snapshot)), old(stream.pending))
              case More(_) => false
              case Stopped(s, e) => r == Err(e) && StateOf(file, snapshot) == s
              case Completed(s, h) => r == Ok(h) && StateOf(file, snapshot) == s
    {
      hide Step, ParseFrame;
      ghost var whole := ReceiveBytes(H, StateOf(file, snapshot), stream.pending);
      while true
        invariant Valid() && (chunkState == old(chunkState) || fresh(chunkState))
        invariant ReceiveBytes(H, StateOf(file, snapshot), stream.pending) == whole
        decreases |stream.pending|
      {
        var frame := ReadFrameForVersion(stream, WFP_VERSION_V03);
        if frame.Err? {
          return Err(Protocol(frame.error));
        }
        var handled := HandleFrame(H, file, snapshot, frame.value);
        if handled.Err? {
          return Err(handled.error);
        }
        if handled.value.Some? {
          return Ok(handled.value.value);
        }
      }
    }
  }
}
