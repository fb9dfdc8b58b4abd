/** The sending half of a WFP/0.3 transfer (src/sender_v03.rs). */
module SenderV03 {
  import opened Prelude
  import opened ChunkLayout
  import opened ChunkState
  import opened Frames
  import opened PayloadsV03
  import opened Files

  // ----- what a sender transmits, chunk by chunk -----

  datatype Disposition = Reuse | Transmit

  /** A chunk is reused exactly when the inventory lists the source's own hash for it. */
  function DispositionOf(H: HashFunction, l: Layout, source: Bytes, inventory: seq<RecordedChunk>, i: u64)
    : Disposition
  {
    if HashOf(inventory, i) == Some(H(Chunk(l, source, i))) then Reuse else Transmit
  }

  function StartFrame(i: u64, hash: Digest): Frame {
    Frame(WFP_VERSION_V03, ChunkStart, 0, ChunkStartBytes(i, hash))
  }

  function DataFrame(offset: u64, data: Bytes): Frame {
    Frame(WFP_VERSION_V03, Data, 0, DataBytes(DataFragment(offset, data)))
  }

  function CompleteFrame(hash: Digest): Frame {
    Frame(WFP_VERSION_V03, Complete, 0, hash)
  }

  function Fragments(offset: nat, data: Bytes): seq<Frame>
    requires offset + |data| < U64_LIMIT
    decreases |data|
  {
    if |data| == 0 then []
    else
      var n := Min(|data|, MAX_DATA_BYTES);
      [DataFrame(offset, data[..n])] + Fragments(offset + n, data[n..])
  }

  function ChunkFrames(H: HashFunction, l: Layout, source: Bytes, i: u64): seq<Frame> {
    ChunkFits(l, source, i);
    [StartFrame(i, H(Chunk(l, source, i)))] + Fragments(Start(l, i), Chunk(l, source, i))
  }

  lemma {:induction false} ChunkFits(l: Layout, source: Bytes, i: nat)
    ensures Start(l, i) + |Chunk(l, source, i)| <= l.fileSize
  {
  }

  /** Everything sent for chunk `i`. */
  function FramesFor(H: HashFunction, l: Layout, source: Bytes, inventory: seq<RecordedChunk>, i: u64): seq<Frame> {
    if DispositionOf(H, l, source, inventory, i) == Reuse then [] else ChunkFrames(H, l, source, i)
  }

  /** Everything sent for the chunks from `i` on. */
  function TransferFrames(H: HashFunction, l: Layout, source: Bytes, inventory: seq<RecordedChunk>, i: nat): seq<Frame>
    decreases ChunkCount(l) - i
  {
    if i >= ChunkCount(l) then []
    else FramesFor(H, l, source, inventory, i) + TransferFrames(H, l, source, inventory, i + 1)
  }

  /** The whole transfer after ACCEPT. */
  function SentFrames(H: HashFunction, l: Layout, source: Bytes, inventory: seq<RecordedChunk>): seq<Frame> {
    TransferFrames(H, l, source, inventory, 0) + [CompleteFrame(H(source))]
  }

  // ----- properties of the transmission -----

  lemma {:induction false} StartFrameSendable(i: u64, hash: Digest)
    ensures Encodable(StartFrame(i, hash))
            && DecodeChunkStart(StartFrame(i, hash).payload) == Some(RecordedChunk(i, hash))
  {
  }

  lemma {:induction false} DataFrameSendable(offset: u64, data: Bytes)
    requires 0 < |data| <= MAX_DATA_BYTES
    ensures Encodable(DataFrame(offset, data))
            && DecodeData(DataFrame(offset, data).payload) == Ok(DataFragment(offset, data))
  {
  }

  ghost predicate AllSendable(frames: seq<Frame>) {
    Sendable(frames, WFP_VERSION_V03)
  }

  lemma {:induction false} FragmentsSendable(offset: nat, data: Bytes)
    requires offset + |data| < U64_LIMIT
    ensures AllSendable(Fragments(offset, data))
    decreases |data|
  {
    hide Encodable, DataFrame;
    if |data| > 0 {
      var n := Min(|data|, MAX_DATA_BYTES);
      DataFrameSendable(offset, data[..n]);
      FragmentsSendable(offset + n, data[n..]);
      assert DataFrame(offset, data[..n]).flags == 0 && DataFrame(offset, data[..n]).version == WFP_VERSION_V03 by {
        DataFrameHeader(offset, data[..n]);
      }
    }
  }

  lemma {:induction false} DataFrameHeader(offset: u64, data: Bytes)
    ensures DataFrame(offset, data).flags == 0 && DataFrame(offset, data).version == WFP_VERSION_V03
    ensures DataFrame(offset, data).messageType == Data
  {
  }

  lemma {:induction false} TransferSendable(H: HashFunction, l: Layout, source: Bytes, inventory: seq<RecordedChunk>,
                                            i: nat)
    ensures AllSendable(TransferFrames(H, l, source, inventory, i))
    decreases ChunkCount(l) - i
  {
    hide Encodable, Chunk, Fragments;
    if i < ChunkCount(l) {
      TransferSendable(H, l, source, inventory, i + 1);
      ChunkFits(l, source, i);
      FragmentsSendable(Start(l, i), Chunk(l, source, i));
      StartFrameSendable(i, H(Chunk(l, source, i)));
    }
  }

  lemma {:induction false} SentSendable(H: HashFunction, l: Layout, source: Bytes, inventory: seq<RecordedChunk>)
    ensures AllSendable(SentFrames(H, l, source, inventory))
  {
    TransferSendable(H, l, source, inventory, 0);
  }

  function SentStream(H: HashFunction, l: Layout, source: Bytes, inventory: seq<RecordedChunk>): Bytes {
    SentSendable(H, l, source, inventory);
    StreamBytes(SentFrames(H, l, source, inventory))
  }

  /** Fragment `j` of a chunk: full except for the last, contiguous, never empty, never past the end. */
  lemma {:induction false} FragmentAt(offset: nat, data: Bytes, j: nat)
    requires offset + |data| < U64_LIMIT
    ensures j < |Fragments(offset, data)| <==> j * MAX_DATA_BYTES < |data|
    ensures j < |Fragments(offset, data)| ==>
              var lo, hi := j * MAX_DATA_BYTES, Min((j + 1) * MAX_DATA_BYTES, |data|);
              Fragments(offset, data)[j] == DataFrame(offset + lo, data[lo..hi])
    decreases |data|
  {
    hide DataFrame;
    if |data| > 0 {
      var n := Min(|data|, MAX_DATA_BYTES);
      if j > 0 {
        FragmentAt(offset + n, data[n..], j - 1);
        var lo, hi := j * MAX_DATA_BYTES, Min((j + 1) * MAX_DATA_BYTES, |data|);
        if j < |Fragments(offset, data)| {
          SliceOfDrop(data, n, lo - n, hi - n);
        }
      }
    }
  }

  lemma {:induction false} SliceOfDrop(data: Bytes, n: nat, lo: nat, hi: nat)
    requires n <= |data| && lo <= hi <= |data| - n
    ensures data[n..][lo..hi] == data[n + lo..n + hi]
  {
  }

  /** The bytes carried by the DATA frames of a list. */
  function Carried(frames: seq<Frame>): Bytes
    decreases |frames|
  {
    if |frames| == 0 then []
    else
      (if frames[0].messageType == Data && DecodeData(frames[0].payload).Ok?
       then DecodeData(frames[0].payload).value.data else [])
      + Carried(frames[1..])
  }

  lemma {:induction false} CarriedAppend(a: seq<Frame>, b: seq<Frame>)
    ensures Carried(a + b) == Carried(a) + Carried(b)
    decreases |a|
  {
    hide DecodeData;
    if |a| == 0 {
      assert a + b == b;
    } else {
      assert (a + b)[1..] == a[1..] + b;
      CarriedAppend(a[1..], b);
    }
  }

  lemma {:induction false} FragmentsCarryChunk(offset: nat, data: Bytes)
    requires offset + |data| < U64_LIMIT
    ensures Carried(Fragments(offset, data)) == data
    decreases |data|
  {
    hide DecodeData, DataFrame;
    if |data| > 0 {
      var n := Min(|data|, MAX_DATA_BYTES);
      DataFrameSendable(offset, data[..n]);
      DataFrameHeader(offset, data[..n]);
      FragmentsCarryChunk(offset + n, data[n..]);
      assert ([DataFrame(offset, data[..n])] + Fragments(offset + n, data[n..]))[1..] ==
          Fragments(offset + n, data[n..]);
      assert data == data[..n] + data[n..];
    }
  }

  /** The lengths of the chunks, from `i` on, that are not transmitted. */
  function ReusedBytes(H: HashFunction, l: Layout, source: Bytes, inventory: seq<RecordedChunk>, i: nat): nat
    decreases ChunkCount(l) - i
  {
    if i >= ChunkCount(l) then 0
    else
      (if DispositionOf(H, l, source, inventory, i) == Reuse then |Chunk(l, source, i)| else 0)
      + ReusedBytes(H, l, source, inventory, i + 1)
  }

  /** Transmitted bytes and reused bytes add up to the file: nothing is sent twice and nothing is missing. */
  lemma {:induction false} TransmissionIsMinimal(H: HashFunction, l: Layout, source: Bytes,
                                                 inventory: seq<RecordedChunk>, i: nat)
    requires |source| == l.fileSize
    ensures |Carried(TransferFrames(H, l, source, inventory, i))| + ReusedBytes(H, l, source, inventory, i)
            == l.fileSize - Start(l, i)
    decreases ChunkCount(l) - i
  {
    hide Carried, Fragments, DispositionOf;
    CountMeaning(l, i);
    if i < ChunkCount(l) {
      TransmissionIsMinimal(H, l, source, inventory, i + 1);
      ChunkFits(l, source, i);
      CarriedByChunk(H, l, source, i);
      CarriedAppend(ChunkFrames(H, l, source, i), TransferFrames(H, l, source, inventory, i + 1));
      assert [] + TransferFrames(H, l, source, inventory, i + 1) == TransferFrames(H, l, source, inventory, i + 1);
    } else {
      CarriedNothing();
    }
  }

  lemma {:induction false} CarriedNothing()
    ensures Carried([]) == []
  {
  }

  lemma {:induction false} CarriedByChunk(H: HashFunction, l: Layout, source: Bytes, i: u64)
    ensures Carried(ChunkFrames(H, l, source, i)) == Chunk(l, source, i)
  {
    hide Chunk, Fragments, DecodeData;
    ChunkFits(l, source, i);
    FragmentsCarryChunk(Start(l, i), Chunk(l, source, i));
    var rest := Fragments(Start(l, i), Chunk(l, source, i));
    assert ChunkFrames(H, l, source, i)[1..] == rest;
  }

  // ----- the code: a scanner over a source that may answer with short reads -----

  datatype SourceChunk = SourceChunk(index: u64, offset: u64, hash: Digest, disposition: Disposition, data: Bytes)

  datatype SourceScanError =
    | SourceTooShort(expected: u64, actual: nat)
    | SourceTooLong(expected: u64)
    | IncompleteScan
    | UnreconciledInventory(consumed: int, total: int)

  lemma {:induction false} NextPosition(inventory: Records, i: u64)
    requires i + 1 < U64_LIMIT
    ensures var p := Position(inventory, i);
            Position(inventory, i + 1) == if p < |inventory| && inventory[p].index == i then p + 1 else p
  {
    hide Position;
    var p := Position(inventory, i);
    if p < |inventory| && inventory[p].index == i {
      PositionIsUnique(inventory, i + 1, p + 1);
    } else {
      PositionIsUnique(inventory, i + 1, p);
    }
  }

  /** At the merge position the inventory lists index `i` exactly when the map has it. */
  lemma {:induction false} MergeIsLookup(inventory: Records, i: u64)
    ensures var p := Position(inventory, i);
            HashOf(inventory, i) == if p < |inventory| && inventory[p].index == i then Some(inventory[p].hash) else None
  {
    var p := Position(inventory, i);
    if p < |inventory| && inventory[p].index == i {
      HashAt(inventory, p);
    } else {
      AbsentAbove(inventory, i);
    }
  }

  /** Reading chunk `i`, or past the last one, shows that a source of `size` bytes is not the one offered. */
  predicate WrongLength(l: Layout, i: u64, size: nat) {
    if i == ChunkCount(l) then size > l.fileSize else size < Start(l, i + 1)
  }

  function LengthError(l: Layout, size: nat): SourceScanError {
    if size > l.fileSize then SourceTooLong(l.fileSize) else SourceTooShort(l.fileSize, size)
  }

  /** The frames of exactly the chunks that lie whole in a source which is not as long as it was offered. */
  ghost predicate SentUntilWrong(H: HashFunction, l: Layout, source: Bytes, inventory: seq<RecordedChunk>,
                                 sent: seq<Frame>)
  {
    exists i: u64 ::
      && i <= ChunkCount(l) && Start(l, i) <= |source| && WrongLength(l, i, |source|)
      && sent + TransferFrames(H, l, source, inventory, i) == TransferFrames(H, l, source, inventory, 0)
  }

  class SourceScanner {
    const H: HashFunction
    const source: ReadFile
    const layout: Layout
    const inventory: Records
    var inventoryCursor: nat
    var nextChunkIndex: u64
    var fullFileHasher: Bytes
    var sourceLengthConfirmed: bool

    ghost predicate Valid()
      reads this, source
    {
      && source.position <= |source.content|
      && InRange(layout, inventory)
      && nextChunkIndex <= ChunkCount(layout)
      && inventoryCursor == Position(inventory, nextChunkIndex)
      && source.position == Start(layout, nextChunkIndex)
      && fullFileHasher == source.content[..source.position]
      && (sourceLengthConfirmed ==> nextChunkIndex == ChunkCount(layout) && |source.content| == layout.fileSize)
    }

    constructor (H: HashFunction, source: ReadFile, layout: Layout, inventory: Records)
      requires source.position == 0 && InRange(layout, inventory)
      ensures Valid() && nextChunkIndex == 0 && !sourceLengthConfirmed
      ensures this.H == H && this.source == source && this.layout == layout && this.inventory == inventory
    {
      this.H, this.source, this.layout, this.inventory := H, source, layout, inventory;
      inventoryCursor, nextChunkIndex, fullFileHasher, sourceLengthConfirmed := 0, 0, [], false;
      new;
      PositionIsUnique(inventory, 0, 0);
    }

    /**
     * The next chunk with the disposition a map lookup gives, whatever the sizes of the reads;
     * `None` only after the source has been seen to end exactly at the offered size.
     */
    method NextChunk() returns (r: Result<Option<SourceChunk>, SourceScanError>)
      requires Valid()
      modifies this, source
      ensures r.Ok? ==> Valid()
      ensures r.Ok? && r.value.None? ==>
              sourceLengthConfirmed && nextChunkIndex == old(nextChunkIndex) == ChunkCount(layout)
      ensures r.Ok? && r.value.Some? ==>
                var i := old(nextChunkIndex);
                && i < ChunkCount(layout) && nextChunkIndex == i + 1
                && !old(sourceLengthConfirmed) && !sourceLengthConfirmed
                && Start(layout, i + 1) <= |source.content|
                && r.value.value == SourceChunk(i, Start(layout, i), H(Chunk(layout, source.content, i)),
                                                DispositionOf(H, layout, source.content, inventory, i),
                                                Chunk(layout, source.content, i))
      ensures r.Err? <==> !old(sourceLengthConfirmed) && WrongLength(layout, old(nextChunkIndex), |source.content|)
      ensures r.Err? ==> r.error == LengthError(layout, |source.content|)
    {
      hide Chunk, Position, DispositionOf, Start, InRange, Increasing;
      if sourceLengthConfirmed {
        return Ok(None);
      }
      LayoutEnd(layout);
      var count := ComputeChunkCount(layout);
      if nextChunkIndex == count {
        var confirmed := ConfirmSourceEnd();
        if confirmed.Err? {
          return Err(confirmed.error);
        }
        sourceLengthConfirmed := true;
        return Ok(None);
      }
      var range := ComputeRange(layout, nextChunkIndex).value;
      var data := ReadChunk(range);
      if |data| < range.length {
        ChunkCountIsU64(layout, nextChunkIndex);
        return Err(SourceTooShort(layout.fileSize, range.offset + |data|));
      }
      var chunk := MergeChunk(range, data);
      return Ok(Some(chunk));
    }

    /** Absorbs a chunk that was read in full and joins it with the next inventory record. */
    method MergeChunk(range: ChunkRange, data: Bytes) returns (chunk: SourceChunk)
      requires InRange(layout, inventory) && inventoryCursor == Position(inventory, nextChunkIndex)
      requires Range(layout, nextChunkIndex) == Some(range) && data == Chunk(layout, source.content, nextChunkIndex)
      modifies this
      ensures inventoryCursor == Position(inventory, nextChunkIndex)
      ensures nextChunkIndex == old(nextChunkIndex) + 1 && sourceLengthConfirmed == old(sourceLengthConfirmed)
      ensures fullFileHasher == old(fullFileHasher) + data
      ensures chunk == SourceChunk(range.index, range.offset, H(data),
                                   DispositionOf(H, layout, source.content, inventory, range.index), data)
    {
      hide Chunk, Position, HashOf;
      fullFileHasher := fullFileHasher + data;
      var hash := H(data);
      var disposition := Transmit;
      MergeIsLookup(inventory, nextChunkIndex);
      NextPosition(inventory, nextChunkIndex);
      if inventoryCursor < |inventory| && inventory[inventoryCursor].index == range.index {
        disposition := if inventory[inventoryCursor].hash == hash then Reuse else Transmit;
        inventoryCursor := inventoryCursor + 1;
      }
      nextChunkIndex := nextChunkIndex + 1;
      return SourceChunk(range.index, range.offset, hash, disposition, data);
    }

    /** The read loop for one chunk: its bytes, or everything up to the end of a source that is too short. */
    method ReadChunk(range: ChunkRange) returns (data: Bytes)
      requires Valid() && Range(layout, nextChunkIndex) == Some(range)
      modifies source
      ensures |data| <= range.length && source.position <= |source.content|
      ensures |data| == range.length ==>
                data == Chunk(layout, source.content, nextChunkIndex) &&
                source.position == Start(layout, nextChunkIndex + 1) &&
                fullFileHasher + data == source.content[..source.position]
      ensures |data| < range.length ==> range.offset + |data| == |source.content|
    {
      data := [];
      ghost var begin := source.position;
      while |data| < range.length
        invariant source.position <= |source.content| && |data| <= range.length
        invariant source.position == begin + |data|
        invariant data == source.content[begin..source.position]
        decreases range.length - |data|
      {
        var read := source.Read(range.length - |data|);
        if |read| == 0 {
          return;
        }
        data := data + read;
      }
    }

    method ConfirmSourceEnd() returns (r: Result<Unit, SourceScanError>)
      requires Valid() && nextChunkIndex == ChunkCount(layout)
      modifies source
      ensures r.Ok? <==> |source.content| == layout.fileSize
      ensures r.Ok? ==> Valid()
      ensures r.Err? ==> r.error == SourceTooLong(layout.fileSize) && |source.content| > layout.fileSize
    {
      LayoutEnd(layout);
      var read := source.Read(1);
      if |read| != 0 {
        return Err(SourceTooLong(layout.fileSize));
      }
      return Ok(Unit.Unit);
    }

    /** Never reports an unreconciled inventory, and the hash is the hash of the whole source. */
    method Finish() returns (r: Result<Digest, SourceScanError>)
      requires Valid()
      ensures r == if sourceLengthConfirmed then Ok(H(source.content)) else Err(IncompleteScan)
      ensures r.Ok? ==> |source.content| == layout.fileSize
    {
      if !sourceLengthConfirmed {
        return Err(IncompleteScan);
      }
      LayoutEnd(layout);
      PositionIsUnique(inventory, ChunkCount(layout), |inventory|);
      if inventoryCursor != |inventory| {
        return Err(UnreconciledInventory(inventoryCursor, |inventory|));
      }
      assert source.content[..|source.content|] == source.content;
      return Ok(H(fullFileHasher));
    }
  }

  lemma {:induction false} LayoutEnd(l: Layout)
    ensures Start(l, ChunkCount(l)) == l.fileSize
  {
  }

  lemma {:induction false} ChunkCountIsU64(l: Layout, i: u64)
    requires i < ChunkCount(l)
    ensures Start(l, i + 1) <= l.fileSize
  {
  }

  class FrameWriter {
    var sent: seq<Frame>

    constructor ()
      ensures sent == []
    {
      sent := [];
    }

    method WriteFrame(f: Frame)
      requires Encodable(f)
      modifies this
      ensures sent == old(sent) + [f]
    {
      sent := sent + [f];
    }
  }

  method SendTransmitChunk(writer: FrameWriter, chunk: SourceChunk)
    requires chunk.offset + |chunk.data| < U64_LIMIT
    modifies writer
    ensures writer.sent == old(writer.sent) + [StartFrame(chunk.index, chunk.hash)]
            + Fragments(chunk.offset, chunk.data)
  {
    hide Encodable, DataBytes;
    StartFrameSendable(chunk.index, chunk.hash);
    writer.WriteFrame(Frame(WFP_VERSION_V03, ChunkStart, 0, ChunkStartBytes(chunk.index, chunk.hash)));
    ghost var begun := writer.sent;
    var absoluteOffset: u64 := chunk.offset;
    var left := chunk.data;
    while |left| > 0
      invariant absoluteOffset + |left| == chunk.offset + |chunk.data|
      invariant writer.sent + Fragments(absoluteOffset, left) == begun + Fragments(chunk.offset, chunk.data)
      decreases |left|
    {
      var n := Min(|left|, MAX_DATA_BYTES);
      var fragment := left[..n];
      var payload := EncodeData(DataFragment(absoluteOffset, fragment));
      DataFrameSendable(absoluteOffset, fragment);
      ghost var before := writer.sent;
      writer.WriteFrame(Frame(WFP_VERSION_V03, Data, 0, payload.value));
      assert before + ([DataFrame(absoluteOffset, fragment)] + Fragments(absoluteOffset + n, left[n..])) ==
             writer.sent + Fragments(absoluteOffset + n, left[n..]);
      absoluteOffset := absoluteOffset + n;
      left := left[n..];
    }
  }

  /** Sends exactly the chunks the inventory lacks, and reports success only for a source of the offered size. */
  method SendSourceChunks(writer: FrameWriter, scanner: SourceScanner) returns (r: Result<Digest, SourceScanError>)
    requires scanner.Valid() && scanner.nextChunkIndex == 0 && !scanner.sourceLengthConfirmed
    modifies writer, scanner, scanner.source
    ensures r.Ok? <==> |scanner.source.content| == scanner.layout.fileSize
    ensures r.Ok? ==> r.value == scanner.H(scanner.source.content)
    ensures r.Ok? ==> writer.sent == old(writer.sent) +
                                     TransferFrames(scanner.H, scanner.layout, scanner.source.content,
                                         scanner.inventory, 0)
    ensures r.Err? ==> r.error == LengthError(scanner.layout, |scanner.source.content|)
    ensures r.Err? ==>
              && old(writer.sent) <= writer.sent
              && SentUntilWrong(scanner.H, scanner.layout, scanner.source.content, scanner.inventory,
                                writer.sent[|old(writer.sent)|..])
  {
    hide FramesFor;
    ghost var H, l, content, inventory := scanner.H, scanner.layout, scanner.source.content, scanner.inventory;
    ghost var all := TransferFrames(H, l, content, inventory, 0);
    ghost var before := writer.sent;
    var running := true;
    while running
      invariant scanner.Valid() && scanner.sourceLengthConfirmed == !running
      invariant before <= writer.sent
      invariant writer.sent + TransferFrames(H, l, content, inventory, scanner.nextChunkIndex) == before + all
      decreases running, ChunkCount(l) - scanner.nextChunkIndex
    {
      ghost var i, sent := scanner.nextChunkIndex, writer.sent;
      var next := SendNextChunk(writer, scanner);
      if next.Err? {
        SuffixCompletes(before, sent, TransferFrames(H, l, content, inventory, i), all);
        assert i <= ChunkCount(l) && Start(l, i) <= |content|;
        SizeTells(l, i, |content|);
        return Err(next.error);
      }
      running := next.value;
      if running {
        Reassociate(sent, FramesFor(H, l, content, inventory, i), TransferFrames(H, l, content, inventory, i + 1));
      }
    }
    assert TransferFrames(H, l, content, inventory, ChunkCount(l)) == [];
    r := scanner.Finish();
  }

  /** One pass of the loop; false when the source has ended where it should. */
  method SendNextChunk(writer: FrameWriter, scanner: SourceScanner) returns (r: Result<bool, SourceScanError>)
    requires scanner.Valid() && !scanner.sourceLengthConfirmed
    modifies writer, scanner, scanner.source
    ensures r.Ok? ==> scanner.Valid() && scanner.sourceLengthConfirmed == !r.value
    ensures r.Ok? && r.value ==>
              var i := old(scanner.nextChunkIndex);
              && i < ChunkCount(scanner.layout) && scanner.nextChunkIndex == i + 1
              && writer.sent == old(writer.sent) +
                                FramesFor(scanner.H, scanner.layout, scanner.source.content, scanner.inventory, i)
    ensures r.Ok? && !r.value ==>
              && scanner.nextChunkIndex == old(scanner.nextChunkIndex) == ChunkCount(scanner.layout)
              && |scanner.source.content| == scanner.layout.fileSize && writer.sent == old(writer.sent)
    ensures r.Err? <==> WrongLength(scanner.layout, old(scanner.nextChunkIndex), |scanner.source.content|)
    ensures r.Err? ==>
              && writer.sent == old(writer.sent)
              && r.error == LengthError(scanner.layout, |scanner.source.content|)
  {
    hide Fragments, DispositionOf, Chunk;
    ghost var i := scanner.nextChunkIndex;
    var next := scanner.NextChunk();
    if next.Err? {
      return Err(next.error);
    }
    if next.value.None? {
      return Ok(false);
    }
    SizeFits(scanner.layout, i, scanner.source.content);
    var chunk := next.value.value;
    if chunk.disposition == Transmit {
      ghost var sent := writer.sent;
      SendTransmitChunk(writer, chunk);
      assert writer.sent == sent + ChunkFrames(scanner.H, scanner.layout, scanner.source.content, i);
    }
    return Ok(true);
  }

  lemma {:induction false} SizeFits(l: Layout, i: nat, content: Bytes)
    ensures Start(l, i) + |Chunk(l, content, i)| < U64_LIMIT
  {
  }

  lemma {:induction false} SizeTells(l: Layout, i: u64, size: nat)
    requires i <= ChunkCount(l)
    requires WrongLength(l, i, size)
    ensures size != l.fileSize
  {
  }

  lemma {:induction false} SuffixCompletes(before: seq<Frame>, sent: seq<Frame>, rest: seq<Frame>, all: seq<Frame>)
    requires before <= sent && sent + rest == before + all
    ensures sent[|before|..] + rest == all
  {
    assert (sent + rest)[|before|..] == sent[|before|..] + rest;
    assert (before + all)[|before|..] == all;
  }

  /** A wrong source never gets as far as COMPLETE. */
  lemma {:induction false} WrongIsNotCompleted(H: HashFunction, l: Layout, source: Bytes,
                                               inventory: seq<RecordedChunk>, sent: seq<Frame>)
    requires SentUntilWrong(H, l, source, inventory, sent)
    ensures |source| != l.fileSize
    ensures forall f :: f in sent ==> f.messageType == ChunkStart || f.messageType == Data
  {
    hide TransferFrames;
    var i: u64 :| i <= ChunkCount(l) && WrongLength(l, i, |source|)
                  && sent + TransferFrames(H, l, source, inventory, i) == TransferFrames(H, l, source, inventory, 0);
    SizeTells(l, i, |source|);
    OnlyTransferFrames(H, l, source, inventory, 0);
    forall f | f in sent
      ensures f in TransferFrames(H, l, source, inventory, 0)
    {
      assert f in sent + TransferFrames(H, l, source, inventory, i);
    }
  }

  lemma {:induction false} OnlyTransferFrames(H: HashFunction, l: Layout, source: Bytes, inventory: seq<RecordedChunk>,
                                              i: nat)
    ensures forall f :: f in TransferFrames(H, l, source, inventory, i) ==>
            f.messageType == ChunkStart || f.messageType == Data
    decreases ChunkCount(l) - i
  {
    hide FramesFor;
    if i < ChunkCount(l) {
      OnlyTransferFrames(H, l, source, inventory, i + 1);
      OnlyFramesFor(H, l, source, inventory, i);
    }
  }

  lemma {:induction false} OnlyFramesFor(H: HashFunction, l: Layout, source: Bytes, inventory: seq<RecordedChunk>,
                                         i: u64)
    ensures forall f :: f in FramesFor(H, l, source, inventory, i) ==>
            f.messageType == ChunkStart || f.messageType == Data
  {
    hide DispositionOf, Chunk, Fragments;
    ChunkFits(l, source, i);
    OnlyData(Start(l, i), Chunk(l, source, i));
  }

  lemma {:induction false} OnlyData(offset: nat, data: Bytes)
    requires offset + |data| < U64_LIMIT
    ensures forall f :: f in Fragments(offset, data) ==> f.messageType == Data
    decreases |data|
  {
    if |data| > 0 {
      var n := Min(|data|, MAX_DATA_BYTES);
      OnlyData(offset + n, data[n..]);
    }
  }

  /** COMPLETE follows a successful scan only. */
  method SendSourceChunksAndComplete(writer: FrameWriter, scanner: SourceScanner)
    returns (r: Result<Digest, SourceScanError>)
    requires scanner.Valid() && scanner.nextChunkIndex == 0 && !scanner.sourceLengthConfirmed
    modifies writer, scanner, scanner.source
    ensures r.Ok? <==> |scanner.source.content| == scanner.layout.fileSize
    ensures r.Ok? ==> writer.sent == old(writer.sent) +
                                     SentFrames(scanner.H, scanner.layout, scanner.source.content, scanner.inventory)
    ensures r.Err? ==> r.error == LengthError(scanner.layout, |scanner.source.content|)
    ensures r.Err? ==>
              && old(writer.sent) <= writer.sent
              && SentUntilWrong(scanner.H, scanner.layout, scanner.source.content, scanner.inventory,
                                writer.sent[|old(writer.sent)|..])
  {
    r := SendSourceChunks(writer, scanner);
    if r.Ok? {
      writer.WriteFrame(Frame(WFP_VERSION_V03, Complete, 0, r.value));
    }
  }
}
