/** One WFP/0.2 transfer: the receiving loop and the sending loop (src/receiver.rs, src/sender.rs). */
module PrefixV02 {
  import opened Prelude
  import opened Frames
  import opened Files

  // ----- the receiving loop -----

  /** The partial file, the byte count, and the bytes the running hash has absorbed. */
  datatype Incoming = Incoming(part: Bytes, bytesReceived: u64, absorbed: Bytes)

  datatype ReceiveError =
    | ResumeOffsetTooLarge
    | ConnectionFailed(io: ProtocolIoError)
    | ByteCountOverflow
    | MoreThanAnnounced
    | InvalidComplete
    | InvalidCancel
    | Cancelled
    | UnexpectedFrame
    | SizeMismatch(expected: u64, received: u64)
    | IntegrityFailure

  datatype Reception =
    | Continuing(state: Incoming)
    | Broken(state: Incoming, error: ReceiveError)
    | Announced(state: Incoming, senderHash: Bytes)

  function Take(s: Incoming, expectedSize: u64, f: Frame): Reception {
    match f.messageType
    case Data =>
      if s.bytesReceived + |f.payload| >= U64_LIMIT then Broken(s, ByteCountOverflow)
      else if s.bytesReceived + |f.payload| > expectedSize then Broken(s, MoreThanAnnounced)
      else Continuing(Incoming(s.part + f.payload, s.bytesReceived + |f.payload|, s.absorbed + f.payload))
    case Complete => if |f.payload| != 32 then Broken(s, InvalidComplete) else Announced(s, f.payload)
    case Cancel => Broken(s, if |f.payload| != 0 then InvalidCancel else Cancelled)
    case _ => Broken(s, UnexpectedFrame)
  }

  function TakeAll(s: Incoming, expectedSize: u64, frames: seq<Frame>): Reception
    decreases |frames|
  {
    if |frames| == 0 then Continuing(s)
    else
      match Take(s, expectedSize, frames[0])
      case Continuing(t) => TakeAll(t, expectedSize, frames[1..])
      case Broken(t, e) => Broken(t, e)
      case Announced(t, h) => Announced(t, h)
  }

  function TakeBytes(s: Incoming, expectedSize: u64, stream: Bytes): Reception
    decreases |stream|
  {
    match ParseFrame(stream, WFP_VERSION_V02)
    case Err(e) => Broken(s, ConnectionFailed(e))
    case Ok(p) =>
      match Take(s, expectedSize, p.frame)
      case Continuing(t) => TakeBytes(t, expectedSize, stream[p.used..])
      case Broken(t, e) => Broken(t, e)
      case Announced(t, h) => Announced(t, h)
  }

  /** What the loop leaves when the connection is lost. */
  function LostAfter(r: Reception, e: ProtocolIoError): Reception {
    if r.Continuing? then Broken(r.state, ConnectionFailed(e)) else r
  }

  lemma {:induction false} TakeBytesIsTakeAll(s: Incoming, expectedSize: u64, stream: Bytes)
    ensures var (frames, e) := ParseStream(stream, WFP_VERSION_V02);
            TakeBytes(s, expectedSize, stream) == LostAfter(TakeAll(s, expectedSize, frames), e)
    decreases |stream|
  {
    hide Take, ParseFrame;
    match ParseFrame(stream, WFP_VERSION_V02)
    case Err(_) =>
    case Ok(p) =>
      var (frames, e) := ParseStream(stream[p.used..], WFP_VERSION_V02);
      assert ([p.frame] + frames)[1..] == frames;
      match Take(s, expectedSize, p.frame)
      case Continuing(t) => TakeBytesIsTakeAll(t, expectedSize, stream[p.used..]);
      case Broken(_, _) =>
      case Announced(_, _) =>
  }

  /** A connection cut after any byte delivers whole frames and then its loss. */
  lemma {:induction false} TakeCutStream(s: Incoming, expectedSize: u64, frames: seq<Frame>, k: nat)
    requires Sendable(frames, WFP_VERSION_V02) && k <= |StreamBytes(frames)|
    ensures TakeBytes(s, expectedSize, StreamBytes(frames)[..k]) ==
            LostAfter(TakeAll(s, expectedSize, frames[..WholeFrames(frames, k)]), UnexpectedEof)
  {
    TakeBytesIsTakeAll(s, expectedSize, StreamBytes(frames)[..k]);
    ParseCutStream(frames, WFP_VERSION_V02, k);
  }

  /** The verdict after COMPLETE. */
  function Settle(H: HashFunction, s: Incoming, expectedSize: u64, senderHash: Bytes): Result<Digest, ReceiveError> {
    if s.bytesReceived != expectedSize then Err(SizeMismatch(expectedSize, s.bytesReceived))
    else if senderHash != H(s.absorbed) then Err(IntegrityFailure)
    else Ok(H(s.absorbed))
  }

  /** Only the loss of the connection keeps the partial file. */
  predicate ShouldPreserve(e: ReceiveError) {
    e == ConnectionFailed(UnexpectedEof)
  }

  /** The byte count and the running hash are in step with the file, and the file never outgrows the offer. */
  ghost predicate InStep(s: Incoming, expectedSize: u64) {
    s.absorbed == s.part && s.bytesReceived == |s.part| <= expectedSize
  }

  /** The bytes carried by the DATA frames of a list. */
  function Payloads(frames: seq<Frame>): Bytes
    decreases |frames|
  {
    if |frames| == 0 then []
    else (if frames[0].messageType == Data then frames[0].payload else []) + Payloads(frames[1..])
  }

  /** Whatever arrives, file, count and hash stay in step and the file only grows. */
  lemma {:induction false} TakeAllStaysInStep(s: Incoming, expectedSize: u64, frames: seq<Frame>)
    requires InStep(s, expectedSize)
    ensures var t := TakeAll(s, expectedSize, frames).state;
            InStep(t, expectedSize) && s.part <= t.part
    ensures TakeAll(s, expectedSize, frames).Continuing? ==>
            TakeAll(s, expectedSize, frames).state.part == s.part + Payloads(frames)
    decreases |frames|
  {
    if |frames| == 0 {
      assert s.part + [] == s.part;
    } else {
      var r := Take(s, expectedSize, frames[0]);
      if r.Continuing? {
        TakeAllStaysInStep(r.state, expectedSize, frames[1..]);
        Reassociate(s.part, frames[0].payload, Payloads(frames[1..]));
      }
    }
  }

  /** A transfer that settles has the offered size and the announced hash on disk. */
  lemma {:induction false} SettledFile(H: HashFunction, s: Incoming, expectedSize: u64, senderHash: Bytes)
    requires InStep(s, expectedSize)
    ensures Settle(H, s, expectedSize, senderHash).Ok? <==> |s.part| == expectedSize && H(s.part) == senderHash
  {
  }

  class OutputFile {
    var content: Bytes

    constructor (content: Bytes)
      ensures this.content == content
    {
      this.content := content;
    }

    method Append(data: Bytes)
      modifies this
      ensures content == old(content) + data
    {
      content := content + data;
    }
  }

  method ReceiveFileData(H: HashFunction, stream: ByteStream, output: OutputFile, expectedSize: u64,
                         initialBytesReceived: u64, initialHasher: Bytes)
    returns (r: Result<Digest, ReceiveError>)
    modifies stream, output
    ensures initialBytesReceived > expectedSize ==>
            r == Err(ResumeOffsetTooLarge) && output.content == old(output.content)
    ensures initialBytesReceived <= expectedSize ==>
            match TakeBytes(Incoming(old(output.content), initialBytesReceived, initialHasher), expectedSize,
                old(stream.pending))
            case Continuing(_) => false
            case Broken(s, e) => r == Err(e) && output.content == s.part
            case Announced(s, h) => r == Settle(H, s, expectedSize, h) && output.content == s.part
  {
    hide ParseFrame;
    if initialBytesReceived > expectedSize {
      return Err(ResumeOffsetTooLarge);
    }
    var bytesReceived: u64 := initialBytesReceived;
    var hasher := initialHasher;
    var senderHash: Bytes := [];
    var announced := false;
    ghost var whole := TakeBytes(Incoming(output.content, bytesReceived, hasher), expectedSize, stream.pending);
    while !announced
      invariant !announced ==> TakeBytes(Incoming(output.content, bytesReceived, hasher), expectedSize,
                stream.pending) == whole
      invariant announced ==> whole == Announced(Incoming(output.content, bytesReceived, hasher), senderHash)
      decreases !announced, |stream.pending|
    {
      var frame := ReadFrameForVersion(stream, WFP_VERSION_V02);
      if frame.Err? {
        return Err(ConnectionFailed(frame.error));
      }
      var payload := frame.value.payload;
      match frame.value.messageType
      case Data =>
        if bytesReceived + |payload| >= U64_LIMIT {
          return Err(ByteCountOverflow);
        }
        var nextTotal: u64 := bytesReceived + |payload|;
        if nextTotal > expectedSize {
          return Err(MoreThanAnnounced);
        }
        output.Append(payload);
        hasher := hasher + payload;
        bytesReceived := nextTotal;
      case Complete =>
        if |payload| != 32 {
          return Err(InvalidComplete);
        }
        senderHash := payload;
        announced := true;
      case Cancel =>
        return Err(if |payload| != 0 then InvalidCancel else Cancelled);
      case _ =>
        return Err(UnexpectedFrame);
    }
    if bytesReceived != expectedSize {
      return Err(SizeMismatch(expectedSize, bytesReceived));
    }
    var receiverHash := H(hasher);
    if senderHash != receiverHash {
      return Err(IntegrityFailure);
    }
    return Ok(receiverHash);
  }

  // ----- the sending loop -----

  /** A division of the bytes still to send into the non-empty pieces the reads returned. */
  ghost predicate Splits(pieces: seq<Bytes>, data: Bytes)
    decreases |pieces|
  {
    if |pieces| == 0 then data == []
    else 0 < |pieces[0]| <= MAX_DATA_PAYLOAD_LENGTH && pieces[0] <= data && Splits(pieces[1..], data[|pieces[0]|..])
  }

  function DataFrame(piece: Bytes): Frame {
    Frame(WFP_VERSION_V02, Data, 0, piece)
  }

  function DataFrames(pieces: seq<Bytes>): (r: seq<Frame>)
    ensures |r| == |pieces|
    decreases |pieces|
  {
    if |pieces| == 0 then [] else [DataFrame(pieces[0])] + DataFrames(pieces[1..])
  }

  function CancelFrame(): Frame {
    Frame(WFP_VERSION_V02, Cancel, 0, [])
  }

  function CompleteFrame(hash: Digest): Frame {
    Frame(WFP_VERSION_V02, Complete, 0, hash)
  }

  datatype SendError = ProcessedWrongLength(expected: u64, processed: nat) | SourceEndedEarly | CancelledByUser

  lemma {:induction false} SplitsAppend(pieces: seq<Bytes>, done: Bytes, piece: Bytes)
    requires Splits(pieces, done) && 0 < |piece| <= MAX_DATA_PAYLOAD_LENGTH
    ensures Splits(pieces + [piece], done + piece)
    decreases |pieces|
  {
    if |pieces| == 0 {
      assert pieces + [piece] == [piece];
      assert [piece][1..] == [];
      assert piece[|piece|..] == [];
      assert done + piece == piece;
    } else {
      var first := pieces[0];
      SplitsAppend(pieces[1..], done[|first|..], piece);
      assert (pieces + [piece])[1..] == pieces[1..] + [piece];
      assert (done + piece)[|first|..] == done[|first|..] + piece;
    }
  }

  lemma {:induction false} DataFramesAppend(pieces: seq<Bytes>, piece: Bytes)
    ensures DataFrames(pieces + [piece]) == DataFrames(pieces) + [DataFrame(piece)]
    decreases |pieces|
  {
    if |pieces| == 0 {
      assert pieces + [piece] == [piece];
      assert [piece][1..] == [];
    } else {
      assert (pieces + [piece])[1..] == pieces[1..] + [piece];
      DataFramesAppend(pieces[1..], piece);
    }
  }

  class FrameSink {
    var sent: seq<Frame>

    constructor ()
      ensures sent == []
    {
      sent := [];
    }

    method WriteFrame(f: Frame)
      requires Encodable(f)
      modifies this
      ensures sent == old(sent) + [f]
    {
      sent := sent + [f];
    }
  }

  /** Hashes exactly the requested prefix of the source, or reports that the source is shorter. */
  method HashPrefix(file: ReadFile, prefixLength: u64) returns (r: Result<Bytes, SendError>)
    requires file.position == 0
    modifies file
    ensures r.Ok? <==> prefixLength <= |file.content|
    ensures r.Ok? ==> r.value == file.content[..prefixLength] && file.position == prefixLength
    ensures r.Err? ==> r.error == SourceEndedEarly
  {
    var hasher: Bytes := [];
    var remaining: u64 := prefixLength;
    while remaining > 0
      invariant remaining + |hasher| == prefixLength
      invariant file.position == |hasher| <= |file.content|
      invariant hasher == file.content[..file.position]
      decreases remaining
    {
      var read := file.Read(Min(remaining, MAX_DATA_PAYLOAD_LENGTH));
      if |read| == 0 {
        return Err(SourceEndedEarly);
      }
      hasher := hasher + read;
      remaining := remaining - |read|;
    }
    return Ok(hasher);
  }

  /**
   * Sends the rest of the source, in whatever pieces the reads return, and COMPLETE only for the offered length;
   * `cancelAfter` is the number of pieces after which the user interrupts it.
   */
  method SendFileData(H: HashFunction, writer: FrameSink, file: ReadFile, prefix: Bytes, fileSize: u64,
                      cancelAfter: Option<nat>)
    returns (r: Result<Unit, SendError>, ghost pieces: seq<Bytes>)
    requires file.position == |prefix| <= |file.content| && prefix == file.content[..|prefix|]
    modifies writer, file
    ensures |prefix| <= file.position <= |file.content| && Splits(pieces, file.content[|prefix|..file.position])
    ensures r == Err(CancelledByUser) <==> cancelAfter.Some? && cancelAfter.value <= |pieces|
    ensures r == Err(CancelledByUser) ==>
            cancelAfter == Some(|pieces|) && writer.sent == old(writer.sent) + DataFrames(pieces) + [CancelFrame()]
    ensures r != Err(CancelledByUser) ==>
            && file.position == |file.content|
            && r == (if |file.content| == fileSize then Ok(Unit.Unit)
               else Err(ProcessedWrongLength(fileSize, |file.content|)))
            && writer.sent == old(writer.sent) + DataFrames(pieces)
               + (if r.Ok? then [CompleteFrame(H(file.content))] else [])
  {
    hide Splits, DataFrames;
    var hasher := prefix;
    var bytesProcessed: nat := |prefix|;
    var sentPieces: nat := 0;
    pieces := [];
    NothingSplit();
    assert file.content[|prefix|..file.position] == [];
    while true
      invariant bytesProcessed == file.position == |hasher| <= |file.content|
      invariant |prefix| <= file.position && sentPieces == |pieces|
      invariant hasher == file.content[..file.position]
      invariant Splits(pieces, file.content[|prefix|..file.position])
      invariant writer.sent == old(writer.sent) + DataFrames(pieces)
      invariant cancelAfter.Some? ==> sentPieces <= cancelAfter.value
      decreases |file.content| - file.position
    {
      if cancelAfter == Some(sentPieces) {
        writer.WriteFrame(CancelFrame());
        return Err(CancelledByUser), pieces;
      }
      ghost var begin := file.position;
      var read := file.Read(MAX_DATA_PAYLOAD_LENGTH);
      if |read| == 0 {
        break;
      }
      hasher := hasher + read;
      SplitsAppend(pieces, file.content[|prefix|..begin], read);
      DataFramesAppend(pieces, read);
      Adjacent(file.content, |prefix|, begin, file.position);
      writer.WriteFrame(DataFrame(read));
      pieces := pieces + [read];
      bytesProcessed := bytesProcessed + |read|;
      sentPieces := sentPieces + 1;
    }
    assert file.content[..file.position] == file.content;
    if bytesProcessed != fileSize {
      r := Err(ProcessedWrongLength(fileSize, bytesProcessed));
    } else {
      writer.WriteFrame(CompleteFrame(H(hasher)));
      r := Ok(Unit.Unit);
    }
  }

  lemma {:induction false} NothingSplit()
    ensures Splits([], []) && DataFrames([]) == []
  {
  }

  lemma {:induction false} Adjacent(data: Bytes, a: nat, b: nat, c: nat)
    requires a <= b <= c <= |data|
    ensures data[a..b] + data[b..c] == data[a..c] && data[..b] + data[b..c] == data[..c]
  {
  }

  // ----- an honest transfer, whole or cut -----

  lemma {:induction false} SplitsPayload(pieces: seq<Bytes>, data: Bytes)
    requires Splits(pieces, data)
    ensures Payloads(DataFrames(pieces)) == data
    ensures Sendable(DataFrames(pieces), WFP_VERSION_V02)
    decreases |pieces|
  {
    if |pieces| > 0 {
      SplitsPayload(pieces[1..], data[|pieces[0]|..]);
      assert DataFrames(pieces)[1..] == DataFrames(pieces[1..]);
      assert data == pieces[0] + data[|pieces[0]|..];
    }
  }

  /** The pieces delivered before a cut extend the file by a prefix of what was left to send. */
  lemma {:induction false} HonestPieces(s: Incoming, source: Bytes, pieces: seq<Bytes>, n: nat)
    requires |source| < U64_LIMIT && InStep(s, |source|) && s.part <= source
    requires Splits(pieces, source[|s.part|..]) && n <= |pieces|
    ensures var r := TakeAll(s, |source|, DataFrames(pieces)[..n]);
            && r.Continuing? && InStep(r.state, |source|) && s.part <= r.state.part <= source
            && (n == |pieces| ==> r.state.part == source)
    decreases |pieces|
  {
    if n > 0 {
      var first := pieces[0];
      var t := Take(s, |source|, DataFrame(first)).state;
      var rest := source[|s.part|..];
      assert source == s.part + rest;
      PrefixGrows(s.part, source, first);
      assert source[|t.part|..] == rest[|first|..];
      HonestPieces(t, source, pieces[1..], n - 1);
      assert DataFrames(pieces)[..n][0] == DataFrame(first);
      assert DataFrames(pieces)[..n][1..] == DataFrames(pieces[1..])[..n - 1];
    } else {
      assert DataFrames(pieces)[..n] == [];
      if |pieces| == 0 {
        assert source == s.part + source[|s.part|..];
      }
    }
  }

  lemma {:induction false} PrefixGrows(part: Bytes, source: Bytes, piece: Bytes)
    requires part <= source && piece <= source[|part|..]
    ensures part + piece <= source
  {
  }

  lemma {:induction false} TakeAppend(s: Incoming, expectedSize: u64, a: seq<Frame>, b: seq<Frame>)
    ensures TakeAll(s, expectedSize, a + b) ==
            if TakeAll(s, expectedSize, a).Continuing? then TakeAll(TakeAll(s, expectedSize, a).state, expectedSize, b)
            else TakeAll(s, expectedSize, a)
    decreases |a|
  {
    hide Take;
    if |a| == 0 {
      assert a + b == b;
    } else {
      assert (a + b)[0] == a[0] && (a + b)[1..] == a[1..] + b;
      match Take(s, expectedSize, a[0])
      case Continuing(t) => TakeAppend(t, expectedSize, a[1..], b);
      case Broken(_, _) =>
      case Announced(_, _) =>
    }
  }

  /** A whole honest transfer from a prefix of the source settles with the source in the file. */
  lemma {:induction false} HonestWhole(H: HashFunction, s: Incoming, source: Bytes, pieces: seq<Bytes>)
    requires |source| < U64_LIMIT && InStep(s, |source|) && s.part <= source
    requires Splits(pieces, source[|s.part|..])
    ensures var r := TakeAll(s, |source|, DataFrames(pieces) + [CompleteFrame(H(source))]);
            && r.Announced? && r.state.part == source && InStep(r.state, |source|)
            && Settle(H, r.state, |source|, r.senderHash) == Ok(H(source))
  {
    hide Splits, DataFrames, TakeAll;
    HonestPieces(s, source, pieces, |pieces|);
    assert DataFrames(pieces)[..|pieces|] == DataFrames(pieces);
    TakeAppend(s, |source|, DataFrames(pieces), [CompleteFrame(H(source))]);
    TakeComplete(TakeAll(s, |source|, DataFrames(pieces)).state, |source|, H(source));
  }

  lemma {:induction false} TakeComplete(s: Incoming, expectedSize: u64, hash: Digest)
    ensures TakeAll(s, expectedSize, [CompleteFrame(hash)]) == Announced(s, hash)
  {
  }
}
