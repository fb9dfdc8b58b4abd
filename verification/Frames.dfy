/**
 * WFP frames and the byte streams they travel on (src/protocol/frame.rs, message.rs, encoder.rs, decoder.rs, io.rs).
 */
module Frames {
  import opened Prelude

  const WFP_MAGIC: Bytes := [0x57, 0x46, 0x50, 0x00]
  const WFP_VERSION_V02: byte := 2
  const WFP_VERSION_V03: byte := 3
  const HEADER_LENGTH: nat := 12
  const MAX_PAYLOAD_LENGTH: nat := 1024 * 1024
  const MAX_DATA_PAYLOAD_LENGTH: nat := 64 * 1024

  datatype MessageType =
    | Hello | HelloAck
    | Offer | Accept | Reject | Resume | Restart | ChunkHashes | ChunkStart
    | Data
    | Complete | Verified
    | Cancel
    | Discover | Announce
    | Error

  function WireValue(m: MessageType): byte {
    match m
    case Hello => 0x01
    case HelloAck => 0x02
    case Offer => 0x10
    case Accept => 0x11
    case Reject => 0x12
    case Resume => 0x13
    case Restart => 0x14
    case ChunkHashes => 0x15
    case ChunkStart => 0x16
    case Data => 0x20
    case Complete => 0x30
    case Verified => 0x31
    case Cancel => 0x40
    case Discover => 0x50
    case Announce => 0x51
    case Error => 0xFF
  }

  predicate AllowedInVersion(m: MessageType, version: byte) {
    if version == WFP_VERSION_V02 then m != ChunkHashes && m != ChunkStart
    else version == WFP_VERSION_V03
  }

  function FromWire(version: byte, value: byte): (r: Option<MessageType>)
    ensures forall m :: r == Some(m) <==> WireValue(m) == value && AllowedInVersion(m, version)
  {
    var known :=
      if value == 0x01 then Some(Hello)
      else if value == 0x02 then Some(HelloAck)
      else if value == 0x10 then Some(Offer)
      else if value == 0x11 then Some(Accept)
      else if value == 0x12 then Some(Reject)
      else if value == 0x13 then Some(Resume)
      else if value == 0x14 then Some(Restart)
      else if value == 0x15 then Some(ChunkHashes)
      else if value == 0x16 then Some(ChunkStart)
      else if value == 0x20 then Some(Data)
      else if value == 0x30 then Some(Complete)
      else if value == 0x31 then Some(Verified)
      else if value == 0x40 then Some(Cancel)
      else if value == 0x50 then Some(Discover)
      else if value == 0x51 then Some(Announce)
      else if value == 0xFF then Some(Error)
      else None;
    if known.Some? && AllowedInVersion(known.value, version) then known else None
  }

  predicate SupportedVersion(version: byte) {
    version == WFP_VERSION_V02 || version == WFP_VERSION_V03
  }

  datatype Frame = Frame(version: byte, messageType: MessageType, flags: u16, payload: Bytes)

  datatype EncodeError =
    | InvalidVersion(version: byte)
    | MessageTypeNotAllowed(version: byte, messageType: MessageType)
    | EncodePayloadTooLarge(length: nat)

  datatype DecodeError =
    | HeaderTooShort(length: nat)
    | InvalidMagic(magic: Bytes)
    | UnsupportedVersion(version: byte)
    | UnknownMessageType(value: byte)
    | UnsupportedFlags(flags: u16)
    | PayloadTooLarge(length: nat)
    | DataPayloadTooLarge(length: nat)
    | IncompleteFrame(expected: nat, actual: nat)
    | TrailingBytes(expected: nat, actual: nat)

  datatype ProtocolIoError = UnexpectedEof | Decode(decode: DecodeError) | Encode(encode: EncodeError)

  // ----- encoding -----

  predicate PayloadFits(m: MessageType, length: nat) {
    length <= MAX_PAYLOAD_LENGTH && (m == Data ==> length <= MAX_DATA_PAYLOAD_LENGTH)
  }

  predicate Encodable(f: Frame) {
    && SupportedVersion(f.version)
    && AllowedInVersion(f.messageType, f.version)
    && PayloadFits(f.messageType, |f.payload|)
  }

  function HeaderBytes(f: Frame): (h: Bytes)
    requires |f.payload| <= MAX_PAYLOAD_LENGTH
    ensures |h| == HEADER_LENGTH
  {
    WFP_MAGIC + [f.version] + [WireValue(f.messageType)] + PutU16(f.flags) + PutU32(|f.payload|)
  }

  /** The bytes an encodable frame has on the wire. */
  function FrameBytes(f: Frame): (b: Bytes)
    requires Encodable(f)
    ensures |b| == HEADER_LENGTH + |f.payload|
  {
    HeaderBytes(f) + f.payload
  }

  method EncodeFrame(f: Frame) returns (r: Result<Bytes, EncodeError>)
    ensures r.Ok? <==> Encodable(f)
    ensures r.Ok? ==> r.value == FrameBytes(f)
    ensures r.Err? ==> r.error ==
                       if !SupportedVersion(f.version) then InvalidVersion(f.version)
                       else if !AllowedInVersion(f.messageType, f.version)
                       then MessageTypeNotAllowed(f.version, f.messageType)
                       else EncodePayloadTooLarge(|f.payload|)
  {
    if !SupportedVersion(f.version) {
      return Err(InvalidVersion(f.version));
    }
    if !AllowedInVersion(f.messageType, f.version) {
      return Err(MessageTypeNotAllowed(f.version, f.messageType));
    }
    var payloadLength := |f.payload|;
    if f.messageType == Data && payloadLength > MAX_DATA_PAYLOAD_LENGTH {
      return Err(EncodePayloadTooLarge(payloadLength));
    }
    if payloadLength > MAX_PAYLOAD_LENGTH {
      return Err(EncodePayloadTooLarge(payloadLength));
    }
    var bytes: Bytes := [];
    bytes := bytes + WFP_MAGIC;
    bytes := bytes + [f.version];
    bytes := bytes + [WireValue(f.messageType)];
    bytes := bytes + PutU16(f.flags);
    bytes := bytes + PutU32(payloadLength);
    bytes := bytes + f.payload;
    return Ok(bytes);
  }

  // ----- decoding -----

  datatype FrameHeader = FrameHeader(version: byte, messageType: MessageType, flags: u16, payloadLength: nat)

  function ValidateHeader(bytes: Bytes, expectedVersion: byte): (r: Result<FrameHeader, DecodeError>)
    ensures r.Ok? ==> r.value.flags == 0 && r.value.version == expectedVersion
    ensures r.Ok? ==> PayloadFits(r.value.messageType, r.value.payloadLength)
  {
    if |bytes| < HEADER_LENGTH then Err(HeaderTooShort(|bytes|))
    else if !SupportedVersion(expectedVersion) then Err(UnsupportedVersion(expectedVersion))
    else if bytes[..4] != WFP_MAGIC then Err(InvalidMagic(bytes[..4]))
    else
      var version := bytes[4];
      if !SupportedVersion(version) || version != expectedVersion then Err(UnsupportedVersion(version))
      else
        match FromWire(version, bytes[5])
        case None => Err(UnknownMessageType(bytes[5]))
        case Some(messageType) =>
          var flags := GetU16(bytes[6..8]);
          var payloadLength := GetU32(bytes[8..12]);
          if flags != 0 then Err(UnsupportedFlags(flags))
          else if payloadLength > MAX_PAYLOAD_LENGTH then Err(PayloadTooLarge(payloadLength))
          else if messageType == Data && payloadLength > MAX_DATA_PAYLOAD_LENGTH
          then Err(DataPayloadTooLarge(payloadLength))
          else Ok(FrameHeader(version, messageType, flags, payloadLength))
  }

  function DecodeFrame(bytes: Bytes, version: byte): Result<Frame, DecodeError> {
    match ValidateHeader(bytes, version)
    case Err(e) => Err(e)
    case Ok(header) =>
      var expected := HEADER_LENGTH + header.payloadLength;
      if |bytes| < expected then Err(IncompleteFrame(expected, |bytes|))
      else if |bytes| > expected then Err(TrailingBytes(expected, |bytes|))
      else Ok(Frame(header.version, header.messageType, header.flags, bytes[HEADER_LENGTH..expected]))
  }

  /** A frame read from the front of a byte stream, and how many bytes it took. */
  datatype Parsed = Parsed(frame: Frame, used: nat)

  function ParseFrame(stream: Bytes, version: byte): (r: Result<Parsed, ProtocolIoError>)
    ensures r.Ok? ==> HEADER_LENGTH <= r.value.used <= |stream|
  {
    if |stream| < HEADER_LENGTH then Err(UnexpectedEof)
    else
      match ValidateHeader(stream[..HEADER_LENGTH], version)
      case Err(e) => Err(Decode(e))
      case Ok(header) =>
        var used := HEADER_LENGTH + header.payloadLength;
        if |stream| < used then Err(UnexpectedEof)
        else
          match DecodeFrame(stream[..used], version)
          case Err(e) => Err(Decode(e))
          case Ok(frame) => Ok(Parsed(frame, used))
  }

  /** The receiving end of a connection: the bytes that will still arrive before it closes. */
  class ByteStream {
    var pending: Bytes

    constructor (pending: Bytes)
      ensures this.pending == pending
    {
      this.pending := pending;
    }

    method ReadExact(n: nat) returns (r: Option<Bytes>)
      modifies this
      ensures r.Some? <==> n <= |old(pending)|
      ensures r.Some? ==> r.value == old(pending)[..n] && pending == old(pending)[n..]
    {
      if |pending| < n {
        pending := [];
        return None;
      }
      r := Some(pending[..n]);
      pending := pending[n..];
    }
  }

  method ReadFrameForVersion(reader: ByteStream, version: byte) returns (r: Result<Frame, ProtocolIoError>)
    modifies reader
    ensures match ParseFrame(old(reader.pending), version)
            case Err(e) => r == Err(e)
            case Ok(p) => r == Ok(p.frame) && reader.pending == old(reader.pending)[p.used..]
  {
    ghost var before := reader.pending;
    var header := reader.ReadExact(HEADER_LENGTH);
    if header.None? {
      return Err(UnexpectedEof);
    }
    var frameHeader := ValidateHeader(header.value, version);
    if frameHeader.Err? {
      return Err(Decode(frameHeader.error));
    }
    var bytes: Bytes := header.value;
    if frameHeader.value.payloadLength > 0 {
      var payload := reader.ReadExact(frameHeader.value.payloadLength);
      if payload.None? {
        return Err(UnexpectedEof);
      }
      bytes := bytes + payload.value;
    }
    assert bytes == before[..HEADER_LENGTH + frameHeader.value.payloadLength];
    var frame := DecodeFrame(bytes, version);
    return if frame.Ok? then Ok(frame.value) else Err(Decode(frame.error));
  }

  // ----- print and parse are inverse -----

  lemma {:induction false} HeaderFields(f: Frame, rest: Bytes)
    requires |f.payload| <= MAX_PAYLOAD_LENGTH
    ensures var b := HeaderBytes(f) + rest;
            && b[..4] == WFP_MAGIC && b[4] == f.version && b[5] == WireValue(f.messageType)
            && b[6..8] == PutU16(f.flags) && b[8..12] == PutU32(|f.payload|)
  {
  }

  lemma {:induction false} ValidatePrinted(f: Frame, rest: Bytes)
    requires Encodable(f) && f.flags == 0
    ensures ValidateHeader(HeaderBytes(f) + rest, f.version) ==
            Ok(FrameHeader(f.version, f.messageType, 0, |f.payload|))
  {
    HeaderFields(f, rest);
    PutU16Injective(GetU16(PutU16(f.flags)), f.flags);
    PutU32Injective(GetU32(PutU32(|f.payload|)), |f.payload|);
  }

  lemma {:induction false} PutU16Injective(a: u16, b: u16)
    requires PutU16(a) == PutU16(b)
    ensures a == b
  {
  }

  lemma {:induction false} PutU32Injective(a: u32, b: u32)
    requires PutU32(a) == PutU32(b)
    ensures a == b
  {
  }

  /** Reading consumes exactly the bytes of a printed frame and yields it back, whatever follows. */
  lemma {:induction false} ParsePrinted(f: Frame, rest: Bytes)
    requires Encodable(f) && f.flags == 0
    ensures ParseFrame(FrameBytes(f) + rest, f.version) == Ok(Parsed(f, |FrameBytes(f)|))
  {
    var stream := FrameBytes(f) + rest;
    assert stream[..HEADER_LENGTH] == HeaderBytes(f) + [];
    ValidatePrinted(f, []);
    assert stream[..|FrameBytes(f)|] == HeaderBytes(f) + f.payload;
    ValidatePrinted(f, f.payload);
    assert stream[..|FrameBytes(f)|][HEADER_LENGTH..|FrameBytes(f)|] == f.payload;
  }

  /** A frame cut short anywhere is read as the end of the stream. */
  lemma {:induction false} ParseCut(f: Frame, k: nat)
    requires Encodable(f) && f.flags == 0
    requires k < |FrameBytes(f)|
    ensures ParseFrame(FrameBytes(f)[..k], f.version) == Err(UnexpectedEof)
  {
    if k >= HEADER_LENGTH {
      assert FrameBytes(f)[..k][..HEADER_LENGTH] == HeaderBytes(f) + [];
      ValidatePrinted(f, []);
    }
  }

  /** Whatever is accepted re-encodes to the bytes that were read. */
  lemma {:induction false} PrintParsed(stream: Bytes, version: byte)
    requires ParseFrame(stream, version).Ok?
    ensures var p := ParseFrame(stream, version).value;
            && Encodable(p.frame) && p.frame.flags == 0 && p.frame.version == version
            && FrameBytes(p.frame) == stream[..p.used]
  {
    var p := ParseFrame(stream, version).value;
    var b := stream[..p.used];
    assert b[..HEADER_LENGTH] == stream[..HEADER_LENGTH];
    assert b[6..8] == stream[..HEADER_LENGTH][6..8];
    assert b[8..12] == stream[..HEADER_LENGTH][8..12];
    assert b[..4] == stream[..HEADER_LENGTH][..4];
    assert b == b[..4] + [b[4]] + [b[5]] + b[6..8] + b[8..12] + b[12..];
  }

  // ----- streams of frames -----

  ghost predicate Sendable(frames: seq<Frame>, version: byte) {
    forall i :: 0 <= i < |frames| ==> Encodable(frames[i]) && frames[i].flags == 0 && frames[i].version == version
  }

  /** The bytes of a list of frames written one after the other. */
  function StreamBytes(frames: seq<Frame>): Bytes
    requires forall i :: 0 <= i < |frames| ==> Encodable(frames[i])
  {
    if |frames| == 0 then [] else FrameBytes(frames[0]) + StreamBytes(frames[1..])
  }

  /** Everything a reader gets from a stream: whole frames, then the error that ends it. */
  function ParseStream(stream: Bytes, version: byte): (r: (seq<Frame>, ProtocolIoError))
    decreases |stream|
  {
    match ParseFrame(stream, version)
    case Err(e) => ([], e)
    case Ok(p) =>
      var (frames, e) := ParseStream(stream[p.used..], version);
      ([p.frame] + frames, e)
  }

  /** The number of whole frames in the first `k` bytes of a printed list. */
  function WholeFrames(frames: seq<Frame>, k: nat): (n: nat)
    requires forall i :: 0 <= i < |frames| ==> Encodable(frames[i])
    ensures n <= |frames|
    ensures k >= |StreamBytes(frames)| ==> n == |frames|
    decreases |frames|
  {
    if |frames| == 0 || k < |FrameBytes(frames[0])| then 0
    else 1 + WholeFrames(frames[1..], k - |FrameBytes(frames[0])|)
  }

  lemma {:induction false} ParseStreamStep(f: Frame, rest: Bytes)
    requires Encodable(f) && f.flags == 0
    ensures ParseStream(FrameBytes(f) + rest, f.version) ==
            ([f] + ParseStream(rest, f.version).0, ParseStream(rest, f.version).1)
  {
    ParsePrinted(f, rest);
    assert (FrameBytes(f) + rest)[|FrameBytes(f)|..] == rest;
  }

  /** Cutting a printed list after any byte delivers a prefix of the frames and then the end of the stream. */
  lemma {:induction false} ParseCutStream(frames: seq<Frame>, version: byte, k: nat)
    requires Sendable(frames, version) && k <= |StreamBytes(frames)|
    ensures ParseStream(StreamBytes(frames)[..k], version) == (frames[..WholeFrames(frames, k)], UnexpectedEof)
    decreases |frames|
  {
    hide FrameBytes, ParseFrame;
    ParseEmpty(version);
    if |frames| == 0 {
    } else {
      var first := FrameBytes(frames[0]);
      var tail := StreamBytes(frames[1..]);
      if k < |first| {
        assert (first + tail)[..k] == first[..k];
        ParseCut(frames[0], k);
      } else {
        var left := k - |first|;
        CutAfter(first, tail, k);
        ParseStreamStep(frames[0], tail[..left]);
        ParseCutStream(frames[1..], version, left);
        assert frames[..WholeFrames(frames, k)] == [frames[0]] + frames[1..][..WholeFrames(frames[1..], left)];
      }
    }
  }

  lemma {:induction false} ParseEmpty(version: byte)
    ensures ParseFrame([], version) == Err(UnexpectedEof)
  {
  }

  lemma {:induction false} CutAfter(first: Bytes, tail: Bytes, k: nat)
    requires |first| <= k <= |first| + |tail|
    ensures (first + tail)[..k] == first + tail[..k - |first|]
  {
  }

  /** Reading a whole printed list yields that list back. */
  lemma {:induction false} ParsePrintedStream(frames: seq<Frame>, version: byte)
    requires Sendable(frames, version)
    ensures ParseStream(StreamBytes(frames), version) == (frames, UnexpectedEof)
  {
    ParseCutStream(frames, version, |StreamBytes(frames)|);
    assert StreamBytes(frames)[..|StreamBytes(frames)|] == StreamBytes(frames);
    assert frames[..|frames|] == frames;
  }

  /** Whatever frames a reader accepts, they re-encode to the bytes it consumed. */
  lemma {:induction false} PrintParsedStream(stream: Bytes, version: byte)
    ensures var (frames, _) := ParseStream(stream, version);
            Sendable(frames, version) && StreamBytes(frames) <= stream
    decreases |stream|
  {
    hide FrameBytes, ParseFrame;
    match ParseFrame(stream, version)
    case Err(_) =>
    case Ok(p) =>
      PrintParsed(stream, version);
      PrintParsedStream(stream[p.used..], version);
      var (frames, _) := ParseStream(stream[p.used..], version);
      assert ([p.frame] + frames)[1..] == frames;
      assert stream == stream[..p.used] + stream[p.used..];
  }

  lemma {:induction false} StreamBytesAppend(a: seq<Frame>, b: seq<Frame>)
    requires forall i :: 0 <= i < |a| ==> Encodable(a[i])
    requires forall i :: 0 <= i < |b| ==> Encodable(b[i])
    ensures StreamBytes(a + b) == StreamBytes(a) + StreamBytes(b)
    decreases |a|
  {
    hide FrameBytes;
    if |a| == 0 {
      assert a + b == b;
    } else {
      assert (a + b)[1..] == a[1..] + b;
      StreamBytesAppend(a[1..], b);
    }
  }

  /** A frame at the front of a stream is read alike whatever arrives later. */
  lemma {:induction false} ParseStable(stream: Bytes, more: Bytes, version: byte)
    requires ParseFrame(stream, version).Ok?
    ensures ParseFrame(stream + more, version) == ParseFrame(stream, version)
    ensures (stream + more)[ParseFrame(stream, version).value.used..] ==
            stream[ParseFrame(stream, version).value.used..] + more
  {
    hide ValidateHeader, DecodeFrame;
    var used := ParseFrame(stream, version).value.used;
    assert (stream + more)[..HEADER_LENGTH] == stream[..HEADER_LENGTH];
    assert (stream + more)[..used] == stream[..used];
  }

  /** A reader finds a frame at the front of a stream exactly when the stream begins with that frame's bytes. */
  lemma {:induction false} FrontFrame(f: Frame, stream: Bytes)
    requires Encodable(f) && f.flags == 0
    ensures ParseFrame(stream, f.version).Ok? && ParseFrame(stream, f.version).value.frame == f <==>
            FrameBytes(f) <= stream
    ensures FrameBytes(f) <= stream ==> ParseFrame(stream, f.version) == Ok(Parsed(f, |FrameBytes(f)|))
    ensures ParseFrame(stream, f.version).Ok? ==>
              var p := ParseFrame(stream, f.version).value.frame; p.flags == 0 && p.version == f.version
  {
    hide ParseFrame, FrameBytes, Encodable;
    if FrameBytes(f) <= stream {
      assert stream == FrameBytes(f) + stream[|FrameBytes(f)|..];
      ParsePrinted(f, stream[|FrameBytes(f)|..]);
    }
    if ParseFrame(stream, f.version).Ok? {
      PrintParsed(stream, f.version);
    }
  }
}
