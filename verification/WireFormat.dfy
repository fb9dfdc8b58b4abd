/**
 * The wire format, byte by byte, as the protocol documents lay it out: what an implementation that shares no code with
 * this one would write and accept (docs/PROTOCOL.md, docs/PROTOCOL_V03.md).
 */
module WireFormat {
  import opened Prelude
  import opened ChunkState
  import opened Frames
  import opened PayloadsV03
  import PrefixV02
  import SessionsV02
  import SenderV03
  import SessionV03
  import EndpointsV03

  // ----- numbers in network byte order -----

  /** Two, four and eight bytes as a number; the first byte is the most significant one. */
  function Two(b: Bytes): nat
    requires |b| == 2
  {
    b[0] as nat * 0x100 + b[1] as nat
  }

  function Four(b: Bytes): nat
    requires |b| == 4
  {
    Two(b[..2]) * 0x1_0000 + Two(b[2..])
  }

  function Eight(b: Bytes): nat
    requires |b| == 8
  {
    Four(b[..4]) * 0x1_0000_0000 + Four(b[4..])
  }

  lemma {:induction false} DecodedTwo(b: Bytes, c: byte, d: byte)
    ensures FromBigEndian(b + [c, d]) == FromBigEndian(b) * 0x1_0000 + Two([c, d])
  {
    var e := b + [c, d];
    assert e[..|e| - 1] == b + [c] && (b + [c])[..|b|] == b;
  }

  lemma {:induction false} DecodedFour(b: Bytes, c: Bytes)
    requires |c| == 4
    ensures FromBigEndian(b + c) == FromBigEndian(b) * 0x1_0000_0000 + Four(c)
  {
    DecodedTwo(b, c[0], c[1]);
    DecodedTwo(b + [c[0], c[1]], c[2], c[3]);
    assert c[..2] == [c[0], c[1]] && c[2..] == [c[2], c[3]];
    assert (b + [c[0], c[1]]) + [c[2], c[3]] == b + c;
  }

  /** The decoder reads numbers in network byte order. */
  lemma {:induction false} DecodedNumber(b: Bytes)
    ensures |b| == 2 ==> FromBigEndian(b) == Two(b)
    ensures |b| == 4 ==> FromBigEndian(b) == Four(b)
    ensures |b| == 8 ==> FromBigEndian(b) == Eight(b)
  {
    assert FromBigEndian([]) == 0;
    if |b| == 2 {
      DecodedTwo([], b[0], b[1]);
      assert [] + [b[0], b[1]] == b && [b[0], b[1]] == b;
    } else if |b| == 4 {
      DecodedFour([], b);
      assert [] + b == b;
    } else if |b| == 8 {
      DecodedFour([], b[..4]);
      DecodedFour(b[..4], b[4..]);
      assert [] + b[..4] == b[..4] && b[..4] + b[4..] == b;
    }
  }

  /** Every number goes over the wire with its most significant byte first. */
  lemma {:induction false} PutNumbers(x: u16, y: u32, z: u64)
    ensures Two(PutU16(x)) == x && Four(PutU32(y)) == y && Eight(PutU64(z)) == z
  {
    hide Two, Four, Eight, FromBigEndian;
    DecodedNumber(PutU16(x));
    DecodedNumber(PutU32(y));
    DecodedNumber(PutU64(z));
  }

  // ----- frames -----

  /** Twelve header bytes and the payload: magic, version, type, flags, length. */
  ghost predicate IsFrame(b: Bytes, f: Frame) {
    && |b| == 12 + |f.payload|
    && b[..4] == [0x57, 0x46, 0x50, 0x00]
    && b[4] == f.version && b[5] == WireValue(f.messageType)
    && Two(b[6..8]) == f.flags && Four(b[8..12]) == |f.payload|
    && b[12..] == f.payload
  }

  lemma {:induction false} FrameLayout(f: Frame)
    requires Encodable(f)
    ensures IsFrame(FrameBytes(f), f)
  {
    hide Two, Four, PutU16, PutU32;
    HeaderFields(f, f.payload);
    PutNumbers(f.flags, |f.payload|, 0);
  }

  /** The type bytes of both protocol versions. */
  lemma {:induction false} TypeBytes()
    ensures WireValue(Hello) == 0x01 && WireValue(HelloAck) == 0x02
    ensures WireValue(Offer) == 0x10 && WireValue(Accept) == 0x11 && WireValue(Reject) == 0x12
    ensures WireValue(Resume) == 0x13 && WireValue(Restart) == 0x14
    ensures WireValue(ChunkHashes) == 0x15 && WireValue(ChunkStart) == 0x16
    ensures WireValue(Data) == 0x20 && WireValue(Complete) == 0x30 && WireValue(Verified) == 0x31
    ensures WireValue(Cancel) == 0x40 && WireValue(Discover) == 0x50 && WireValue(Announce) == 0x51
    ensures WireValue(Error) == 0xFF
  {
  }

  /** What may be sent: a type of the version, at most 1 MiB of payload, at most 64 KiB of it in DATA. */
  lemma {:induction false} SendableFrames(f: Frame)
    ensures Encodable(f) <==>
            && (f.version == 2 || f.version == 3)
            && (f.version == 2 ==> WireValue(f.messageType) != 0x15 && WireValue(f.messageType) != 0x16)
            && |f.payload| <= 1048576 && (WireValue(f.messageType) == 0x20 ==> |f.payload| <= 65536)
  {
  }

  /** A reader accepts exactly a sendable frame with zero flags at the front of what it has. */
  lemma {:induction false} AcceptedFrames(stream: Bytes, f: Frame)
    requires SupportedVersion(f.version)
    ensures ParseFrame(stream, f.version).Ok? && ParseFrame(stream, f.version).value.frame == f <==>
            Encodable(f) && f.flags == 0 && FrameBytes(f) <= stream
  {
    hide ParseFrame, FrameBytes, Encodable;
    if Encodable(f) && f.flags == 0 {
      FrontFrame(f, stream);
    }
    if ParseFrame(stream, f.version).Ok? {
      PrintParsed(stream, f.version);
    }
  }

  lemma {:induction false} SameHeader(b: Bytes, header: Bytes, version: byte)
    requires |header| == HEADER_LENGTH && header <= b
    requires ValidateHeader(header, version).Ok?
    ensures ValidateHeader(b, version) == ValidateHeader(header, version)
  {
    assert b[..4] == header[..4] && b[6..8] == header[6..8] && b[8..12] == header[8..12];
  }

  lemma {:induction false} ShortOfLength(stream: Bytes, version: byte)
    requires |stream| >= HEADER_LENGTH && ParseFrame(stream, version) == Err(UnexpectedEof)
    ensures exists more :: ParseFrame(stream + more, version).Ok?
  {
    hide ValidateHeader;
    var first := stream[..HEADER_LENGTH];
    var length := ValidateHeader(first, version).value.payloadLength;
    var more := Zeros(HEADER_LENGTH + length - |stream|);
    var whole := stream + more;
    assert whole[..HEADER_LENGTH] == first && whole[..HEADER_LENGTH + length] == whole;
    SameHeader(whole, first, version);
  }

  /** Bytes that begin an acceptable frame are a frame already or not yet enough of one. */
  lemma {:induction false} BeginningOfFrame(stream: Bytes, more: Bytes, version: byte)
    requires |stream| >= HEADER_LENGTH && ParseFrame(stream + more, version).Ok?
    ensures ParseFrame(stream, version).Ok? || ParseFrame(stream, version) == Err(UnexpectedEof)
  {
    hide ValidateHeader, DecodeFrame;
    var used := ParseFrame(stream + more, version).value.used;
    assert (stream + more)[..HEADER_LENGTH] == stream[..HEADER_LENGTH];
    if |stream| >= used {
      assert (stream + more)[..used] == stream[..used];
    }
  }

  /** The end of the stream is reported exactly while more bytes could still make a frame, or even a header. */
  lemma {:induction false} EndedFrames(stream: Bytes, version: byte)
    ensures ParseFrame(stream, version) == Err(UnexpectedEof) <==>
            || |stream| < 12
            || (ParseFrame(stream, version).Err? && exists more :: ParseFrame(stream + more, version).Ok?)
  {
    if |stream| < 12 {
    } else {
      hide ParseFrame;
      if ParseFrame(stream, version) == Err(UnexpectedEof) {
        ShortOfLength(stream, version);
      }
      if more :| ParseFrame(stream + more, version).Ok? {
        BeginningOfFrame(stream, more, version);
      }
    }
  }

  ghost predicate IsSentAs(f: Frame, g: Frame) {
    Encodable(f) && IsFrame(FrameBytes(f), g)
  }

  /** The frames a WFP/0.2 sender writes after OFFER. */
  lemma {:induction false} FramesOfV02(hash: Digest, piece: Bytes)
    requires |piece| <= 65536
    ensures IsSentAs(SessionsV02.AcceptFrame(), Frame(2, Accept, 0, []))
    ensures IsSentAs(SessionsV02.RestartFrame(), Frame(2, Restart, 0, []))
    ensures IsSentAs(PrefixV02.DataFrame(piece), Frame(2, Data, 0, piece))
    ensures IsSentAs(PrefixV02.CompleteFrame(hash), Frame(2, Complete, 0, hash))
    ensures IsSentAs(PrefixV02.CancelFrame(), Frame(2, Cancel, 0, []))
  {
    hide IsFrame, FrameBytes;
    FrameLayout(SessionsV02.AcceptFrame());
    FrameLayout(SessionsV02.RestartFrame());
    FrameLayout(PrefixV02.DataFrame(piece));
    FrameLayout(PrefixV02.CompleteFrame(hash));
    FrameLayout(PrefixV02.CancelFrame());
  }

  /** The WFP/0.3 frames whose payload is empty or a hash. */
  lemma {:induction false} FramesOfV03(hash: Digest)
    ensures IsSentAs(SessionV03.AcceptFrame(), Frame(3, Accept, 0, []))
    ensures IsSentAs(SenderV03.CompleteFrame(hash), Frame(3, Complete, 0, hash))
    ensures IsSentAs(EndpointsV03.VerifiedFrame(), Frame(3, Verified, 0, []))
  {
    hide IsFrame, FrameBytes;
    FrameLayout(SessionV03.AcceptFrame());
    FrameLayout(SenderV03.CompleteFrame(hash));
    FrameLayout(EndpointsV03.VerifiedFrame());
  }

  // ----- payloads of WFP/0.3 -----

  /** OFFER: identifier, name length, name, file size, chunk size. */
  lemma {:induction false} OfferLayout(o: FileOffer)
    requires 0 < |o.filename| < 65536 && o.chunkSize > 0
    ensures EncodableOffer(o)
    ensures var p, n := OfferBytes(o), |o.filename|;
            && |p| == 34 + n && p[..16] == o.transferId && Two(p[16..18]) == n && p[18..18 + n] == o.filename
            && Eight(p[18 + n..26 + n]) == o.fileSize && Eight(p[26 + n..]) == o.chunkSize
  {
    hide OfferBytes, Two, Eight, PutU16, PutU64;
    OfferFields(o);
    PutNumbers(|o.filename|, 0, o.fileSize);
    PutNumbers(0, 0, o.chunkSize);
  }

  /** A record is its index and the hash, in forty bytes. */
  ghost predicate IsRecord(b: Bytes, index: u64, hash: Digest) {
    |b| == 40 && Eight(b[..8]) == index && b[8..] == hash
  }

  lemma {:induction false} RecordLayout(r: RecordedChunk)
    ensures IsRecord(RecordBytes(r), r.index, r.hash) && IsRecord(ChunkStartBytes(r.index, r.hash), r.index, r.hash)
  {
    hide Eight, PutU64;
    PutNumbers(0, 0, r.index);
    assert RecordBytes(r)[..8] == PutU64(r.index);
  }

  lemma {:induction false} RecordAt(records: seq<RecordedChunk>, i: nat)
    requires i < |records|
    ensures RecordsBytes(records)[40 * i..40 * (i + 1)] == RecordBytes(records[i])
    decreases |records|
  {
    hide RecordBytes;
    var n := |records| - 1;
    var head := RecordsBytes(records[..n]);
    if i < n {
      RecordAt(records[..n], i);
      assert RecordsBytes(records)[40 * i..40 * (i + 1)] == head[40 * i..40 * (i + 1)];
    }
  }

  lemma {:induction false} BatchParts(records: seq<RecordedChunk>)
    requires EncodableBatch(records)
    ensures BatchBytes(records)[..4] == PutU32(|records|) && BatchBytes(records)[4..] == RecordsBytes(records)
  {
    hide PutU32, RecordsBytes;
  }

  lemma {:induction false} SliceAfter(p: Bytes, n: nat, lo: nat, hi: nat)
    requires n <= |p| && lo <= hi <= |p| - n
    ensures p[n + lo..n + hi] == p[n..][lo..hi]
  {
  }

  lemma {:induction false} BatchRecord(records: seq<RecordedChunk>, i: nat)
    requires EncodableBatch(records) && i < |records|
    ensures BatchBytes(records)[4 + 40 * i..44 + 40 * i] == RecordBytes(records[i])
  {
    hide PutU32, RecordBytes, RecordsBytes, BatchBytes;
    RecordAt(records, i);
    BatchParts(records);
    SliceAfter(BatchBytes(records), 4, 40 * i, 40 * (i + 1));
  }

  /** CHUNK_HASHES: the number of records and the records one after the other. */
  lemma {:induction false} BatchLayout(records: seq<RecordedChunk>, i: nat)
    requires 40 * |records| + 4 <= 1048576 && i < |records|
    ensures EncodableBatch(records)
    ensures var p := BatchBytes(records);
            && |p| == 4 + 40 * |records| && Four(p[..4]) == |records|
            && IsRecord(p[4 + 40 * i..44 + 40 * i], records[i].index, records[i].hash)
  {
    hide Four, PutU32, IsRecord, RecordBytes, RecordsBytes, BatchBytes;
    PutNumbers(0, |records|, 0);
    RecordLayout(records[i]);
    BatchParts(records);
    BatchRecord(records, i);
  }

  /** RESUME: the number of records alone. DATA: an absolute offset and from 1 to 65528 bytes. */
  lemma {:induction false} NumberLayouts(count: u64, d: DataFragment)
    requires 0 < |d.data| <= 65528
    ensures |ResumeBytes(count)| == 8 && Eight(ResumeBytes(count)) == count
    ensures EncodableData(d) && |DataBytes(d)| == 8 + |d.data|
    ensures Eight(DataBytes(d)[..8]) == d.absoluteOffset && DataBytes(d)[8..] == d.data
  {
    hide Eight, PutU64;
    PutNumbers(0, 0, count);
    PutNumbers(0, 0, d.absoluteOffset);
    assert DataBytes(d)[..8] == PutU64(d.absoluteOffset);
  }

  /** Payloads that must be refused: what no offer, batch, record or fragment is encoded as. */
  lemma {:induction false} RefusedPayloads(p: Bytes)
    ensures DecodeResume(p).Some? <==> |p| == 8
    ensures DecodeChunkStart(p).Some? <==> |p| == 40
    ensures DecodeData(p).Ok? <==> 8 < |p| <= 65536
    ensures DecodeBatch(p).Ok? <==> 4 <= |p| <= 1048576 && |p| == 4 + 40 * Four(p[..4])
  {
    hide Four, DecodeRecords;
    if |p| >= 4 {
      DecodedNumber(p[..4]);
    }
  }
}
