/** Payload codecs of WFP/0.3 (src/protocol/v03.rs). */
module PayloadsV03 {
  import opened Prelude
  import opened Frames
  import opened ChunkState

  const TRANSFER_ID_LENGTH: nat := 16
  const CHUNK_HASH_RECORD_LENGTH: nat := 40
  const DATA_OFFSET_LENGTH: nat := 8
  const MAX_DATA_BYTES: nat := MAX_DATA_PAYLOAD_LENGTH - DATA_OFFSET_LENGTH

  // ----- UTF-8 -----

  predicate Continuation(b: byte) {
    0x80 <= b <= 0xBF
  }

  /** The length of the well-formed UTF-8 sequence at the front of `b`, or 0 (table 3-7 of the Unicode standard). */
  function Utf8Width(b: Bytes): (n: nat)
    ensures n <= |b| && n <= 4
  {
    if |b| >= 1 && b[0] <= 0x7F then 1
    else if |b| >= 2 && 0xC2 <= b[0] <= 0xDF && Continuation(b[1]) then 2
    else if |b| >= 3 && 0xE0 <= b[0] <= 0xEF && Continuation(b[1]) && Continuation(b[2]) &&
            (b[0] == 0xE0 ==> b[1] >= 0xA0) && (b[0] == 0xED ==> b[1] <= 0x9F) then 3
    else if |b| >= 4 && 0xF0 <= b[0] <= 0xF4 && Continuation(b[1]) && Continuation(b[2]) && Continuation(b[3]) &&
            (b[0] == 0xF0 ==> b[1] >= 0x90) && (b[0] == 0xF4 ==> b[1] <= 0x8F) then 4
    else 0
  }

  predicate ValidUtf8(b: Bytes) {
    |b| == 0 || (Utf8Width(b) > 0 && ValidUtf8(b[Utf8Width(b)..]))
  }

  // ----- OFFER -----

  type TransferId = t: Bytes | |t| == TRANSFER_ID_LENGTH witness seq(TRANSFER_ID_LENGTH, _ => 0)

  /** The file name is kept as its UTF-8 bytes. */
  datatype FileOffer = FileOffer(transferId: TransferId, filename: Bytes, fileSize: u64, chunkSize: u64)

  datatype OfferError =
    | FilenameEmpty
    | FilenameTooLong(length: nat)
    | InvalidUtf8
    | InvalidOfferLength
    | ZeroChunkSizeOffered

  predicate EncodableOffer(o: FileOffer) {
    0 < |o.filename| < 0x1_0000 && o.chunkSize != 0
  }

  function OfferBytes(o: FileOffer): Bytes
    requires EncodableOffer(o)
  {
    o.transferId + PutU16(|o.filename|) + o.filename + PutU64(o.fileSize) + PutU64(o.chunkSize)
  }

  method EncodeOffer(o: FileOffer) returns (r: Result<Bytes, OfferError>)
    ensures r.Ok? <==> EncodableOffer(o)
    ensures r.Ok? ==> r.value == OfferBytes(o)
    ensures r.Err? ==> r.error == if |o.filename| == 0 then FilenameEmpty
                                  else if |o.filename| >= 0x1_0000 then FilenameTooLong(|o.filename|)
                                  else ZeroChunkSizeOffered
  {
    if |o.filename| == 0 {
      return Err(FilenameEmpty);
    }
    if |o.filename| >= 0x1_0000 {
      return Err(FilenameTooLong(|o.filename|));
    }
    if o.chunkSize == 0 {
      return Err(ZeroChunkSizeOffered);
    }
    var payload: Bytes := o.transferId;
    payload := payload + PutU16(|o.filename|);
    payload := payload + o.filename;
    payload := payload + PutU64(o.fileSize);
    payload := payload + PutU64(o.chunkSize);
    return Ok(payload);
  }

  function DecodeOffer(payload: Bytes): Result<FileOffer, OfferError> {
    if |payload| < TRANSFER_ID_LENGTH + 2 + 16 then Err(InvalidOfferLength)
    else
      var filenameLength := GetU16(payload[16..18]);
      if filenameLength == 0 then Err(FilenameEmpty)
      else
        var filenameEnd := 18 + filenameLength;
        if |payload| != filenameEnd + 16 then Err(InvalidOfferLength)
        else
          var filename := payload[18..filenameEnd];
          var fileSize := GetU64(payload[filenameEnd..filenameEnd + 8]);
          var chunkSize := GetU64(payload[filenameEnd + 8..]);
          if !ValidUtf8(filename) then Err(InvalidUtf8)
          else if chunkSize == 0 then Err(ZeroChunkSizeOffered)
          else Ok(FileOffer(payload[..16], filename, fileSize, chunkSize))
  }

  lemma {:induction false} OfferFields(o: FileOffer)
    requires EncodableOffer(o)
    ensures var p, n := OfferBytes(o), |o.filename|;
            && |p| == 34 + n && p[..16] == o.transferId && p[16..18] == PutU16(n) && p[18..18 + n] == o.filename
            && p[18 + n..26 + n] == PutU64(o.fileSize) && p[26 + n..] == PutU64(o.chunkSize)
  {
  }

  /** An offer with a valid file name survives the wire. */
  lemma {:induction false} OfferRoundTrip(o: FileOffer)
    requires EncodableOffer(o) && ValidUtf8(o.filename)
    ensures DecodeOffer(OfferBytes(o)) == Ok(o)
  {
    hide OfferBytes, ValidUtf8, PutU16, PutU64, GetU16, GetU64;
    OfferFields(o);
    GetPut16(|o.filename|);
    GetPut64(o.fileSize);
    GetPut64(o.chunkSize);
  }

  lemma {:induction false} OfferReencodes(p: Bytes)
    requires DecodeOffer(p).Ok?
    ensures EncodableOffer(DecodeOffer(p).value) && ValidUtf8(DecodeOffer(p).value.filename)
    ensures OfferBytes(DecodeOffer(p).value) == p
  {
    hide ValidUtf8;
    var n := GetU16(p[16..18]);
    assert p == p[..16] + p[16..18] + p[18..18 + n] + p[18 + n..26 + n] + p[26 + n..];
  }

  lemma {:induction false} GetPut16(x: u16)
    ensures GetU16(PutU16(x)) == x
  {
  }

  lemma {:induction false} GetPut32(x: u32)
    ensures GetU32(PutU32(x)) == x
  {
  }

  lemma {:induction false} GetPut64(x: u64)
    ensures GetU64(PutU64(x)) == x
  {
  }

  // ----- RESUME -----

  function ResumeBytes(recordCount: u64): Bytes {
    PutU64(recordCount)
  }

  /** `None` stands for a payload that is not exactly eight bytes long. */
  function DecodeResume(payload: Bytes): Option<u64> {
    if |payload| != 8 then None else Some(GetU64(payload))
  }

  lemma {:induction false} ResumeRoundTrip(n: u64)
    ensures DecodeResume(ResumeBytes(n)) == Some(n)
  {
  }

  lemma {:induction false} ResumeReencodes(p: Bytes)
    requires DecodeResume(p).Some?
    ensures ResumeBytes(DecodeResume(p).value) == p
  {
  }

  // ----- records: CHUNK_HASHES and CHUNK_START -----

  function RecordBytes(r: RecordedChunk): (b: Bytes)
    ensures |b| == CHUNK_HASH_RECORD_LENGTH
  {
    PutU64(r.index) + r.hash
  }

  function DecodeRecord(b: Bytes): RecordedChunk
    requires |b| == CHUNK_HASH_RECORD_LENGTH
  {
    RecordedChunk(GetU64(b[..8]), b[8..])
  }

  lemma {:induction false} RecordRoundTrip(r: RecordedChunk)
    ensures DecodeRecord(RecordBytes(r)) == r
  {
  }

  lemma {:induction false} RecordReencodes(b: Bytes)
    requires |b| == CHUNK_HASH_RECORD_LENGTH
    ensures RecordBytes(DecodeRecord(b)) == b
  {
  }

  datatype ChunkHashesError = RecordCountTooLarge(count: nat) | HashesPayloadTooLarge(length: nat) | InvalidHashesLength

  function RecordsBytes(records: seq<RecordedChunk>): (b: Bytes)
    ensures |b| == CHUNK_HASH_RECORD_LENGTH * |records|
  {
    if |records| == 0 then [] else RecordsBytes(records[..|records| - 1]) + RecordBytes(records[|records| - 1])
  }

  predicate EncodableBatch(records: seq<RecordedChunk>) {
    CHUNK_HASH_RECORD_LENGTH * |records| + 4 <= MAX_PAYLOAD_LENGTH
  }

  function BatchBytes(records: seq<RecordedChunk>): (b: Bytes)
    requires EncodableBatch(records)
    ensures |b| == CHUNK_HASH_RECORD_LENGTH * |records| + 4
  {
    PutU32(|records|) + RecordsBytes(records)
  }

  method EncodeChunkHashes(records: seq<RecordedChunk>) returns (r: Result<Bytes, ChunkHashesError>)
    ensures r.Ok? <==> EncodableBatch(records)
    ensures r.Ok? ==> r.value == BatchBytes(records)
    ensures r.Err? ==> r.error == if |records| >= 0x1_0000_0000 then RecordCountTooLarge(|records|)
                                  else HashesPayloadTooLarge(CHUNK_HASH_RECORD_LENGTH * |records| + 4)
  {
    if |records| >= 0x1_0000_0000 {
      return Err(RecordCountTooLarge(|records|));
    }
    var payloadLength := CHUNK_HASH_RECORD_LENGTH * |records| + 4;
    if payloadLength > MAX_PAYLOAD_LENGTH {
      return Err(HashesPayloadTooLarge(payloadLength));
    }
    var payload: Bytes := PutU32(|records|);
    for i := 0 to |records|
      invariant payload == PutU32(|records|) + RecordsBytes(records[..i])
    {
      payload := payload + PutU64(records[i].index);
      payload := payload + records[i].hash;
      ExtendRecords(records, i);
    }
    assert records[..|records|] == records;
    return Ok(payload);
  }

  lemma {:induction false} ExtendRecords(records: seq<RecordedChunk>, i: nat)
    requires i < |records|
    ensures RecordsBytes(records[..i + 1]) == RecordsBytes(records[..i]) + (PutU64(records[i].index) + records[i].hash)
  {
    assert records[..i + 1][..i] == records[..i];
  }

  /** The records of a whole number of 40-byte groups. */
  function DecodeRecords(b: Bytes): (r: seq<RecordedChunk>)
    requires |b| % CHUNK_HASH_RECORD_LENGTH == 0
    ensures CHUNK_HASH_RECORD_LENGTH * |r| == |b|
  {
    if |b| == 0 then []
    else DecodeRecords(b[..|b| - CHUNK_HASH_RECORD_LENGTH]) + [DecodeRecord(b[|b| - CHUNK_HASH_RECORD_LENGTH..])]
  }

  function DecodeBatch(payload: Bytes): Result<seq<RecordedChunk>, ChunkHashesError> {
    if |payload| < 4 then Err(InvalidHashesLength)
    else if |payload| > MAX_PAYLOAD_LENGTH then Err(HashesPayloadTooLarge(|payload|))
    else
      var recordCount := GetU32(payload[..4]);
      if |payload| != CHUNK_HASH_RECORD_LENGTH * recordCount + 4 then Err(InvalidHashesLength)
      else Ok(DecodeRecords(payload[4..]))
  }

  method DecodeChunkHashes(payload: Bytes) returns (r: Result<seq<RecordedChunk>, ChunkHashesError>)
    ensures r == DecodeBatch(payload)
  {
    if |payload| < 4 {
      return Err(InvalidHashesLength);
    }
    if |payload| > MAX_PAYLOAD_LENGTH {
      return Err(HashesPayloadTooLarge(|payload|));
    }
    var recordCount := GetU32(payload[..4]);
    if |payload| != CHUNK_HASH_RECORD_LENGTH * recordCount + 4 {
      return Err(InvalidHashesLength);
    }
    var body := payload[4..];
    var records: seq<RecordedChunk> := [];
    for i := 0 to recordCount
      invariant records == DecodeRecords(body[..CHUNK_HASH_RECORD_LENGTH * i])
    {
      var bytes := body[CHUNK_HASH_RECORD_LENGTH * i..CHUNK_HASH_RECORD_LENGTH * (i + 1)];
      DecodeOneMore(body, i);
      records := records + [DecodeRecord(bytes)];
    }
    assert body[..CHUNK_HASH_RECORD_LENGTH * recordCount] == body;
    return Ok(records);
  }

  lemma {:induction false} DecodeOneMore(body: Bytes, i: nat)
    requires CHUNK_HASH_RECORD_LENGTH * (i + 1) <= |body|
    ensures DecodeRecords(body[..CHUNK_HASH_RECORD_LENGTH * (i + 1)]) ==
            DecodeRecords(body[..CHUNK_HASH_RECORD_LENGTH * i]) +
            [DecodeRecord(body[CHUNK_HASH_RECORD_LENGTH * i..CHUNK_HASH_RECORD_LENGTH * (i + 1)])]
  {
    hide DecodeRecord;
    var b, n := body[..CHUNK_HASH_RECORD_LENGTH * (i + 1)], CHUNK_HASH_RECORD_LENGTH * i;
    assert b[..n] == body[..n];
    assert b[n..] == body[n..CHUNK_HASH_RECORD_LENGTH * (i + 1)];
  }

  lemma {:induction false} RecordsRoundTrip(records: seq<RecordedChunk>)
    ensures DecodeRecords(RecordsBytes(records)) == records
    decreases |records|
  {
    hide RecordBytes, DecodeRecord;
    if |records| > 0 {
      var n := |records| - 1;
      var head, b := RecordsBytes(records[..n]), RecordsBytes(records);
      assert b[..|b| - CHUNK_HASH_RECORD_LENGTH] == head;
      assert b[|b| - CHUNK_HASH_RECORD_LENGTH..] == RecordBytes(records[n]);
      RecordsRoundTrip(records[..n]);
      RecordRoundTrip(records[n]);
      assert records == records[..n] + [records[n]];
    }
  }

  lemma {:induction false} RecordsReencode(b: Bytes)
    requires |b| % CHUNK_HASH_RECORD_LENGTH == 0
    ensures RecordsBytes(DecodeRecords(b)) == b
    decreases |b|
  {
    hide RecordBytes, DecodeRecord;
    if |b| > 0 {
      var n := |b| - CHUNK_HASH_RECORD_LENGTH;
      RecordsReencode(b[..n]);
      RecordReencodes(b[n..]);
      var r := DecodeRecords(b);
      assert r[..|r| - 1] == DecodeRecords(b[..n]);
      assert b == b[..n] + b[n..];
    }
  }

  lemma {:induction false} BatchRoundTrip(records: seq<RecordedChunk>)
    requires EncodableBatch(records)
    ensures DecodeBatch(BatchBytes(records)) == Ok(records)
  {
    hide PutU32, GetU32;
    GetPut32(|records|);
    assert BatchBytes(records)[..4] == PutU32(|records|);
    assert BatchBytes(records)[4..] == RecordsBytes(records);
    RecordsRoundTrip(records);
  }

  lemma {:induction false} BatchReencodes(p: Bytes)
    requires DecodeBatch(p).Ok?
    ensures EncodableBatch(DecodeBatch(p).value) && BatchBytes(DecodeBatch(p).value) == p
  {
    RecordsReencode(p[4..]);
    assert p == p[..4] + p[4..];
  }

  function ChunkStartBytes(index: u64, expectedHash: Digest): (b: Bytes)
    ensures |b| == 40
  {
    RecordBytes(RecordedChunk(index, expectedHash))
  }

  /** `None` stands for a payload that is not exactly forty bytes long. */
  function DecodeChunkStart(payload: Bytes): Option<RecordedChunk> {
    if |payload| != 40 then None else Some(DecodeRecord(payload))
  }

  lemma {:induction false} ChunkStartRoundTrip(index: u64, expectedHash: Digest)
    ensures DecodeChunkStart(ChunkStartBytes(index, expectedHash)) == Some(RecordedChunk(index, expectedHash))
  {
  }

  lemma {:induction false} ChunkStartReencodes(p: Bytes)
    requires DecodeChunkStart(p).Some?
    ensures var c := DecodeChunkStart(p).value; ChunkStartBytes(c.index, c.hash) == p
  {
  }

  // ----- DATA -----

  datatype DataFragment = DataFragment(absoluteOffset: u64, data: Bytes)

  datatype DataError = EmptyData | InvalidDataLength | DataTooLarge(length: nat)

  predicate EncodableData(d: DataFragment) {
    0 < |d.data| <= MAX_DATA_BYTES
  }

  function DataBytes(d: DataFragment): (b: Bytes)
    ensures |b| == DATA_OFFSET_LENGTH + |d.data|
  {
    PutU64(d.absoluteOffset) + d.data
  }

  method EncodeData(d: DataFragment) returns (r: Result<Bytes, DataError>)
    ensures r.Ok? <==> EncodableData(d)
    ensures r.Ok? ==> r.value == DataBytes(d)
    ensures r.Err? ==> r.error == if |d.data| == 0 then EmptyData else DataTooLarge(DATA_OFFSET_LENGTH + |d.data|)
  {
    if |d.data| == 0 {
      return Err(EmptyData);
    }
    if |d.data| > MAX_DATA_BYTES {
      return Err(DataTooLarge(DATA_OFFSET_LENGTH + |d.data|));
    }
    var payload: Bytes := PutU64(d.absoluteOffset);
    payload := payload + d.data;
    return Ok(payload);
  }

  function DecodeData(payload: Bytes): Result<DataFragment, DataError> {
    if |payload| > MAX_DATA_PAYLOAD_LENGTH then Err(DataTooLarge(|payload|))
    else if |payload| < DATA_OFFSET_LENGTH then Err(InvalidDataLength)
    else if |payload| == DATA_OFFSET_LENGTH then Err(EmptyData)
    else Ok(DataFragment(GetU64(payload[..8]), payload[8..]))
  }

  lemma {:induction false} DataRoundTrip(d: DataFragment)
    requires EncodableData(d)
    ensures DecodeData(DataBytes(d)) == Ok(d)
  {
  }

  lemma {:induction false} DataReencodes(p: Bytes)
    requires DecodeData(p).Ok?
    ensures EncodableData(DecodeData(p).value) && DataBytes(DecodeData(p).value) == p
  {
  }
}
