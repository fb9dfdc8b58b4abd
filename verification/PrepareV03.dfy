/** What a receiver trusts of the files an earlier session left (src/chunk_state.rs, src/receiver_v03.rs). */
module PrepareV03 {
  import opened Prelude
  import opened ChunkLayout
  import opened ChunkState
  import opened Files
  import opened ReceiverV03
  import opened ReceiverInvariants

  const REVALIDATION_BUFFER_SIZE: nat := 64 * 1024

  /** The whole chunk is on disk and hashes to its record. */
  predicate Matches(H: HashFunction, l: Layout, part: Bytes, r: RecordedChunk) {
    && Range(l, r.index).Some?
    && Start(l, r.index + 1) <= |part|
    && H(Chunk(l, part, r.index)) == r.hash
  }

  /** The records that survive re-hashing the partial file. */
  function Revalidated(H: HashFunction, l: Layout, part: Bytes, records: Records): (v: Records)
    ensures forall r :: r in v <==> r in records && Matches(H, l, part, r)
    ensures |v| <= |records|
    decreases |records|
  {
    if |records| == 0 then []
    else
      var last := records[|records| - 1];
      var v := Revalidated(H, l, part, records[..|records| - 1]);
      assert records == records[..|records| - 1] + [last];
      assert forall r :: r in v ==> r.index < last.index;
      if Matches(H, l, part, last) then v + [last] else v
  }

  /** A snapshot is used only if it decodes to an acceptable list for exactly the offered layout. */
  ghost function Loaded(snapshot: Snapshot, l: Layout): Records {
    if snapshot.Saved? && snapshot.layout == l && Increasing(snapshot.chunks) && InRange(l, snapshot.chunks)
    then snapshot.chunks else []
  }

  ghost function PreparedRecords(H: HashFunction, l: Layout, part: Option<Bytes>, snapshot: Snapshot): Records {
    match part
    case None => []
    case Some(bytes) => Revalidated(H, l, bytes, Loaded(snapshot, l))
  }

  /** The state a session starts from: revalidated records and a partial file of exactly the offered size. */
  ghost function Prepared(H: HashFunction, l: Layout, part: Option<Bytes>, snapshot: Snapshot): State {
    State(Receiver(l, PreparedRecords(H, l, part, snapshot), None, None, None),
          Store(SetLength(if part.Some? then part.value else [], l.fileSize), snapshot))
  }

  lemma {:induction false} SurvivingRecord(H: HashFunction, l: Layout, part: Option<Bytes>, snapshot: Snapshot, k: u64,
                                           h: Digest)
    ensures HashOf(PreparedRecords(H, l, part, snapshot), k) == Some(h) <==>
            && part.Some?
            && HashOf(Loaded(snapshot, l), k) == Some(h)
            && Matches(H, l, part.value, RecordedChunk(k, h))
  {
    hide Matches, HashOf, Loaded;
    HashOfMember(PreparedRecords(H, l, part, snapshot), k, h);
    HashOfMember(Loaded(snapshot, l), k, h);
  }

  lemma {:induction false} ResizeKeepsChunk(l: Layout, part: Bytes, i: nat)
    requires Start(l, i + 1) <= |part|
    ensures Chunk(l, SetLength(part, l.fileSize), i) == Chunk(l, part, i)
  {
  }

  /** What a record must be for a later session to advertise it, said of the files themselves. */
  ghost predicate Proven(H: HashFunction, l: Layout, part: Option<Bytes>, snapshot: Snapshot, r: RecordedChunk) {
    && snapshot.Saved? && snapshot.layout == l
    && Increasing(snapshot.chunks) && (forall c :: c in snapshot.chunks ==> Start(l, c.index) < l.fileSize)
    && r in snapshot.chunks
    && part.Some? && Start(l, r.index + 1) <= |part.value|
    && H(part.value[Start(l, r.index)..Start(l, r.index + 1)]) == r.hash
  }

  /**
   * The records a session starts from are exactly the proven ones. In particular a snapshot for any other file size or
   * chunk size, or with a list that is unsorted or out of range, is worth nothing.
   */
  lemma {:induction false} PreparedIsProven(H: HashFunction, l: Layout, part: Option<Bytes>, snapshot: Snapshot,
                                            r: RecordedChunk)
    ensures r in PreparedRecords(H, l, part, snapshot) <==> Proven(H, l, part, snapshot, r)
  {
    hide Revalidated;
    InRangeMembers(l, snapshot);
    if snapshot.Saved? && r in snapshot.chunks {
      CountMeaning(l, r.index);
      StartMonotone(l, r.index, r.index + 1);
    }
  }

  lemma {:induction false} InRangeMembers(l: Layout, snapshot: Snapshot)
    ensures snapshot.Saved? ==>
              (InRange(l, snapshot.chunks) <==> forall c :: c in snapshot.chunks ==> Start(l, c.index) < l.fileSize)
  {
    if snapshot.Saved? {
      forall c | c in snapshot.chunks
        ensures c.index < ChunkCount(l) <==> Start(l, c.index) < l.fileSize
      {
        CountMeaning(l, c.index);
      }
    }
  }

  /** A snapshot that was made for another layout, or cannot be used at all, leaves an empty inventory. */
  lemma {:induction false} UnusableSnapshotIsIgnored(H: HashFunction, l: Layout, part: Option<Bytes>,
                                                     snapshot: Snapshot)
    requires snapshot.Saved? ==> snapshot.layout != l || !Increasing(snapshot.chunks) || !InRange(l, snapshot.chunks)
    ensures PreparedRecords(H, l, part, snapshot) == []
  {
    hide InRange, Increasing, Start;
    var records := PreparedRecords(H, l, part, snapshot);
    InRangeMembers(l, snapshot);
    if |records| > 0 {
      PreparedIsProven(H, l, part, snapshot, records[0]);
    }
  }

  /** From every disk state, preparation establishes the receiver invariant. */
  lemma {:induction false} PreparedInv(H: HashFunction, l: Layout, part: Option<Bytes>, snapshot: Snapshot)
    ensures Inv(H, Prepared(H, l, part, snapshot))
  {
    hide Chunk, Start, Loaded, SetLength;
    var s := Prepared(H, l, part, snapshot);
    forall i: u64
      ensures RecordHolds(H, s, i)
    {
      if HashOf(s.rx.records, i).Some? {
        SurvivingRecord(H, l, part, snapshot, i, HashOf(s.rx.records, i).value);
        ResizeKeepsChunk(l, part.value, i);
      }
    }
    PreparedInRange(H, l, part, snapshot);
  }

  lemma {:induction false} PreparedInRange(H: HashFunction, l: Layout, part: Option<Bytes>, snapshot: Snapshot)
    ensures InRange(l, PreparedRecords(H, l, part, snapshot))
  {
    hide Loaded;
    var v := PreparedRecords(H, l, part, snapshot);
    forall j | 0 <= j < |v|
      ensures v[j].index < ChunkCount(l)
    {
      assert Matches(H, l, part.value, v[j]);
    }
  }

  // ----- the code -----

  /** Seeks to one chunk and hashes it through short reads; `None` when the file ends too early. */
  method ReadRecordedChunk(file: ReadFile, l: Layout, range: ChunkRange) returns (bytes: Option<Bytes>)
    requires Range(l, range.index) == Some(range)
    modifies file
    ensures bytes.Some? <==> Start(l, range.index + 1) <= |file.content|
    ensures bytes.Some? ==> bytes.value == Chunk(l, file.content, range.index)
  {
    CountMeaning(l, range.index);
    file.Seek(range.offset);
    var hasher: Bytes := [];
    var remaining: u64 := range.length;
    while remaining > 0
      invariant remaining + |hasher| == range.length
      invariant file.position == range.offset + |hasher|
      invariant |hasher| > 0 ==> file.position <= |file.content|
      invariant file.position <= |file.content| ==> hasher == file.content[range.offset..file.position]
      decreases remaining
    {
      var read := file.Read(Min(remaining, REVALIDATION_BUFFER_SIZE));
      if |read| == 0 {
        break;
      }
      hasher := hasher + read;
      remaining := remaining - |read|;
    }
    return if remaining == 0 then Some(hasher) else None;
  }

  lemma {:induction false} RevalidatedNothing(H: HashFunction, l: Layout, part: Bytes)
    ensures Revalidated(H, l, part, []) == []
  {
  }

  lemma {:induction false} RevalidatedStep(H: HashFunction, l: Layout, part: Bytes, records: Records, i: nat)
    requires i < |records|
    ensures Revalidated(H, l, part, records[..i + 1]) ==
            if Matches(H, l, part, records[i]) then Revalidated(H, l, part, records[..i]) + [records[i]]
            else Revalidated(H, l, part, records[..i])
  {
    hide Matches;
    assert records[..i + 1][..i] == records[..i];
  }

  method RevalidateChunkState(H: HashFunction, l: Layout, records: Records, part: Option<Bytes>) returns (v: Records)
    ensures v == if part.None? then [] else Revalidated(H, l, part.value, records)
  {
    hide Revalidated, Chunk, Start, InRange;
    if |records| == 0 || part.None? {
      RevalidatedNothing(H, l, if part.None? then [] else part.value);
      return [];
    }
    RevalidatedNothing(H, l, part.value);
    var file := new ReadFile(part.value);
    v := [];
    for i := 0 to |records|
      invariant v == Revalidated(H, l, part.value, records[..i])
      invariant fresh(file) && file.content == part.value
    {
      RevalidatedStep(H, l, part.value, records, i);
      var range := ComputeRange(l, records[i].index);
      if range.Some? {
        var bytes := ReadRecordedChunk(file, l, range.value);
        if bytes.Some? && H(bytes.value) == records[i].hash {
          v := v + [records[i]];
        }
      }
    }
    assert records[..|records|] == records;
  }
}
