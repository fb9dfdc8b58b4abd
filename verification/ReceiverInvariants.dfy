/** What the receiver keeps for every frame sequence, honest or not (src/receiver_v03.rs). */
module ReceiverInvariants {
  import opened Prelude
  import opened ChunkLayout
  import opened ChunkState
  import opened Frames
  import opened PayloadsV03
  import opened ReceiverV03

  // ----- the invariant -----

  ghost predicate IsActive(rx: Receiver, i: nat) {
    rx.active.Some? && rx.active.value.range.index == i
  }

  /** The active chunk is the last one begun, and what was hashed of it is what the file holds. */
  ghost predicate ActiveInv(rx: Receiver, part: Bytes) {
    rx.active.Some? ==>
      var a := rx.active.value;
      var i := a.range.index;
      && rx.lastChunkIndex == Some(i)
      && Range(rx.layout, i) == Some(a.range)
      && Start(rx.layout, i) <= a.nextOffset <= Start(rx.layout, i + 1) <= |part|
      && a.absorbed == part[Start(rx.layout, i)..a.nextOffset]
  }

  /** Record `i`, unless its chunk is being received again, is the hash of the bytes on disk. */
  ghost predicate RecordHolds(H: HashFunction, s: State, i: u64) {
    HashOf(s.rx.records, i).Some? && !IsActive(s.rx, i) ==>
      HashOf(s.rx.records, i).value == H(Chunk(s.rx.layout, s.store.part, i))
  }

  ghost predicate Inv(H: HashFunction, s: State) {
    && InRange(s.rx.layout, s.rx.records)
    && |s.store.part| == s.rx.layout.fileSize
    && s.rx.pendingVerified == None
    && ActiveInv(s.rx, s.store.part)
    && forall i: u64 :: RecordHolds(H, s, i)
  }

  // ----- positional writes and chunks -----

  lemma {:induction false} WriteLeavesOtherChunks(l: Layout, file: Bytes, i: nat, offset: nat, data: Bytes, k: nat)
    requires |file| == l.fileSize && k != i
    requires Start(l, i) <= offset && offset + |data| <= Start(l, i + 1)
    ensures Chunk(l, Splice(file, offset, data), k) == Chunk(l, file, k)
  {
    if k < i {
      StartMonotone(l, k + 1, i);
    } else {
      StartMonotone(l, i + 1, k);
    }
    StartMonotone(l, k, k + 1);
    SpliceSlice(file, offset, data, Start(l, k), Start(l, k + 1));
  }

  lemma {:induction false} SpliceSlice(file: Bytes, offset: nat, data: Bytes, lo: nat, hi: nat)
    requires offset + |data| <= |file| && lo <= hi <= |file|
    requires hi <= offset || offset + |data| <= lo
    ensures Splice(file, offset, data)[lo..hi] == file[lo..hi]
  {
  }

  lemma {:induction false} SpliceExtends(file: Bytes, start: nat, offset: nat, data: Bytes)
    requires start <= offset && offset + |data| <= |file|
    ensures Splice(file, offset, data)[start..offset + |data|] == file[start..offset] + data
  {
  }

  // ----- one step -----

  lemma {:induction false} BeginKeepsInv(H: HashFunction, s: State, index: u64, expectedHash: Digest)
    requires Inv(H, s) && Begin(s.rx, index, expectedHash).Ok?
    ensures Inv(H, s.(rx := Begin(s.rx, index, expectedHash).value))
  {
    var t := s.(rx := Begin(s.rx, index, expectedHash).value);
    CountMeaning(s.rx.layout, index);
    forall i: u64
      ensures RecordHolds(H, t, i)
    {
      assert RecordHolds(H, s, i);
    }
  }

  /** The fragment lies inside the active chunk. */
  lemma {:induction false} FragmentInside(H: HashFunction, s: State, d: DataFragment)
    requires Inv(H, s) && CheckData(s.rx, d).Ok?
    ensures var i := s.rx.active.value.range.index;
            && Start(s.rx.layout, i) <= d.absoluteOffset
            && d.absoluteOffset + |d.data| <= Start(s.rx.layout, i + 1) <= s.rx.layout.fileSize
            && s.rx.active.value.range.offset + s.rx.active.value.range.length == Start(s.rx.layout, i + 1)
  {
  }

  function WrittenPart(s: State, d: DataFragment): Bytes {
    Splice(s.store.part, d.absoluteOffset, d.data)
  }

  /** Before a verified chunk is persisted only the active chunk's bytes and progress have changed. */
  lemma {:induction false} AbsorbKeepsInv(H: HashFunction, s: State, d: DataFragment)
    requires Inv(H, s) && CheckData(s.rx, d).Ok?
    requires Absorb(H, s.rx, d).0.active.Some?
    ensures Inv(H, State(Absorb(H, s.rx, d).0, s.store.(part := WrittenPart(s, d))))
  {
    hide Splice, Chunk;
    FragmentInside(H, s, d);
    var t := State(Absorb(H, s.rx, d).0, s.store.(part := WrittenPart(s, d)));
    var k := s.rx.active.value.range.index;
    SpliceExtends(s.store.part, Start(s.rx.layout, k), d.absoluteOffset, d.data);
    forall i: u64
      ensures RecordHolds(H, t, i)
    {
      assert RecordHolds(H, s, i);
      if i != k {
        WriteLeavesOtherChunks(s.rx.layout, s.store.part, k, d.absoluteOffset, d.data, i);
      }
    }
  }

  /** A verified chunk is exactly the bytes on disk, and persisting it cannot fail. */
  lemma {:induction false} VerifiedKeepsInv(H: HashFunction, s: State, d: DataFragment)
    requires Inv(H, s) && CheckData(s.rx, d).Ok?
    requires Absorb(H, s.rx, d).0.active.None?
    ensures Persist(Absorb(H, s.rx, d).0).Ok?
    ensures var rx := Persist(Absorb(H, s.rx, d).0).value;
            Inv(H, State(rx, Store(WrittenPart(s, d), Saved(rx.layout, rx.records))))
    ensures Chunk(s.rx.layout, WrittenPart(s, d), s.rx.active.value.range.index) == s.rx.active.value.absorbed + d.data
  {
    hide Splice, Recorded;
    FragmentInside(H, s, d);
    var l, k := s.rx.layout, s.rx.active.value.range.index;
    var rx := Persist(Absorb(H, s.rx, d).0).value;
    var t := State(rx, Store(WrittenPart(s, d), Saved(rx.layout, rx.records)));
    SpliceExtends(s.store.part, Start(l, k), d.absoluteOffset, d.data);
    assert Chunk(l, t.store.part, k) == s.rx.active.value.absorbed + d.data;
    RecordedInRange(l, s.rx.records, k, s.rx.active.value.expectedHash);
    forall i: u64
      ensures RecordHolds(H, t, i)
    {
      assert RecordHolds(H, s, i);
      RecordedRefinesUpdate(s.rx.records, k, s.rx.active.value.expectedHash, i);
      if i != k {
        WriteLeavesOtherChunks(l, s.store.part, k, d.absoluteOffset, d.data, i);
      }
    }
  }

  lemma {:induction false} FragmentKeepsInv(H: HashFunction, s: State, d: DataFragment)
    requires Inv(H, s)
    ensures Inv(H, StepFragment(H, s, d).state)
  {
    hide Inv, CheckData, Persist, Splice;
    if CheckData(s.rx, d).Ok? {
      if Absorb(H, s.rx, d).0.active.None? {
        VerifiedKeepsInv(H, s, d);
      } else {
        AbsorbKeepsInv(H, s, d);
      }
    }
  }

  lemma {:induction false} StepKeepsInv(H: HashFunction, s: State, f: Frame)
    requires Inv(H, s)
    ensures Inv(H, Step(H, s, f).state)
  {
    hide Inv, Begin, StepFragment, DecodeData, DecodeChunkStart;
    match f.messageType
    case ChunkStart =>
      var c := DecodeChunkStart(f.payload);
      if c.Some? && Begin(s.rx, c.value.index, c.value.hash).Ok? {
        BeginKeepsInv(H, s, c.value.index, c.value.hash);
      }
    case Data =>
      if DecodeData(f.payload).Ok? {
        FragmentKeepsInv(H, s, DecodeData(f.payload).value);
      }
    case Complete =>
    case _ =>
  }

  /** Every state the loop can reach, whatever arrives, satisfies the invariant. */
  lemma {:induction false} RunKeepsInv(H: HashFunction, s: State, frames: seq<Frame>)
    requires Inv(H, s)
    ensures Inv(H, Run(H, s, frames).state)
    decreases |frames|
  {
    hide Inv, Step;
    if |frames| > 0 {
      StepKeepsInv(H, s, frames[0]);
      if Step(H, s, frames[0]).More? {
        RunKeepsInv(H, Step(H, s, frames[0]).state, frames[1..]);
      }
    }
  }

  // ----- an accepted COMPLETE -----

  ghost predicate FullyVerified(H: HashFunction, s: State) {
    forall i: u64 :: i < ChunkCount(s.rx.layout) ==>
        HashOf(s.rx.records, i) == Some(H(Chunk(s.rx.layout, s.store.part, i)))
  }

  /** A transfer is only complete when every chunk of the layout is recorded and matches the file. */
  lemma {:induction false} CompletedIsFullyVerified(H: HashFunction, s: State, frames: seq<Frame>)
    requires Inv(H, s) && Run(H, s, frames).Completed?
    ensures FullyVerified(H, Run(H, s, frames).state) && Run(H, s, frames).state.rx.active == None
    decreases |frames|
  {
    hide StepChunkStart, StepData, Inv, FullyVerified;
    var f := frames[0];
    StepKeepsInv(H, s, f);
    if Step(H, s, f).More? {
      CompletedIsFullyVerified(H, Step(H, s, f).state, frames[1..]);
    } else {
      assert f.messageType == Complete by {
        StepDataNeverCompletes(H, s, f.payload);
        StepChunkStartNeverCompletes(s, f.payload);
      }
      FullCoverage(H, s);
    }
  }

  lemma {:induction false} StepDataNeverCompletes(H: HashFunction, s: State, payload: Bytes)
    ensures !StepData(H, s, payload).Completed?
  {
  }

  lemma {:induction false} StepChunkStartNeverCompletes(s: State, payload: Bytes)
    ensures !StepChunkStart(s, payload).Completed?
  {
  }

  lemma {:induction false} FullCoverage(H: HashFunction, s: State)
    requires Inv(H, s) && s.rx.active.None?
    requires |s.rx.records| == ChunkCount(s.rx.layout)
    ensures FullyVerified(H, s)
  {
    forall i: u64 | i < ChunkCount(s.rx.layout)
      ensures HashOf(s.rx.records, i) == Some(H(Chunk(s.rx.layout, s.store.part, i)))
    {
      CoverageByCounting(s.rx.layout, s.rx.records, i);
      assert RecordHolds(H, s, i);
    }
  }

  // ----- what a frame sequence leaves alone -----

  ghost predicate Announces(f: Frame, i: u64) {
    && f.messageType == ChunkStart
    && DecodeChunkStart(f.payload).Some?
    && DecodeChunkStart(f.payload).value.index == i
  }

  ghost predicate Unannounced(frames: seq<Frame>, i: u64) {
    forall j :: 0 <= j < |frames| ==> !Announces(frames[j], i)
  }

  /** Chunk `i` has the same bytes and the same record in both states. */
  ghost predicate SameChunk(s: State, t: State, i: u64) {
    && t.rx.layout == s.rx.layout
    && Chunk(s.rx.layout, t.store.part, i) == Chunk(s.rx.layout, s.store.part, i)
    && HashOf(t.rx.records, i) == HashOf(s.rx.records, i)
  }

  lemma {:induction false} FragmentLeavesOthers(H: HashFunction, s: State, d: DataFragment, i: u64)
    requires Inv(H, s) && !IsActive(s.rx, i)
    ensures SameChunk(s, StepFragment(H, s, d).state, i) && !IsActive(StepFragment(H, s, d).state.rx, i)
  {
    hide Splice, Chunk, Recorded;
    if CheckData(s.rx, d).Ok? {
      FragmentInside(H, s, d);
      var a := s.rx.active.value;
      WriteLeavesOtherChunks(s.rx.layout, s.store.part, a.range.index, d.absoluteOffset, d.data, i);
      RecordedRefinesUpdate(s.rx.records, a.range.index, a.expectedHash, i);
    }
  }

  lemma {:induction false} StepLeavesUnannounced(H: HashFunction, s: State, f: Frame, i: u64)
    requires Inv(H, s) && !IsActive(s.rx, i) && !Announces(f, i)
    ensures SameChunk(s, Step(H, s, f).state, i) && !IsActive(Step(H, s, f).state.rx, i)
  {
    hide Inv, StepFragment, DecodeData, DecodeChunkStart, Chunk, HashOf;
    if f.messageType == Data && DecodeData(f.payload).Ok? {
      FragmentLeavesOthers(H, s, DecodeData(f.payload).value, i);
    }
  }

  /** Bytes and records of chunks no CHUNK_START names are unchanged, whatever else arrives. */
  lemma {:induction false} RunLeavesUnannounced(H: HashFunction, s: State, frames: seq<Frame>, i: u64)
    requires Inv(H, s) && !IsActive(s.rx, i) && Unannounced(frames, i)
    ensures SameChunk(s, Run(H, s, frames).state, i)
    decreases |frames|
  {
    hide Inv, Step, Chunk, HashOf, Announces;
    if |frames| > 0 {
      StepLeavesUnannounced(H, s, frames[0], i);
      StepKeepsInv(H, s, frames[0]);
      if Step(H, s, frames[0]).More? {
        RunLeavesUnannounced(H, Step(H, s, frames[0]).state, frames[1..], i);
      }
    }
  }

  // ----- the snapshot -----

  /** The snapshot either is untouched, together with the records, or is exactly the records. */
  ghost predicate SnapshotFollows(s: State, t: State) {
    && t.rx.layout == s.rx.layout
    && (t.store.snapshot == Saved(t.rx.layout, t.rx.records)
        || (t.store.snapshot == s.store.snapshot && t.rx.records == s.rx.records))
  }

  lemma {:induction false} StepSnapshot(H: HashFunction, s: State, f: Frame)
    ensures SnapshotFollows(s, Step(H, s, f).state)
  {
    hide CheckData, Recorded, Splice, DecodeData, DecodeChunkStart, Range, HashOf;
  }

  lemma {:induction false} RunSnapshot(H: HashFunction, s: State, frames: seq<Frame>)
    ensures SnapshotFollows(s, Run(H, s, frames).state)
    decreases |frames|
  {
    hide Step;
    if |frames| > 0 {
      StepSnapshot(H, s, frames[0]);
      if Step(H, s, frames[0]).More? {
        RunSnapshot(H, Step(H, s, frames[0]).state, frames[1..]);
      }
    }
  }

  // ----- termination on any stream -----

  function CountOf(frames: seq<Frame>, m: MessageType): (n: nat)
    ensures n <= |frames|
  {
    if |frames| == 0 then 0 else (if frames[0].messageType == m then 1 else 0) + CountOf(frames[1..], m)
  }

  /** The first index a CHUNK_START may still name. */
  ghost function NextIndex(rx: Receiver): nat {
    if rx.lastChunkIndex.Some? then rx.lastChunkIndex.value + 1 else 0
  }

  ghost function Startable(s: State): int {
    ChunkCount(s.rx.layout) - NextIndex(s.rx)
  }

  /** Bytes at or after the position the receiver has reached. */
  ghost function BytesAhead(s: State): int {
    s.rx.layout.fileSize - (if s.rx.active.Some? then s.rx.active.value.nextOffset
        else Start(s.rx.layout, NextIndex(s.rx)))
  }

  ghost predicate MeasureDrops(s: State, t: State, f: Frame) {
    && (f.messageType == ChunkStart || f.messageType == Data)
    && Startable(t) <= Startable(s) - (if f.messageType == ChunkStart then 1 else 0)
    && BytesAhead(t) <= BytesAhead(s) - (if f.messageType == Data then 1 else 0)
    && Startable(t) >= 0 && BytesAhead(t) >= 0
  }

  ghost predicate Bounded(s: State) {
    Startable(s) >= 0 && BytesAhead(s) >= 0
  }

  lemma {:induction false} ChunkStartDrops(H: HashFunction, s: State, f: Frame)
    requires Inv(H, s) && Bounded(s) && f.messageType == ChunkStart && Step(H, s, f).More?
    ensures MeasureDrops(s, Step(H, s, f).state, f)
  {
    hide DecodeChunkStart, HashOf, Chunk;
    var c := DecodeChunkStart(f.payload).value;
    StartMonotone(s.rx.layout, NextIndex(s.rx), c.index);
  }

  lemma {:induction false} FragmentDrops(H: HashFunction, s: State, d: DataFragment, f: Frame)
    requires Inv(H, s) && Bounded(s) && f.messageType == Data && |d.data| > 0 && StepFragment(H, s, d).More?
    ensures MeasureDrops(s, StepFragment(H, s, d).state, f)
  {
    hide Splice, Recorded, Chunk, HashOf;
    FragmentInside(H, s, d);
  }

  lemma {:induction false} StepDrops(H: HashFunction, s: State, f: Frame)
    requires Inv(H, s) && Bounded(s) && Step(H, s, f).More?
    ensures MeasureDrops(s, Step(H, s, f).state, f)
  {
    hide Inv, StepFragment, MeasureDrops, StepChunkStart;
    match f.messageType
    case ChunkStart => ChunkStartDrops(H, s, f);
    case Data => FragmentDrops(H, s, DecodeData(f.payload).value, f);
    case Complete =>
    case _ =>
  }

  /**
   * While the loop goes on it has accepted only CHUNK_START and DATA frames, no more of the first kind
   * than there were startable chunks and no more of the second than there were bytes ahead.
   */
  lemma {:induction false} RunIsBounded(H: HashFunction, s: State, frames: seq<Frame>)
    requires Inv(H, s) && Bounded(s) && Run(H, s, frames).More?
    ensures CountOf(frames, ChunkStart) + CountOf(frames, Data) == |frames|
    ensures CountOf(frames, ChunkStart) <= Startable(s)
    ensures CountOf(frames, Data) <= BytesAhead(s)
    decreases |frames|
  {
    hide Inv, Step, Startable, BytesAhead;
    if |frames| > 0 {
      StepDrops(H, s, frames[0]);
      StepKeepsInv(H, s, frames[0]);
      RunIsBounded(H, Step(H, s, frames[0]).state, frames[1..]);
    }
  }

  /** A receiver that has just been prepared stops on every stream, finite or not, within this many frames. */
  lemma {:induction false} LoopTerminates(H: HashFunction, s: State, stream: nat -> Frame)
    requires Inv(H, s) && s.rx.lastChunkIndex.None?
    ensures !Run(H, s, seq(ChunkCount(s.rx.layout) + s.rx.layout.fileSize + 1, (i: nat) => stream(i))).More?
  {
    hide Run;
    var frames := seq(ChunkCount(s.rx.layout) + s.rx.layout.fileSize + 1, (i: nat) => stream(i));
    if Run(H, s, frames).More? {
      RunIsBounded(H, s, frames);
    }
  }
}
