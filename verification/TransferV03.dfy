/** Honest WFP/0.3 transfers: the sender's frames run by the receiver, whole or cut short. */
module TransferV03 {
  import opened Prelude
  import opened ChunkLayout
  import opened ChunkState
  import opened Frames
  import opened PayloadsV03
  import opened ReceiverV03
  import opened ReceiverInvariants
  import opened SenderV03
  import opened PrepareV03

  // ----- one transmitted chunk -----

  ghost predicate Idle(H: HashFunction, s: State) {
    Inv(H, s) && s.rx.active.None?
  }

  /** From `s` to `t` chunk `i` became the source's, and no other chunk or record changed. */
  ghost predicate ChunkReplaced(H: HashFunction, source: Bytes, s: State, t: State, i: u64) {
    && Idle(H, t)
    && t.rx.layout == s.rx.layout
    && t.rx.lastChunkIndex == Some(i)
    && HashOf(t.rx.records, i) == Some(H(Chunk(s.rx.layout, source, i)))
    && Chunk(s.rx.layout, t.store.part, i) == Chunk(s.rx.layout, source, i)
    && forall k: u64 :: k != i ==> SameChunk(s, t, k)
  }

  /** The receiver after the first `m` bytes of chunk `i`. */
  ghost predicate Receiving(H: HashFunction, source: Bytes, s: State, i: u64, m: nat) {
    var l := s.rx.layout;
    && Inv(H, s)
    && |source| == l.fileSize && i < ChunkCount(l)
    && m <= |Chunk(l, source, i)| == Start(l, i + 1) - Start(l, i)
    && s.rx.active == Some(Incoming(Range(l, i).value, H(Chunk(l, source, i)),
                                    Start(l, i) + m, Chunk(l, source, i)[..m]))
  }

  lemma {:induction false} ChunkLength(l: Layout, source: Bytes, i: u64)
    requires |source| == l.fileSize
    ensures |Chunk(l, source, i)| == Start(l, i + 1) - Start(l, i)
    ensures i < ChunkCount(l) ==> |Chunk(l, source, i)| > 0
  {
    StartMonotone(l, i, i + 1);
    CountMeaning(l, i);
  }

  lemma {:induction false} BeginHonest(H: HashFunction, source: Bytes, s: State, i: u64)
    requires Idle(H, s) && |source| == s.rx.layout.fileSize
    requires NextIndex(s.rx) <= i < ChunkCount(s.rx.layout)
    requires HashOf(s.rx.records, i) != Some(H(Chunk(s.rx.layout, source, i)))
    ensures var p := Step(H, s, StartFrame(i, H(Chunk(s.rx.layout, source, i))));
            && p.More? && Receiving(H, source, p.state, i, 0)
            && p.state.store == s.store && p.state.rx.records == s.rx.records
            && p.state.rx.layout == s.rx.layout && p.state.rx.lastChunkIndex == Some(i)
  {
    hide Chunk, DecodeChunkStart, Inv, HashOf;
    var h := H(Chunk(s.rx.layout, source, i));
    StartFrameSendable(i, h);
    ChunkLength(s.rx.layout, source, i);
    assert s.rx.pendingVerified.None? by { InvHasNoPending(H, s); }
    BeginKeepsInv(H, s, i, h);
  }

  lemma {:induction false} InvHasNoPending(H: HashFunction, s: State)
    requires Inv(H, s)
    ensures s.rx.pendingVerified.None? && |s.store.part| == s.rx.layout.fileSize
  {
  }

  /** The next fragment of an honest chunk is accepted. */
  lemma {:induction false} FragmentAccepted(H: HashFunction, source: Bytes, s: State, i: u64, m: nat, n: nat)
    requires Receiving(H, source, s, i, m)
    requires 0 < n && m + n <= |Chunk(s.rx.layout, source, i)|
    ensures var d := DataFragment(Start(s.rx.layout, i) + m, Chunk(s.rx.layout, source, i)[m..m + n]);
            && CheckData(s.rx, d) == Ok(Start(s.rx.layout, i) + m + n)
            && s.rx.active.value.absorbed + d.data == Chunk(s.rx.layout, source, i)[..m + n]
  {
  }

  lemma {:induction false} MiddleFragment(H: HashFunction, source: Bytes, s: State, i: u64, m: nat, n: nat)
    requires Receiving(H, source, s, i, m)
    requires 0 < n && m + n < |Chunk(s.rx.layout, source, i)|
    ensures var p := StepFragment(H, s,
            DataFragment(Start(s.rx.layout, i) + m, Chunk(s.rx.layout, source, i)[m..m + n]));
            && p.More? && Receiving(H, source, p.state, i, m + n)
            && p.state.rx.layout == s.rx.layout && p.state.rx.lastChunkIndex == s.rx.lastChunkIndex
            && forall k: u64 :: k != i ==> SameChunk(s, p.state, k)
  {
    hide Chunk, Inv, SameChunk, CheckData, Splice;
    var d := DataFragment(Start(s.rx.layout, i) + m, Chunk(s.rx.layout, source, i)[m..m + n]);
    FragmentAccepted(H, source, s, i, m, n);
    FragmentKeepsInv(H, s, d);
    forall k: u64 | k != i
      ensures SameChunk(s, StepFragment(H, s, d).state, k)
    {
      FragmentLeavesOthers(H, s, d, k);
    }
  }

  lemma {:induction false} LastFragment(H: HashFunction, source: Bytes, s: State, i: u64, m: nat)
    requires Receiving(H, source, s, i, m) && s.rx.lastChunkIndex == Some(i)
    requires m < |Chunk(s.rx.layout, source, i)|
    ensures var p := StepFragment(H, s, DataFragment(Start(s.rx.layout, i) + m, Chunk(s.rx.layout, source, i)[m..]));
            p.More? && ChunkReplaced(H, source, s, p.state, i)
  {
    hide Chunk, Inv, SameChunk, CheckData, Splice, Recorded;
    var c := Chunk(s.rx.layout, source, i);
    var d := DataFragment(Start(s.rx.layout, i) + m, c[m..]);
    assert c[m..] == c[m..m + (|c| - m)];
    assert c[..|c|] == c;
    FragmentAccepted(H, source, s, i, m, |c| - m);
    VerifiedKeepsInv(H, s, d);
    RecordedRefinesUpdate(s.rx.records, i, H(c), i);
    forall k: u64 | k != i
      ensures SameChunk(s, StepFragment(H, s, d).state, k)
    {
      FragmentLeavesOthers(H, s, d, k);
    }
  }

  lemma {:induction false} SameThenReplaced(H: HashFunction, source: Bytes, s: State, t: State, u: State, i: u64)
    requires t.rx.layout == s.rx.layout
    requires forall k: u64 :: k != i ==> SameChunk(s, t, k)
    requires ChunkReplaced(H, source, t, u, i)
    ensures ChunkReplaced(H, source, s, u, i)
  {
    hide Chunk, HashOf, Idle;
    forall k: u64 | k != i
      ensures SameChunk(s, u, k)
    {
      assert SameChunk(s, t, k) && SameChunk(t, u, k);
    }
  }

  lemma {:induction false} StepDataFrame(H: HashFunction, s: State, offset: u64, data: Bytes)
    requires 0 < |data| <= MAX_DATA_BYTES
    ensures Step(H, s, DataFrame(offset, data)) == StepFragment(H, s, DataFragment(offset, data))
  {
  }

  lemma {:induction false} FragmentsRun(H: HashFunction, source: Bytes, s: State, i: u64, m: nat)
    requires Receiving(H, source, s, i, m) && s.rx.lastChunkIndex == Some(i)
    requires m < |Chunk(s.rx.layout, source, i)|
    requires Start(s.rx.layout, i) + |Chunk(s.rx.layout, source, i)| < U64_LIMIT
    ensures var p := Run(H, s, Fragments(Start(s.rx.layout, i) + m, Chunk(s.rx.layout, source, i)[m..]));
            p.More? && ChunkReplaced(H, source, s, p.state, i)
    decreases |Chunk(s.rx.layout, source, i)| - m
  {
    hide Chunk, Inv, SameChunk, Step, StepFragment, DataFrame, Receiving, ChunkReplaced;
    var l := s.rx.layout;
    var c := Chunk(l, source, i);
    var n := Min(|c| - m, MAX_DATA_BYTES);
    assert c[m..][..n] == c[m..m + n] && c[m..][n..] == c[m + n..];
    StepDataFrame(H, s, Start(l, i) + m, c[m..m + n]);
    var frames := Fragments(Start(l, i) + m, c[m..]);
    assert frames[0] == DataFrame(Start(l, i) + m, c[m..m + n]);
    assert frames[1..] == Fragments(Start(l, i) + m + n, c[m + n..]);
    if m + n < |c| {
      MiddleFragment(H, source, s, i, m, n);
      var t := Step(H, s, frames[0]).state;
      FragmentsRun(H, source, t, i, m + n);
      SameThenReplaced(H, source, s, t, Run(H, t, frames[1..]).state, i);
    } else {
      assert c[m..m + n] == c[m..];
      LastFragment(H, source, s, i, m);
      assert frames[1..] == [];
    }
  }

  /** An honest CHUNK_START with its fragments replaces exactly that chunk. */
  lemma {:induction false} ChunkRun(H: HashFunction, source: Bytes, s: State, i: u64)
    requires Idle(H, s) && |source| == s.rx.layout.fileSize
    requires NextIndex(s.rx) <= i < ChunkCount(s.rx.layout)
    requires HashOf(s.rx.records, i) != Some(H(Chunk(s.rx.layout, source, i)))
    ensures var p := Run(H, s, ChunkFrames(H, s.rx.layout, source, i));
            p.More? && ChunkReplaced(H, source, s, p.state, i)
  {
    hide Chunk, Inv, HashOf, Step, StartFrame, Fragments, Receiving, ChunkReplaced;
    var l := s.rx.layout;
    var c := Chunk(l, source, i);
    BeginHonest(H, source, s, i);
    var frames := ChunkFrames(H, l, source, i);
    ChunkFits(l, source, i);
    ChunkLength(l, source, i);
    var t := Step(H, s, frames[0]).state;
    assert c[0..] == c;
    assert frames[1..] == Fragments(Start(l, i) + 0, c[0..]);
    FragmentsRun(H, source, t, i, 0);
    SameThenReplaced(H, source, s, t, Run(H, t, frames[1..]).state, i);
  }

  // ----- the whole transfer -----

  ghost predicate Transmitted(H: HashFunction, l: Layout, source: Bytes, inventory: Records, k: u64) {
    DispositionOf(H, l, source, inventory, k) == Transmit
  }

  /** What chunk `k` is once the chunks below `i` have been dealt with: the source's if transmitted, else untouched. */
  ghost predicate ChunkSettled(H: HashFunction, source: Bytes, begin: State, s: State, i: nat, k: u64) {
    if k < i && Transmitted(H, begin.rx.layout, source, begin.rx.records, k)
    then && HashOf(s.rx.records, k) == Some(H(Chunk(begin.rx.layout, source, k)))
         && Chunk(begin.rx.layout, s.store.part, k) == Chunk(begin.rx.layout, source, k)
    else SameChunk(begin, s, k)
  }

  ghost predicate SettledBelow(H: HashFunction, source: Bytes, begin: State, s: State, i: nat) {
    && Idle(H, s)
    && s.rx.layout == begin.rx.layout
    && NextIndex(s.rx) <= i
    && forall k: u64 :: k < ChunkCount(begin.rx.layout) ==> ChunkSettled(H, source, begin, s, i, k)
  }

  lemma {:induction false} SettleReused(H: HashFunction, source: Bytes, begin: State, s: State, i: u64)
    requires SettledBelow(H, source, begin, s, i)
    requires !Transmitted(H, begin.rx.layout, source, begin.rx.records, i)
    ensures SettledBelow(H, source, begin, s, i + 1)
  {
    hide Transmitted, SameChunk, Idle, HashOf, Chunk;
    var next := i + 1;
    forall k: u64 | k < ChunkCount(begin.rx.layout)
      ensures ChunkSettled(H, source, begin, s, next, k)
    {
      assert ChunkSettled(H, source, begin, s, i, k);
    }
  }

  lemma {:induction false} SettleTransmitted(H: HashFunction, source: Bytes, begin: State, s: State, t: State, i: u64)
    requires SettledBelow(H, source, begin, s, i)
    requires Transmitted(H, begin.rx.layout, source, begin.rx.records, i)
    requires ChunkReplaced(H, source, s, t, i)
    ensures SettledBelow(H, source, begin, t, i + 1)
  {
    hide Transmitted, Idle, HashOf, Chunk;
    var next := i + 1;
    forall k: u64 | k < ChunkCount(begin.rx.layout)
      ensures ChunkSettled(H, source, begin, t, next, k)
    {
      assert ChunkSettled(H, source, begin, s, i, k);
      assert k != i ==> SameChunk(s, t, k);
    }
  }

  /** The frames of the chunks below `i`. */
  function FramesBelow(H: HashFunction, l: Layout, source: Bytes, inventory: Records, i: nat): seq<Frame>
    requires i <= ChunkCount(l)
  {
    if i == 0 then [] else FramesBelow(H, l, source, inventory, i - 1) + FramesFor(H, l, source, inventory, i - 1)
  }

  lemma {:induction false} FramesSplit(H: HashFunction, l: Layout, source: Bytes, inventory: Records, i: nat)
    requires i <= ChunkCount(l)
    ensures FramesBelow(H, l, source, inventory, i) + TransferFrames(H, l, source, inventory, i) ==
            TransferFrames(H, l, source, inventory, 0)
  {
    hide FramesFor;
    if i == 0 {
      assert [] + TransferFrames(H, l, source, inventory, 0) == TransferFrames(H, l, source, inventory, 0);
    } else {
      FramesSplit(H, l, source, inventory, i - 1);
      Reassociate(FramesBelow(H, l, source, inventory, i - 1), FramesFor(H, l, source, inventory, i - 1),
                TransferFrames(H, l, source, inventory, i));
    }
  }

  lemma {:induction false} AllFrames(H: HashFunction, l: Layout, source: Bytes, inventory: Records)
    ensures FramesBelow(H, l, source, inventory, ChunkCount(l)) == TransferFrames(H, l, source, inventory, 0)
  {
    hide FramesBelow;
    FramesSplit(H, l, source, inventory, ChunkCount(l));
    var below := FramesBelow(H, l, source, inventory, ChunkCount(l));
    assert below + [] == below;
  }

  /** The receiver after the chunks below `i`. */
  lemma {:induction false} RunBelow(H: HashFunction, source: Bytes, begin: State, i: nat)
    requires Inv(H, begin) && begin.rx.active.None? && begin.rx.lastChunkIndex.None?
    requires |source| == begin.rx.layout.fileSize && i <= ChunkCount(begin.rx.layout)
    ensures var p := Run(H, begin, FramesBelow(H, begin.rx.layout, source, begin.rx.records, i));
            p.More? && SettledBelow(H, source, begin, p.state, i)
  {
    hide Chunk, Inv, HashOf, ChunkFrames, SettledBelow, ChunkReplaced, Step;
    if i == 0 {
      NothingSettled(H, source, begin);
    } else {
      var l := begin.rx.layout;
      RunBelow(H, source, begin, i - 1);
      var below := FramesBelow(H, l, source, begin.rx.records, i - 1);
      var s := Run(H, begin, below).state;
      RunAppend(H, begin, below, FramesFor(H, l, source, begin.rx.records, i - 1));
      if Transmitted(H, l, source, begin.rx.records, i - 1) {
        NotYetRecorded(H, source, begin, s, i - 1);
        ChunkRun(H, source, s, i - 1);
        SettleTransmitted(H, source, begin, s, Run(H, s, ChunkFrames(H, l, source, i - 1)).state, i - 1);
      } else {
        SettleReused(H, source, begin, s, i - 1);
      }
    }
  }

  lemma {:induction false} NotYetRecorded(H: HashFunction, source: Bytes, begin: State, s: State, i: u64)
    requires SettledBelow(H, source, begin, s, i) && i < ChunkCount(begin.rx.layout)
    requires Transmitted(H, begin.rx.layout, source, begin.rx.records, i)
    ensures Idle(H, s) && s.rx.layout == begin.rx.layout && NextIndex(s.rx) <= i
    ensures HashOf(s.rx.records, i) != Some(H(Chunk(s.rx.layout, source, i)))
  {
    assert ChunkSettled(H, source, begin, s, i, i);
  }

  /** A list that has every index of the layout is exactly as long as the chunk count. */
  lemma {:induction false} EveryIndexPresent(l: Layout, records: Records, j: nat)
    requires InRange(l, records) && j < ChunkCount(l)
    requires forall k: u64 :: k < ChunkCount(l) ==> HashOf(records, k).Some?
    ensures j < |records| && records[j].index == j
  {
    if j > 0 {
      EveryIndexPresent(l, records, j - 1);
    }
    var p := Recording(records, j);
    assert p >= j by {
      if p < j { EveryIndexPresent(l, records, p); }
    }
    IndexAtLeastPosition(records, j);
  }

  lemma {:induction false} FullCount(l: Layout, records: Records)
    requires InRange(l, records)
    requires forall k: u64 :: k < ChunkCount(l) ==> HashOf(records, k).Some?
    ensures |records| == ChunkCount(l)
  {
    CountAtMost(l, records);
    if ChunkCount(l) > 0 {
      EveryIndexPresent(l, records, ChunkCount(l) - 1);
    }
  }

  lemma {:induction false} AllSettledRecorded(H: HashFunction, source: Bytes, begin: State, s: State)
    requires SettledBelow(H, source, begin, s, ChunkCount(begin.rx.layout))
    ensures |s.rx.records| == ChunkCount(begin.rx.layout)
  {
    hide Chunk;
    forall k: u64 | k < ChunkCount(begin.rx.layout)
      ensures HashOf(s.rx.records, k).Some?
    {
      assert ChunkSettled(H, source, begin, s, ChunkCount(begin.rx.layout), k);
    }
    FullCount(begin.rx.layout, s.rx.records);
  }

  /**
   * The sender's transfer for an inventory equal to the receiver's records meets no error:
   * COMPLETE is accepted, and every chunk is the source's if it was transmitted and untouched otherwise.
   */
  lemma {:induction false} HonestTransfer(H: HashFunction, source: Bytes, begin: State)
    requires Inv(H, begin) && begin.rx.active.None? && begin.rx.lastChunkIndex.None?
    requires |source| == begin.rx.layout.fileSize
    ensures var p := Run(H, begin, SentFrames(H, begin.rx.layout, source, begin.rx.records));
            && p.Completed? && p.fileHash == H(source)
            && SettledBelow(H, source, begin, p.state, ChunkCount(begin.rx.layout))
  {
    hide SettledBelow, FramesBelow, Inv, Chunk, HashOf, Run, TransferFrames;
    var l := begin.rx.layout;
    RunBelow(H, source, begin, ChunkCount(l));
    AllFrames(H, l, source, begin.rx.records);
    var frames := TransferFrames(H, l, source, begin.rx.records, 0);
    var t := Run(H, begin, frames).state;
    var last := [CompleteFrame(H(source))];
    RunAppend(H, begin, frames, last);
    AllSettledRecorded(H, source, begin, t);
    SettledIsIdle(H, source, begin, t);
    CompleteAccepted(H, t, H(source));
  }

  lemma {:induction false} CompleteAccepted(H: HashFunction, t: State, hash: Digest)
    requires t.rx.active.None? && t.rx.pendingVerified.None? && |t.rx.records| == ChunkCount(t.rx.layout)
    ensures Run(H, t, [CompleteFrame(hash)]) == Completed(t, hash)
  {
    assert Step(H, t, CompleteFrame(hash)) == Completed(t, hash);
  }

  lemma {:induction false} NothingSettled(H: HashFunction, source: Bytes, begin: State)
    requires Inv(H, begin) && begin.rx.active.None? && begin.rx.lastChunkIndex.None?
    ensures SettledBelow(H, source, begin, begin, 0)
  {
  }

  lemma {:induction false} SettledIsIdle(H: HashFunction, source: Bytes, begin: State, s: State)
    requires SettledBelow(H, source, begin, s, ChunkCount(begin.rx.layout))
    ensures Inv(H, s) && s.rx.active.None? && s.rx.pendingVerified.None? && s.rx.layout == begin.rx.layout
  {
  }

  /** No recorded chunk of the old file passes for the source's chunk while differing from it. */
  ghost predicate NoChunkCollision(H: HashFunction, begin: State, source: Bytes) {
    forall k: u64 :: k < ChunkCount(begin.rx.layout) && HashOf(begin.rx.records, k).Some? ==>
      !Collision(H, Chunk(begin.rx.layout, begin.store.part, k), Chunk(begin.rx.layout, source, k))
  }

  lemma {:induction false} SettledFileIsSource(H: HashFunction, source: Bytes, begin: State, s: State)
    requires Inv(H, begin) && begin.rx.active.None? && |source| == begin.rx.layout.fileSize
    requires NoChunkCollision(H, begin, source)
    requires SettledBelow(H, source, begin, s, ChunkCount(begin.rx.layout))
    ensures s.store.part == source
  {
    hide Chunk, HashOf;
    var l := begin.rx.layout;
    forall k: nat | k < ChunkCount(l)
      ensures Chunk(l, s.store.part, k) == Chunk(l, source, k)
    {
      assert ChunkSettled(H, source, begin, s, ChunkCount(l), k);
      if !Transmitted(H, l, source, begin.rx.records, k) {
        assert RecordHolds(H, begin, k);
        ChunkLength(l, source, k);
        ChunkLength(l, begin.store.part, k);
        assert HashOf(begin.rx.records, k).Some?;
        assert !Collision(H, Chunk(l, begin.store.part, k), Chunk(l, source, k));
      }
    }
    ChunksDetermineFile(l, s.store.part, source);
  }

  /** A reused chunk that collides stays what it was. */
  lemma {:induction false} CollisionStays(H: HashFunction, source: Bytes, begin: State, s: State, k: u64)
    requires Inv(H, begin) && begin.rx.active.None? && |source| == begin.rx.layout.fileSize
    requires k < ChunkCount(begin.rx.layout) && HashOf(begin.rx.records, k).Some?
    requires Collision(H, Chunk(begin.rx.layout, begin.store.part, k), Chunk(begin.rx.layout, source, k))
    requires SettledBelow(H, source, begin, s, ChunkCount(begin.rx.layout))
    ensures s.store.part != source
  {
    hide Chunk, HashOf, Idle;
    assert ChunkSettled(H, source, begin, s, ChunkCount(begin.rx.layout), k);
    assert RecordHolds(H, begin, k);
  }

  /** Once every chunk is settled the partial file is the source exactly when no reused chunk collided. */
  lemma {:induction false} SettledFileIsSourceIff(H: HashFunction, source: Bytes, begin: State, s: State)
    requires Inv(H, begin) && begin.rx.active.None? && |source| == begin.rx.layout.fileSize
    requires SettledBelow(H, source, begin, s, ChunkCount(begin.rx.layout))
    ensures s.store.part == source <==> NoChunkCollision(H, begin, source)
  {
    hide Chunk, HashOf, SettledBelow, Inv, Collision;
    if NoChunkCollision(H, begin, source) {
      SettledFileIsSource(H, source, begin, s);
    } else {
      var k: u64 :| && k < ChunkCount(begin.rx.layout) && HashOf(begin.rx.records, k).Some?
                    && Collision(H, Chunk(begin.rx.layout, begin.store.part, k), Chunk(begin.rx.layout, source, k));
      CollisionStays(H, source, begin, s, k);
    }
  }

  // ----- progress across cut sessions -----

  /** What one session leaves for the next. */
  datatype Residue = Residue(part: Option<Bytes>, snapshot: Snapshot)

  /** Chunk `k` is on disk with the source's hash, and recorded so. */
  ghost predicate Good(H: HashFunction, l: Layout, source: Bytes, r: Residue, k: u64) {
    var h := H(Chunk(l, source, k));
    && k < ChunkCount(l)
    && r.part.Some?
    && HashOf(Loaded(r.snapshot, l), k) == Some(h)
    && Matches(H, l, r.part.value, RecordedChunk(k, h))
  }

  /**
   * The connection is lost, or the process stops, after some whole frames; `torn` stops it inside the next one, with
   * that many bytes of its fragment written and no snapshot for what it would have completed.
   */
  datatype SessionCut = SessionCut(frames: nat, torn: Option<nat>)

  /** The files if the process stops inside frame `f`, after `written` bytes of what it writes. */
  function TornStore(s: State, f: Frame, written: nat): Store {
    if f.messageType == Data && DecodeData(f.payload).Ok? && CheckData(s.rx, DecodeData(f.payload).value).Ok? then
      var d := DecodeData(f.payload).value;
      s.store.(part := Splice(s.store.part, d.absoluteOffset, d.data[..Min(written, |d.data|)]))
    else s.store
  }

  ghost function AfterCut(H: HashFunction, l: Layout, source: Bytes, r: Residue, cut: SessionCut): Residue {
    var s := Prepared(H, l, r.part, r.snapshot);
    var frames := SentFrames(H, l, source, s.rx.records);
    var n := Min(cut.frames, |frames|);
    var p := Run(H, s, frames[..n]);
    var store := if cut.torn.Some? && p.More? && n < |frames| then TornStore(p.state, frames[n], cut.torn.value)
        else p.state.store;
    Residue(Some(store.part), store.snapshot)
  }

  ghost function AfterCuts(H: HashFunction, l: Layout, source: Bytes, r: Residue, cuts: seq<SessionCut>): Residue
    decreases |cuts|
  {
    if |cuts| == 0 then r else AfterCuts(H, l, source, AfterCut(H, l, source, r, cuts[0]), cuts[1..])
  }

  lemma {:induction false} FragmentsAnnounceNothing(offset: nat, data: Bytes, k: u64)
    requires offset + |data| < U64_LIMIT
    ensures Unannounced(Fragments(offset, data), k)
    decreases |data|
  {
    hide DecodeChunkStart;
    if |data| > 0 {
      var n := Min(|data|, MAX_DATA_BYTES);
      FragmentsAnnounceNothing(offset + n, data[n..], k);
    }
  }

  lemma {:induction false} TransferAnnounces(H: HashFunction, l: Layout, source: Bytes, inventory: Records, i: nat,
                                             k: u64)
    requires k < ChunkCount(l) && !Transmitted(H, l, source, inventory, k)
    ensures Unannounced(TransferFrames(H, l, source, inventory, i), k)
    decreases ChunkCount(l) - i
  {
    hide FramesFor, Announces;
    if i < ChunkCount(l) {
      TransferAnnounces(H, l, source, inventory, i + 1, k);
      ChunkAnnounces(H, l, source, inventory, i, k);
    }
  }

  lemma {:induction false} OtherChunkAnnounces(H: HashFunction, l: Layout, source: Bytes, inventory: Records, i: u64,
                                               k: u64)
    requires i != k
    ensures Unannounced(FramesFor(H, l, source, inventory, i), k)
  {
    hide Chunk, HashOf, Fragments, Announces, StartFrame;
    if Transmitted(H, l, source, inventory, i) {
      ChunkFits(l, source, i);
      FragmentsAnnounceNothing(Start(l, i), Chunk(l, source, i), k);
      AnnouncesOnlyItself(i, H(Chunk(l, source, i)), k);
    }
  }

  lemma {:induction false} ChunkAnnounces(H: HashFunction, l: Layout, source: Bytes, inventory: Records, i: u64, k: u64)
    requires !Transmitted(H, l, source, inventory, k)
    ensures Unannounced(FramesFor(H, l, source, inventory, i), k)
  {
    hide DispositionOf, ChunkFrames, Announces;
    if i != k {
      OtherChunkAnnounces(H, l, source, inventory, i, k);
    }
  }

  lemma {:induction false} AnnouncesOnlyItself(i: u64, h: Digest, k: u64)
    ensures Announces(StartFrame(i, h), k) <==> i == k
  {
  }

  /** A chunk the inventory already has right is never announced again. */
  lemma {:induction false} NotRetransmitted(H: HashFunction, l: Layout, source: Bytes, inventory: Records, k: u64)
    requires k < ChunkCount(l) && !Transmitted(H, l, source, inventory, k)
    ensures Unannounced(SentFrames(H, l, source, inventory), k)
  {
    TransferAnnounces(H, l, source, inventory, 0, k);
  }

  /** A chunk is announced exactly when the inventory lacks the source's hash for it. */
  lemma {:induction false} AnnouncedIffLacking(H: HashFunction, l: Layout, source: Bytes, inventory: Records, k: u64)
    requires k < ChunkCount(l)
    ensures Unannounced(SentFrames(H, l, source, inventory), k) <==>
            HashOf(inventory, k) == Some(H(Chunk(l, source, k)))
  {
    hide TransferFrames, FramesBelow, Chunk, HashOf, Announces;
    if !Transmitted(H, l, source, inventory, k) {
      NotRetransmitted(H, l, source, inventory, k);
    } else {
      FramesSplit(H, l, source, inventory, k + 1);
      var below := FramesBelow(H, l, source, inventory, k);
      var frames := SentFrames(H, l, source, inventory);
      assert frames[|below|] == StartFrame(k, H(Chunk(l, source, k))) by { BelowStart(H, l, source, inventory, k); }
      AnnouncesOnlyItself(k, H(Chunk(l, source, k)), k);
    }
  }

  lemma {:induction false} BelowStart(H: HashFunction, l: Layout, source: Bytes, inventory: Records, k: u64)
    requires k < ChunkCount(l) && Transmitted(H, l, source, inventory, k)
    ensures var below := FramesBelow(H, l, source, inventory, k);
            && |below| < |SentFrames(H, l, source, inventory)|
            && SentFrames(H, l, source, inventory)[|below|] == StartFrame(k, H(Chunk(l, source, k)))
  {
    hide TransferFrames, Chunk, DispositionOf, StartFrame, Fragments;
    FramesSplit(H, l, source, inventory, k + 1);
  }

  lemma {:induction false} GoodIsInventoried(H: HashFunction, l: Layout, source: Bytes, r: Residue, k: u64)
    requires Good(H, l, source, r, k)
    ensures !Transmitted(H, l, source, PreparedRecords(H, l, r.part, r.snapshot), k)
  {
    hide HashOf, Matches, Loaded;
    SurvivingRecord(H, l, r.part, r.snapshot, k, H(Chunk(l, source, k)));
  }

  lemma {:induction false} TornKeepsSize(H: HashFunction, s: State, f: Frame, written: nat)
    requires Inv(H, s)
    ensures |TornStore(s, f, written).part| == s.rx.layout.fileSize
            && TornStore(s, f, written).snapshot == s.store.snapshot
  {
    hide Chunk, Splice, DecodeData;
    if TornStore(s, f, written) != s.store {
      FragmentInside(H, s, DecodeData(f.payload).value);
    }
  }

  lemma {:induction false} TornLeavesOthers(H: HashFunction, s: State, f: Frame, written: nat, k: u64)
    requires Inv(H, s) && !IsActive(s.rx, k)
    ensures Chunk(s.rx.layout, TornStore(s, f, written).part, k) == Chunk(s.rx.layout, s.store.part, k)
    ensures |TornStore(s, f, written).part| == s.rx.layout.fileSize
            && TornStore(s, f, written).snapshot == s.store.snapshot
  {
    hide Chunk, Splice, DecodeData;
    TornKeepsSize(H, s, f, written);
    if TornStore(s, f, written) != s.store {
      var d := DecodeData(f.payload).value;
      FragmentInside(H, s, d);
      var part := d.data[..Min(written, |d.data|)];
      WriteLeavesOtherChunks(s.rx.layout, s.store.part, s.rx.active.value.range.index, d.absoluteOffset, part, k);
    }
  }

  /** An announced-nothing run never makes `k` the active chunk. */
  lemma {:induction false} RunNeverActivates(H: HashFunction, s: State, frames: seq<Frame>, k: u64)
    requires Inv(H, s) && !IsActive(s.rx, k) && Unannounced(frames, k)
    ensures !IsActive(Run(H, s, frames).state.rx, k)
    decreases |frames|
  {
    hide Inv, Step, Announces, IsActive;
    if |frames| > 0 {
      StepLeavesUnannounced(H, s, frames[0], k);
      StepKeepsInv(H, s, frames[0]);
      if Step(H, s, frames[0]).More? {
        RunNeverActivates(H, Step(H, s, frames[0]).state, frames[1..], k);
      }
    }
  }

  /** A chunk whose record and bytes are the source's in memory is good on disk. */
  lemma {:induction false} RecordedIsGood(H: HashFunction, l: Layout, source: Bytes, r: Residue, t: State,
                                          store: Store, k: u64)
    requires k < ChunkCount(l) && Inv(H, t) && t.rx.layout == l
    requires HashOf(t.rx.records, k) == Some(H(Chunk(l, source, k)))
    requires H(Chunk(l, t.store.part, k)) == H(Chunk(l, source, k))
    requires SnapshotFollows(Prepared(H, l, r.part, r.snapshot), t)
    requires |store.part| == l.fileSize && store.snapshot == t.store.snapshot
    requires Chunk(l, store.part, k) == Chunk(l, t.store.part, k)
    ensures Good(H, l, source, Residue(Some(store.part), store.snapshot), k)
  {
    hide Chunk, HashOf, SetLength;
    SurvivingRecord(H, l, r.part, r.snapshot, k, H(Chunk(l, source, k)));
    CountMeaning(l, k);
  }

  lemma {:induction false} GoodAfterwards(H: HashFunction, l: Layout, source: Bytes, r: Residue, t: State,
                                          store: Store, k: u64)
    requires Good(H, l, source, r, k)
    requires Inv(H, t) && t.rx.layout == l
    requires SnapshotFollows(Prepared(H, l, r.part, r.snapshot), t)
    requires SameChunk(Prepared(H, l, r.part, r.snapshot), t, k)
    requires |store.part| == l.fileSize && store.snapshot == t.store.snapshot
    requires Chunk(l, store.part, k) == Chunk(l, t.store.part, k)
    ensures Good(H, l, source, Residue(Some(store.part), store.snapshot), k)
  {
    hide Chunk, HashOf, SetLength, Inv, SnapshotFollows;
    SurvivingRecord(H, l, r.part, r.snapshot, k, H(Chunk(l, source, k)));
    ResizeKeepsChunk(l, r.part.value, k);
    RecordedIsGood(H, l, source, r, t, store, k);
  }

  /** Nothing good is lost in a cut session, wherever it is cut. */
  lemma {:induction false} CutKeepsGood(H: HashFunction, l: Layout, source: Bytes, r: Residue, cut: SessionCut, k: u64)
    requires Good(H, l, source, r, k)
    ensures Good(H, l, source, AfterCut(H, l, source, r, cut), k)
  {
    hide Chunk, HashOf, Inv, Good, SameChunk, Run, Step, TornStore, SentFrames, Prepared, Announces;
    var s := Prepared(H, l, r.part, r.snapshot);
    PreparedFields(H, l, r);
    PreparedInv(H, l, r.part, r.snapshot);
    var frames := SentFrames(H, l, source, s.rx.records);
    assert k < ChunkCount(l) by { GoodIndex(H, l, source, r, k); }
    GoodIsInventoried(H, l, source, r, k);
    NotRetransmitted(H, l, source, s.rx.records, k);
    var n := Min(cut.frames, |frames|);
    assert Unannounced(frames[..n], k);
    var p := Run(H, s, frames[..n]);
    RunKeepsInv(H, s, frames[..n]);
    RunLeavesUnannounced(H, s, frames[..n], k);
    RunNeverActivates(H, s, frames[..n], k);
    RunSnapshot(H, s, frames[..n]);
    InvHasNoPending(H, p.state);
    if cut.torn.Some? && p.More? && n < |frames| {
      TornLeavesOthers(H, p.state, frames[n], cut.torn.value, k);
      GoodAfterwards(H, l, source, r, p.state, TornStore(p.state, frames[n], cut.torn.value), k);
    } else {
      GoodAfterwards(H, l, source, r, p.state, p.state.store, k);
    }
  }

  lemma {:induction false} GoodIndex(H: HashFunction, l: Layout, source: Bytes, r: Residue, k: u64)
    requires Good(H, l, source, r, k)
    ensures k < ChunkCount(l)
  {
  }

  lemma {:induction false} PreparedFields(H: HashFunction, l: Layout, r: Residue)
    ensures var s := Prepared(H, l, r.part, r.snapshot);
            && s.rx.layout == l && s.rx.active.None? && s.rx.lastChunkIndex.None? && s.rx.pendingVerified.None?
            && s.rx.records == PreparedRecords(H, l, r.part, r.snapshot)
            && s.store.snapshot == r.snapshot && |s.store.part| == l.fileSize
  {
  }

  // ----- progress made by a delivered prefix -----

  /** After chunk `k` has had its turn nothing announces it again. */
  lemma {:induction false} LaterFramesAnnounceLater(H: HashFunction, l: Layout, source: Bytes, inventory: Records,
                                                    i: nat, k: u64)
    requires k < i <= ChunkCount(l)
    ensures Unannounced(TransferFrames(H, l, source, inventory, i), k)
    decreases ChunkCount(l) - i
  {
    hide FramesFor, Announces;
    if i < ChunkCount(l) {
      LaterFramesAnnounceLater(H, l, source, inventory, i + 1, k);
      OtherChunkAnnounces(H, l, source, inventory, i, k);
    }
  }

  /** A settled chunk has the source's record and hash. */
  lemma {:induction false} SettledHash(H: HashFunction, source: Bytes, begin: State, t: State, i: nat, k: u64)
    requires SettledBelow(H, source, begin, t, i) && Inv(H, begin) && begin.rx.active.None?
    requires k < i && k < ChunkCount(begin.rx.layout)
    ensures HashOf(t.rx.records, k) == Some(H(Chunk(begin.rx.layout, source, k)))
    ensures H(Chunk(begin.rx.layout, t.store.part, k)) == H(Chunk(begin.rx.layout, source, k))
  {
    hide Chunk, HashOf, Idle;
    assert ChunkSettled(H, source, begin, t, i, k);
    assert RecordHolds(H, begin, k);
  }

  /** The receiver once the chunks below `i` were delivered, however much more of the transfer follows. */
  lemma {:induction false} DeliveredStays(H: HashFunction, source: Bytes, begin: State, i: nat, n: nat, k: u64)
    requires Inv(H, begin) && begin.rx.active.None? && begin.rx.lastChunkIndex.None?
    requires |source| == begin.rx.layout.fileSize && k < i <= ChunkCount(begin.rx.layout)
    requires |FramesBelow(H, begin.rx.layout, source, begin.rx.records, i)| <= n
             <= |SentFrames(H, begin.rx.layout, source, begin.rx.records)|
    ensures var l := begin.rx.layout;
            var u := Run(H, begin, SentFrames(H, l, source, begin.rx.records)[..n]).state;
            && Inv(H, u) && u.rx.layout == l && !IsActive(u.rx, k)
            && HashOf(u.rx.records, k) == Some(H(Chunk(l, source, k)))
            && H(Chunk(l, u.store.part, k)) == H(Chunk(l, source, k))
  {
    hide Inv, Chunk, HashOf, Run, Step, SettledBelow, FramesBelow, TransferFrames, Announces;
    var l := begin.rx.layout;
    var below := FramesBelow(H, l, source, begin.rx.records, i);
    var rest := TransferFrames(H, l, source, begin.rx.records, i) + [CompleteFrame(H(source))];
    RunBelow(H, source, begin, i);
    FramesSplit(H, l, source, begin.rx.records, i);
    var t := Run(H, begin, below).state;
    var more := rest[..n - |below|];
    assert SentFrames(H, l, source, begin.rx.records)[..n] == below + more;
    RunAppend(H, begin, below, more);
    SettledHash(H, source, begin, t, i, k);
    assert Inv(H, t) && t.rx.active.None? && t.rx.layout == l by { SettledFields(H, source, begin, t, i); }
    LaterFramesAnnounceLater(H, l, source, begin.rx.records, i, k);
    assert !Announces(CompleteFrame(H(source)), k) by { CompleteAnnouncesNothing(H(source), k); }
    RunKeepsInv(H, t, more);
    RunLeavesUnannounced(H, t, more, k);
    RunNeverActivates(H, t, more, k);
  }

  lemma {:induction false} CompleteAnnouncesNothing(hash: Digest, k: u64)
    ensures !Announces(CompleteFrame(hash), k)
  {
  }

  lemma {:induction false} SettledFields(H: HashFunction, source: Bytes, begin: State, t: State, i: nat)
    requires SettledBelow(H, source, begin, t, i)
    ensures Inv(H, t) && t.rx.active.None? && t.rx.layout == begin.rx.layout
  {
  }

  /** Every chunk whose frames were delivered before the cut is good on disk after it. */
  lemma {:induction false} DeliveredIsGood(H: HashFunction, l: Layout, source: Bytes, r: Residue, cut: SessionCut,
                                           i: nat, k: u64)
    requires |source| == l.fileSize && k < i <= ChunkCount(l)
    requires |FramesBelow(H, l, source, PreparedRecords(H, l, r.part, r.snapshot), i)| <= cut.frames
    ensures Good(H, l, source, AfterCut(H, l, source, r, cut), k)
  {
    hide Chunk, HashOf, Inv, Good, Run, Step, TornStore, SentFrames, Prepared, FramesBelow, IsActive;
    var s := Prepared(H, l, r.part, r.snapshot);
    PreparedFields(H, l, r);
    PreparedInv(H, l, r.part, r.snapshot);
    var frames := SentFrames(H, l, source, s.rx.records);
    assert |FramesBelow(H, l, source, s.rx.records, i)| <= |frames| by { BelowIsPart(H, l, source, s.rx.records, i); }
    var n := Min(cut.frames, |frames|);
    var p := Run(H, s, frames[..n]);
    DeliveredStays(H, source, s, i, n, k);
    RunSnapshot(H, s, frames[..n]);
    InvHasNoPending(H, p.state);
    if cut.torn.Some? && p.More? && n < |frames| {
      TornLeavesOthers(H, p.state, frames[n], cut.torn.value, k);
      RecordedIsGood(H, l, source, r, p.state, TornStore(p.state, frames[n], cut.torn.value), k);
    } else {
      RecordedIsGood(H, l, source, r, p.state, p.state.store, k);
    }
  }

  lemma {:induction false} BelowIsPart(H: HashFunction, l: Layout, source: Bytes, inventory: Records, i: nat)
    requires i <= ChunkCount(l)
    ensures |FramesBelow(H, l, source, inventory, i)| <= |SentFrames(H, l, source, inventory)|
  {
    hide FramesBelow, TransferFrames;
    FramesSplit(H, l, source, inventory, i);
  }

  /**
   * Monotone progress: a chunk that is good stays good through any number of cut sessions,
   * and the session after them does not announce it.
   */
  lemma {:induction false} ProgressIsMonotone(H: HashFunction, l: Layout, source: Bytes, r: Residue,
                                              cuts: seq<SessionCut>, k: u64)
    requires Good(H, l, source, r, k)
    ensures var after := AfterCuts(H, l, source, r, cuts);
            && Good(H, l, source, after, k)
            && Unannounced(SentFrames(H, l, source, PreparedRecords(H, l, after.part, after.snapshot)), k)
    decreases |cuts|
  {
    hide Good, AfterCut, SentFrames, PreparedRecords;
    if |cuts| == 0 {
      GoodIndex(H, l, source, r, k);
      GoodIsInventoried(H, l, source, r, k);
      NotRetransmitted(H, l, source, PreparedRecords(H, l, r.part, r.snapshot), k);
    } else {
      CutKeepsGood(H, l, source, r, cuts[0], k);
      ProgressIsMonotone(H, l, source, AfterCut(H, l, source, r, cuts[0]), cuts[1..], k);
    }
  }
}
