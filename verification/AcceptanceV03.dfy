/**
 * Which frame sequences a WFP/0.3 receiver accepts, said of the frames alone, and what it writes for them
 * (src/receiver_v03.rs, docs/PROTOCOL_V03.md).
 */
module AcceptanceV03 {
  import opened Prelude
  import opened ChunkLayout
  import opened ChunkState
  import opened Frames
  import opened PayloadsV03
  import opened ReceiverV03
  import opened ReceiverInvariants
  import TransferV03

  // ----- reading a transcript -----

  function StartIn(f: Frame): Option<RecordedChunk> {
    if f.messageType == ChunkStart then DecodeChunkStart(f.payload) else None
  }

  function FragmentIn(f: Frame): Option<DataFragment> {
    if f.messageType == Data && DecodeData(f.payload).Ok? then Some(DecodeData(f.payload).value) else None
  }

  /** The chunk announced last. */
  function LastStart(frames: seq<Frame>): Option<RecordedChunk> {
    if |frames| == 0 then None
    else if StartIn(frames[|frames| - 1]).Some? then StartIn(frames[|frames| - 1])
    else LastStart(frames[..|frames| - 1])
  }

  /** The data sent since then. */
  function SentSince(frames: seq<Frame>): Bytes {
    if |frames| == 0 then []
    else
      var f := frames[|frames| - 1];
      if StartIn(f).Some? then []
      else SentSince(frames[..|frames| - 1]) + (if FragmentIn(f).Some? then FragmentIn(f).value.data else [])
  }

  /** The announced chunk still lacks data. */
  ghost predicate Open(l: Layout, frames: seq<Frame>) {
    var start := LastStart(frames);
    start.Some? && Start(l, start.value.index) + |SentSince(frames)| < Start(l, start.value.index + 1)
  }

  ghost predicate Announced(frames: seq<Frame>, i: u64) {
    exists j :: 0 <= j < |frames| && StartIn(frames[j]).Some? && StartIn(frames[j]).value.index == i
  }

  /** Every fragment in its place, over the file the transfer began with. */
  function Placed(part: Bytes, frames: seq<Frame>): Bytes {
    if |frames| == 0 then part
    else
      var f := frames[|frames| - 1];
      var before := Placed(part, frames[..|frames| - 1]);
      if FragmentIn(f).Some? then Splice(before, FragmentIn(f).value.absoluteOffset, FragmentIn(f).value.data)
      else before
  }

  // ----- the language of accepted transfers -----

  /** A chunk may be announced between chunks, in increasing order, and with a hash that is not the one on record. */
  ghost predicate MayStart(l: Layout, records: Records, frames: seq<Frame>, c: RecordedChunk) {
    && !Open(l, frames)
    && Start(l, c.index) < l.fileSize
    && (LastStart(frames).Some? ==> LastStart(frames).value.index < c.index)
    && c !in records
  }

  /** A fragment continues the open chunk, stays inside it, and completes it only with the announced hash. */
  ghost predicate MayContinue(H: HashFunction, l: Layout, frames: seq<Frame>, d: DataFragment) {
    && Open(l, frames)
    && var start, sent := LastStart(frames).value, SentSince(frames) + d.data;
    && d.absoluteOffset == Start(l, start.index) + |SentSince(frames)|
    && Start(l, start.index) + |sent| <= Start(l, start.index + 1)
    && (Start(l, start.index) + |sent| == Start(l, start.index + 1) ==> H(sent) == start.hash)
  }

  /** A fragment that would complete its chunk, but not with the announced hash. */
  ghost predicate MisHashes(H: HashFunction, l: Layout, frames: seq<Frame>, f: Frame) {
    && FragmentIn(f).Some? && Open(l, frames)
    && var start, d := LastStart(frames).value, FragmentIn(f).value;
    && d.absoluteOffset == Start(l, start.index) + |SentSince(frames)|
    && d.absoluteOffset + |d.data| == Start(l, start.index + 1)
    && H(SentSince(frames) + d.data) != start.hash
  }

  ghost predicate MayFollow(H: HashFunction, l: Layout, records: Records, frames: seq<Frame>, f: Frame) {
    || (StartIn(f).Some? && MayStart(l, records, frames, StartIn(f).value))
    || (FragmentIn(f).Some? && MayContinue(H, l, frames, FragmentIn(f).value))
  }

  ghost predicate Transcript(H: HashFunction, l: Layout, records: Records, frames: seq<Frame>) {
    forall j :: 0 <= j < |frames| ==> MayFollow(H, l, records, frames[..j], frames[j])
  }

  // ----- the receiver follows the transcript -----

  ghost predicate Idle(s: State) {
    s.rx.active.None? && s.rx.lastChunkIndex.None? && s.rx.pendingVerified.None?
  }

  ghost predicate ActiveFollows(l: Layout, frames: seq<Frame>, rx: Receiver) {
    && (rx.active.Some? <==> Open(l, frames))
    && (rx.active.Some? ==>
          var a, start := rx.active.value, LastStart(frames).value;
          && Range(l, start.index) == Some(a.range) && a.expectedHash == start.hash
          && a.absorbed == SentSince(frames) && a.nextOffset == Start(l, start.index) + |SentSince(frames)|)
  }

  /** The records a transcript leaves known; those at or after the next chunk are still the first ones. */
  ghost predicate RecordsFollow(l: Layout, records: Records, frames: seq<Frame>, rx: Receiver) {
    && (forall i: u64 :: (LastStart(frames).Some? ==> i > LastStart(frames).value.index) ==>
         HashOf(rx.records, i) == HashOf(records, i))
    && (forall i: u64 :: HashOf(rx.records, i).Some? <==>
         HashOf(records, i).Some?
         || (Announced(frames, i) && !(Open(l, frames) && LastStart(frames).value.index == i)))
  }

  ghost predicate Follows(s: State, frames: seq<Frame>, t: State) {
    && t.rx.layout == s.rx.layout && t.rx.pendingVerified.None? && InRange(t.rx.layout, t.rx.records)
    && t.rx.lastChunkIndex == (if LastStart(frames).Some? then Some(LastStart(frames).value.index) else None)
    && (LastStart(frames).Some? ==> LastStart(frames).value.index < ChunkCount(s.rx.layout))
    && ActiveFollows(s.rx.layout, frames, t.rx)
    && RecordsFollow(s.rx.layout, s.rx.records, frames, t.rx)
    && t.store.part == Placed(s.store.part, frames)
  }

  lemma {:induction false} Extended(frames: seq<Frame>, f: Frame)
    ensures LastStart(frames + [f]) == if StartIn(f).Some? then StartIn(f) else LastStart(frames)
    ensures SentSince(frames + [f]) ==
            if StartIn(f).Some? then []
            else SentSince(frames) + (if FragmentIn(f).Some? then FragmentIn(f).value.data else [])
    ensures forall part :: Placed(part, frames + [f]) ==
                           if FragmentIn(f).Some?
                           then Splice(Placed(part, frames), FragmentIn(f).value.absoluteOffset,
                               FragmentIn(f).value.data)
                           else Placed(part, frames)
    ensures forall i: u64 :: Announced(frames + [f], i) <==>
                             Announced(frames, i) || (StartIn(f).Some? && StartIn(f).value.index == i)
  {
    hide StartIn, FragmentIn, Splice;
    assert (frames + [f])[..|frames|] == frames;
    forall i: u64
      ensures Announced(frames + [f], i) <==>
              Announced(frames, i) || (StartIn(f).Some? && StartIn(f).value.index == i)
    {
      assert (frames + [f])[|frames|] == f;
      assert forall j :: 0 <= j < |frames| ==> (frames + [f])[j] == frames[j];
    }
  }

  lemma {:induction false} StartStep(H: HashFunction, s: State, frames: seq<Frame>, t: State, f: Frame)
    requires Follows(s, frames, t) && StartIn(f).Some?
    ensures Step(H, t, f).More? <==> MayStart(s.rx.layout, s.rx.records, frames, StartIn(f).value)
    ensures Step(H, t, f).More? ==> Follows(s, frames + [f], Step(H, t, f).state)
  {
    hide SentSince, LastStart, DecodeChunkStart, HashOf, Placed, Announced;
    var l, c := s.rx.layout, StartIn(f).value;
    Extended(frames, f);
    CountMeaning(l, c.index);
    HashOfMember(s.rx.records, c.index, c.hash);
    if !Open(l, frames) && (LastStart(frames).Some? ==> LastStart(frames).value.index < c.index) {
      assert HashOf(t.rx.records, c.index) == HashOf(s.rx.records, c.index);
    }
  }

  lemma {:induction false} FragmentStep(H: HashFunction, s: State, frames: seq<Frame>, t: State, f: Frame)
    requires Follows(s, frames, t) && FragmentIn(f).Some?
    ensures Step(H, t, f).More? <==> MayContinue(H, s.rx.layout, frames, FragmentIn(f).value)
    ensures Step(H, t, f).More? ==> Follows(s, frames + [f], Step(H, t, f).state)
    ensures !Step(H, t, f).More? ==>
              && Step(H, t, f).Stopped?
              && Step(H, t, f).state.store ==
                 if MisHashes(H, s.rx.layout, frames, f)
                 then
                   var d := FragmentIn(f).value;
                   t.store.(part := Splice(t.store.part, d.absoluteOffset, d.data))
                 else t.store
    ensures !Step(H, t, f).More? ==> Step(H, t, f).state.rx.records == t.rx.records
  {
    hide SentSince, LastStart, DecodeData, HashOf, Placed, Announced, Recorded, Splice, StartIn;
    var l, d := s.rx.layout, FragmentIn(f).value;
    Extended(frames, f);
    assert StartIn(f).None? by { NotBoth(f); }
    if t.rx.active.Some? {
      var a := t.rx.active.value;
      forall i: u64
        ensures HashOf(Recorded(t.rx.records, a.range.index, a.expectedHash), i) ==
                if i == a.range.index then Some(a.expectedHash) else HashOf(t.rx.records, i)
      {
        RecordedRefinesUpdate(t.rx.records, a.range.index, a.expectedHash, i);
      }
      RecordedInRange(l, t.rx.records, a.range.index, a.expectedHash);
      LastIsAnnounced(frames);
    }
  }

  lemma {:induction false} NotBoth(f: Frame)
    ensures StartIn(f).None? || FragmentIn(f).None?
  {
  }

  lemma {:induction false} LastIsAnnounced(frames: seq<Frame>)
    ensures LastStart(frames).Some? ==> Announced(frames, LastStart(frames).value.index)
    decreases |frames|
  {
    hide StartIn;
    if |frames| > 0 && StartIn(frames[|frames| - 1]).None? {
      LastIsAnnounced(frames[..|frames| - 1]);
      if LastStart(frames).Some? {
        var i := LastStart(frames).value.index;
        var j :| 0 <= j < |frames| - 1 && StartIn(frames[..|frames| - 1][j]).Some? &&
          StartIn(frames[..|frames| - 1][j]).value.index == i;
        assert frames[j] == frames[..|frames| - 1][j];
      }
    }
  }

  /** Every chunk was on record or has been sent whole. */
  ghost predicate Covered(l: Layout, records: Records, frames: seq<Frame>) {
    !Open(l, frames) && forall i: u64 :: Start(l, i) < l.fileSize ==> HashOf(records, i).Some? || Announced(frames, i)
  }

  ghost predicate Finishes(l: Layout, records: Records, frames: seq<Frame>, f: Frame) {
    f.messageType == Complete && |f.payload| == 32 && Covered(l, records, frames)
  }

  lemma {:induction false} CoveredIsCounted(s: State, frames: seq<Frame>, t: State)
    requires Follows(s, frames, t) && t.rx.active.None?
    ensures Covered(s.rx.layout, s.rx.records, frames) <==> |t.rx.records| == ChunkCount(t.rx.layout)
  {
    hide LastStart, SentSince, Placed, Announced, HashOf;
    var l := s.rx.layout;
    forall i: u64
      ensures i < ChunkCount(l) <==> Start(l, i) < l.fileSize
    {
      CountMeaning(l, i);
    }
    if Covered(l, s.rx.records, frames) {
      TransferV03.FullCount(l, t.rx.records);
    }
    if |t.rx.records| == ChunkCount(l) {
      forall i: u64 | i < ChunkCount(l)
        ensures HashOf(t.rx.records, i).Some?
      {
        CoverageByCounting(l, t.rx.records, i);
      }
    }
  }

  lemma {:induction false} OtherStep(H: HashFunction, s: State, frames: seq<Frame>, t: State, f: Frame)
    requires Follows(s, frames, t) && StartIn(f).None? && FragmentIn(f).None?
    ensures var p := Step(H, t, f);
            && p.state == t && !p.More?
            && (p.Completed? <==> Finishes(s.rx.layout, s.rx.records, frames, f))
            && (p.Completed? ==> p.fileHash == f.payload)
  {
    hide Follows, DecodeChunkStart, DecodeData, Covered;
    if f.messageType == Complete && t.rx.active.None? {
      CoveredIsCounted(s, frames, t);
    }
    FollowsOpen(s, frames, t);
    assert t.rx.active.Some? ==> !Covered(s.rx.layout, s.rx.records, frames) by { OpenIsNotCovered(s, frames); }
  }

  lemma {:induction false} FollowsOpen(s: State, frames: seq<Frame>, t: State)
    requires Follows(s, frames, t)
    ensures t.rx.layout == s.rx.layout && t.rx.pendingVerified.None?
    ensures t.rx.active.Some? <==> Open(s.rx.layout, frames)
  {
  }

  lemma {:induction false} OpenIsNotCovered(s: State, frames: seq<Frame>)
    ensures Covered(s.rx.layout, s.rx.records, frames) ==> !Open(s.rx.layout, frames)
  {
  }

  /** The longest prefix that is a transcript. */
  ghost function Accepted(H: HashFunction, l: Layout, records: Records, frames: seq<Frame>): (k: nat)
    ensures k <= |frames|
    decreases |frames|
  {
    if |frames| == 0 then 0
    else
      var n := |frames| - 1;
      var k := Accepted(H, l, records, frames[..n]);
      if k == n && MayFollow(H, l, records, frames[..n], frames[n]) then n + 1 else k
  }

  /** The length of the transcript is where the first frame stands that may not follow. */
  lemma {:induction false} AcceptedIsFirst(H: HashFunction, l: Layout, records: Records, frames: seq<Frame>)
    ensures var k := Accepted(H, l, records, frames);
            && Transcript(H, l, records, frames[..k])
            && (k < |frames| ==> !MayFollow(H, l, records, frames[..k], frames[k]))
            && (k == |frames| <==> Transcript(H, l, records, frames))
    decreases |frames|
  {
    hide MayFollow;
    if |frames| > 0 {
      var n := |frames| - 1;
      AcceptedIsFirst(H, l, records, frames[..n]);
      assert forall j :: 0 <= j <= n ==> frames[..n][..j] == frames[..j];
      var k := Accepted(H, l, records, frames);
      assert forall j :: 0 <= j < |frames[..k]| ==> frames[..k][..j] == frames[..j];
      assert frames[..|frames|] == frames;
    }
  }

  lemma {:induction false} StartsFollowing(s: State)
    requires Idle(s) && InRange(s.rx.layout, s.rx.records)
    ensures Follows(s, [], s)
  {
  }

  /** As long as the frames are a transcript the receiver goes on, and it is where the transcript says. */
  lemma {:induction false} RunFollows(H: HashFunction, s: State, frames: seq<Frame>)
    requires Idle(s) && InRange(s.rx.layout, s.rx.records)
    ensures Run(H, s, frames).More? <==> Accepted(H, s.rx.layout, s.rx.records, frames) == |frames|
    ensures Run(H, s, frames).More? ==> Follows(s, frames, Run(H, s, frames).state)
    decreases |frames|
  {
    hide Follows, Step, MayStart, MayContinue, StartIn, FragmentIn, InRange;
    if |frames| == 0 {
      StartsFollowing(s);
    } else {
      var n := |frames| - 1;
      var f := frames[n];
      RunFollows(H, s, frames[..n]);
      assert frames == frames[..n] + [f];
      RunAppend(H, s, frames[..n], [f]);
      var p := Run(H, s, frames[..n]);
      if p.More? {
        OneFrame(H, p.state, f);
        FollowingStep(H, s, frames[..n], p.state, f);
      }
    }
  }

  lemma {:induction false} OneFrame(H: HashFunction, s: State, f: Frame)
    ensures Run(H, s, [f]) == Step(H, s, f)
  {
    hide Step;
    assert [f][1..] == [];
  }

  lemma {:induction false} FollowingStep(H: HashFunction, s: State, frames: seq<Frame>, t: State, f: Frame)
    requires Follows(s, frames, t)
    ensures Step(H, t, f).More? <==> MayFollow(H, s.rx.layout, s.rx.records, frames, f)
    ensures Step(H, t, f).More? ==> Follows(s, frames + [f], Step(H, t, f).state)
  {
    hide Follows, Step, MayStart, MayContinue, StartIn, FragmentIn;
    NotBoth(f);
    if StartIn(f).Some? {
      StartStep(H, s, frames, t, f);
    } else if FragmentIn(f).Some? {
      FragmentStep(H, s, frames, t, f);
    } else {
      OtherStep(H, s, frames, t, f);
    }
  }

  lemma {:induction false} StopsAt(H: HashFunction, s: State, frames: seq<Frame>, k: nat)
    requires k < |frames| && Run(H, s, frames[..k]).More? && !Step(H, Run(H, s, frames[..k]).state, frames[k]).More?
    ensures Run(H, s, frames) == Step(H, Run(H, s, frames[..k]).state, frames[k])
  {
    hide Step;
    assert frames == frames[..k] + frames[k..];
    RunAppend(H, s, frames[..k], frames[k..]);
  }

  /**
   * What a receiver does with every frame sequence. It goes on exactly as long as the frames are a transcript. The
   * first frame that may not follow ends the session: with success exactly when it is a COMPLETE with a hash after
   * whole chunks that cover the file, and otherwise with an error that leaves the partial file as the transcript
   * placed it, except that a chunk is written to its end before its hash is found to be wrong.
   */
  lemma {:induction false} ReceiverOutcome(H: HashFunction, s: State, frames: seq<Frame>)
    requires Idle(s) && InRange(s.rx.layout, s.rx.records)
    ensures var l, records, part := s.rx.layout, s.rx.records, s.store.part;
            var p, k := Run(H, s, frames), Accepted(H, l, records, frames);
            && (p.More? <==> k == |frames|)
            && (p.Completed? <==> k < |frames| && Finishes(l, records, frames[..k], frames[k]))
            && (p.Completed? ==> p.fileHash == frames[k].payload)
            && p.state.store.part ==
               Placed(part,
                      if k < |frames| && MisHashes(H, l, frames[..k], frames[k]) then frames[..k + 1] else frames[..k])
            && RecordsFollow(l, records, frames[..k], p.state.rx)
  {
    hide Follows, Step, Run, Finishes, MisHashes, MayStart, MayContinue, StartIn, FragmentIn, InRange, Accepted, Splice,
         Placed, RecordsFollow;
    var l, records := s.rx.layout, s.rx.records;
    var k := Accepted(H, l, records, frames);
    AcceptedIsFirst(H, l, records, frames);
    AcceptedIsFirst(H, l, records, frames[..k]);
    RunFollows(H, s, frames);
    RunFollows(H, s, frames[..k]);
    var t := Run(H, s, frames[..k]).state;
    FollowsPlaced(s, frames[..k], t);
    if k == |frames| {
      assert frames[..k] == frames;
    } else {
      var f := frames[k];
      FollowingStep(H, s, frames[..k], t, f);
      StopsAt(H, s, frames, k);
      assert frames[..k + 1] == frames[..k] + [f];
      StoppingStep(H, s, frames[..k], t, f);
      SameRecordsFollow(l, records, frames[..k], t.rx, Run(H, s, frames).state.rx);
    }
  }

  lemma {:induction false} FollowsPlaced(s: State, frames: seq<Frame>, t: State)
    requires Follows(s, frames, t)
    ensures t.store.part == Placed(s.store.part, frames)
    ensures RecordsFollow(s.rx.layout, s.rx.records, frames, t.rx)
  {
  }

  lemma {:induction false} SameRecordsFollow(l: Layout, records: Records, frames: seq<Frame>, rx: Receiver,
                                             ry: Receiver)
    requires RecordsFollow(l, records, frames, rx) && ry.records == rx.records
    ensures RecordsFollow(l, records, frames, ry)
  {
  }

  lemma {:induction false} StoppingStep(H: HashFunction, s: State, frames: seq<Frame>, t: State, f: Frame)
    requires Follows(s, frames, t) && !Step(H, t, f).More?
    ensures var p := Step(H, t, f);
            && (p.Completed? <==> Finishes(s.rx.layout, s.rx.records, frames, f))
            && (p.Completed? ==> p.fileHash == f.payload)
            && p.state.store.part ==
               Placed(s.store.part, if MisHashes(H, s.rx.layout, frames, f) then frames + [f] else frames)
            && p.state.rx.records == t.rx.records
  {
    hide RecordsFollow, Follows, Step, Covered, Open, MayStart, MayContinue, Splice, DecodeChunkStart, DecodeData;
    NotBoth(f);
    FollowsPlaced(s, frames, t);
    Extended(frames, f);
    if StartIn(f).Some? {
      StartStep(H, s, frames, t, f);
      StartRefused(H, t, f);
    } else if FragmentIn(f).Some? {
      FragmentStep(H, s, frames, t, f);
    } else {
      OtherStep(H, s, frames, t, f);
    }
  }

  lemma {:induction false} StartRefused(H: HashFunction, t: State, f: Frame)
    requires StartIn(f).Some? && !Step(H, t, f).More?
    ensures Step(H, t, f).Stopped? && Step(H, t, f).state == t
  {
    hide DecodeChunkStart;
  }
}
