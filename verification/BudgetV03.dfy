/** How many DATA bytes cut WFP/0.3 sessions can cost (src/sender_v03.rs, src/receiver_v03.rs). */
module BudgetV03 {
  import opened Prelude
  import opened ChunkLayout
  import opened ChunkState
  import opened Frames
  import opened PayloadsV03
  import opened ReceiverV03
  import opened ReceiverInvariants
  import opened SenderV03
  import opened PrepareV03
  import opened TransferV03
  import opened Storage
  import opened SessionV03
  import opened StabilisationV03
  import opened RecoveryV03
  import opened SafetyV03
  import opened ProgressV03

  // ----- bytes carried by a prefix of a transfer -----

  /** The lengths of the chunks below `i` that are transmitted. */
  ghost function TransmittedBytes(H: HashFunction, l: Layout, source: Bytes, inventory: Records, i: nat): nat {
    if i == 0 then 0
    else
      TransmittedBytes(H, l, source, inventory, i - 1)
      + (if i - 1 < U64_LIMIT && Transmitted(H, l, source, inventory, i - 1) then |Chunk(l, source, i - 1)| else 0)
  }

  lemma {:induction false} CarriedByFrames(H: HashFunction, l: Layout, source: Bytes, inventory: Records, i: u64)
    ensures |Carried(FramesFor(H, l, source, inventory, i))| ==
            if Transmitted(H, l, source, inventory, i) then |Chunk(l, source, i)| else 0
  {
    hide Chunk, DispositionOf, ChunkFrames;
    CarriedByChunk(H, l, source, i);
  }

  lemma {:induction false} CarriedBelow(H: HashFunction, l: Layout, source: Bytes, inventory: Records, i: nat)
    requires i <= ChunkCount(l)
    ensures |Carried(FramesBelow(H, l, source, inventory, i))| == TransmittedBytes(H, l, source, inventory, i)
  {
    hide Carried, FramesFor, Chunk, Transmitted;
    if i == 0 {
      CarriedNothing();
    } else {
      CarriedBelow(H, l, source, inventory, i - 1);
      CarriedByFrames(H, l, source, inventory, i - 1);
      CarriedAppend(FramesBelow(H, l, source, inventory, i - 1), FramesFor(H, l, source, inventory, i - 1));
    }
  }

  lemma {:induction false} CarriedPrefix(frames: seq<Frame>, n: nat)
    requires n <= |frames|
    ensures |Carried(frames[..n])| <= |Carried(frames)|
  {
    hide Carried;
    assert frames == frames[..n] + frames[n..];
    CarriedAppend(frames[..n], frames[n..]);
  }

  /** How many chunks were sent in full with the first `n` frames. */
  ghost function WholeChunks(H: HashFunction, l: Layout, source: Bytes, inventory: Records, n: nat, i: nat): (j: nat)
    requires i <= ChunkCount(l) && |FramesBelow(H, l, source, inventory, i)| <= n
    ensures i <= j <= ChunkCount(l) && |FramesBelow(H, l, source, inventory, j)| <= n
    ensures j < ChunkCount(l) ==> n < |FramesBelow(H, l, source, inventory, j + 1)|
    decreases ChunkCount(l) - i
  {
    if i < ChunkCount(l) && |FramesBelow(H, l, source, inventory, i + 1)| <= n
    then WholeChunks(H, l, source, inventory, n, i + 1) else i
  }

  lemma {:induction false} ChunkAtMostSize(l: Layout, source: Bytes, i: u64)
    requires |source| == l.fileSize
    ensures |Chunk(l, source, i)| <= l.chunkSize
  {
    ChunkLength(l, source, i);
  }

  /**
   * A prefix of the transfer, one frame into the next chunk at most, carries at most one chunk beyond the whole ones.
   */
  lemma {:induction false} CarriedByPrefix(H: HashFunction, l: Layout, source: Bytes, inventory: Records, n: nat,
                                           m: nat)
    requires |source| == l.fileSize
    requires n <= m <= n + 1 && m <= |SentFrames(H, l, source, inventory)|
    ensures var j := WholeChunks(H, l, source, inventory, n, 0);
            |Carried(SentFrames(H, l, source, inventory)[..m])| <= TransmittedBytes(H, l, source, inventory, j)
                + l.chunkSize
  {
    hide Carried, FramesFor, Chunk, Transmitted, TransmittedBytes, TransferFrames;
    var j := WholeChunks(H, l, source, inventory, n, 0);
    var below := FramesBelow(H, l, source, inventory, j);
    var sent := SentFrames(H, l, source, inventory);
    CarriedBelow(H, l, source, inventory, j);
    if j < ChunkCount(l) {
      var next := FramesFor(H, l, source, inventory, j);
      assert FramesBelow(H, l, source, inventory, j + 1) == below + next;
      PrefixOfSent(H, l, source, inventory, j + 1, m);
      assert (below + next)[..m] == below + next[..m - |below|];
      CarriedAppend(below, next[..m - |below|]);
      CarriedPrefix(next, m - |below|);
      CarriedByFrames(H, l, source, inventory, j);
      ChunkAtMostSize(l, source, j);
    } else {
      AllFrames(H, l, source, inventory);
      CarriedPrefix(sent, m);
      CarriedAppend(below, [CompleteFrame(H(source))]);
      CompleteCarriesNothing(H(source));
    }
  }

  lemma {:induction false} PrefixOfSent(H: HashFunction, l: Layout, source: Bytes, inventory: Records, i: nat, m: nat)
    requires i <= ChunkCount(l) && m <= |FramesBelow(H, l, source, inventory, i)|
    ensures m <= |SentFrames(H, l, source, inventory)|
    ensures SentFrames(H, l, source, inventory)[..m] == FramesBelow(H, l, source, inventory, i)[..m]
  {
    hide FramesBelow, TransferFrames;
    FramesSplit(H, l, source, inventory, i);
  }

  lemma {:induction false} CompleteCarriesNothing(hash: Digest)
    ensures Carried([CompleteFrame(hash)]) == []
  {
  }

  // ----- bytes that stay -----

  /** The lengths of the chunks below `i` that are on disk and recorded with the source's hash. */
  ghost function GoodBytes(H: HashFunction, l: Layout, source: Bytes, r: Residue, i: nat): nat {
    if i == 0 then 0
    else
      GoodBytes(H, l, source, r, i - 1)
      + (if i - 1 < U64_LIMIT && Good(H, l, source, r, i - 1) then |Chunk(l, source, i - 1)| else 0)
  }

  lemma {:induction false} GoodBytesFit(H: HashFunction, l: Layout, source: Bytes, r: Residue, i: nat)
    requires |source| == l.fileSize && i <= ChunkCount(l)
    ensures GoodBytes(H, l, source, r, i) <= Start(l, i)
  {
    hide Good, Chunk;
    if i > 0 {
      GoodBytesFit(H, l, source, r, i - 1);
      ChunkLength(l, source, i - 1);
    }
  }

  /**
   * Chunks sent in full become good, good ones stay, and no good one is sent: the good bytes grow by the bytes sent.
   */
  lemma {:induction false} GoodBytesGrow(H: HashFunction, l: Layout, source: Bytes, r: Residue, cut: SessionCut,
                                         whole: nat, i: nat)
    requires |source| == l.fileSize && i <= ChunkCount(l) && whole <= ChunkCount(l)
    requires |FramesBelow(H, l, source, PreparedRecords(H, l, r.part, r.snapshot), whole)| <= cut.frames
    ensures GoodBytes(H, l, source, AfterCut(H, l, source, r, cut), i) >=
            GoodBytes(H, l, source, r, i)
            + TransmittedBytes(H, l, source, PreparedRecords(H, l, r.part, r.snapshot), Min(i, whole))
  {
    hide Good, Chunk, AfterCut, PreparedRecords, FramesBelow, Transmitted;
    if i > 0 {
      GoodBytesGrow(H, l, source, r, cut, whole, i - 1);
      var k: u64 := i - 1;
      if Good(H, l, source, r, k) {
        CutKeepsGood(H, l, source, r, cut, k);
        GoodIsInventoried(H, l, source, r, k);
      } else if k < whole {
        DeliveredIsGood(H, l, source, r, cut, whole, k);
      }
    }
  }

  // ----- cut sessions -----

  /** The DATA bytes that reach the receiver in a cut session, the fragment it is stopped in included. */
  ghost function SessionBytes(H: HashFunction, l: Layout, source: Bytes, r: Residue, cut: SessionCut): nat {
    var frames := SentFrames(H, l, source, PreparedRecords(H, l, r.part, r.snapshot));
    var n := Min(cut.frames, |frames|);
    |Carried(frames[..if cut.torn.Some? && n < |frames| then n + 1 else n])|
  }

  /** A cut session costs at most one chunk more than it adds to what is good on disk. */
  lemma {:induction false} CutBudget(H: HashFunction, l: Layout, source: Bytes, r: Residue, cut: SessionCut)
    requires |source| == l.fileSize
    ensures GoodBytes(H, l, source, r, ChunkCount(l)) + SessionBytes(H, l, source, r, cut) <=
            GoodBytes(H, l, source, AfterCut(H, l, source, r, cut), ChunkCount(l)) + l.chunkSize
  {
    hide Good, Chunk, AfterCut, PreparedRecords, FramesBelow, SentFrames, Carried, GoodBytes, TransmittedBytes,
         WholeChunks;
    var inventory := PreparedRecords(H, l, r.part, r.snapshot);
    var frames := SentFrames(H, l, source, inventory);
    var n := Min(cut.frames, |frames|);
    NothingBelow(H, l, source, inventory);
    var whole := WholeChunks(H, l, source, inventory, n, 0);
    CarriedByPrefix(H, l, source, inventory, n, if cut.torn.Some? && n < |frames| then n + 1 else n);
    GoodBytesGrow(H, l, source, r, cut, whole, ChunkCount(l));
  }

  lemma {:induction false} NothingBelow(H: HashFunction, l: Layout, source: Bytes, inventory: Records)
    ensures |FramesBelow(H, l, source, inventory, 0)| == 0
  {
  }

  ghost function SessionsBytes(H: HashFunction, l: Layout, source: Bytes, r: Residue, cuts: seq<SessionCut>): nat
    decreases |cuts|
  {
    if |cuts| == 0 then 0
    else
      SessionBytes(H, l, source, r, cuts[0])
      + SessionsBytes(H, l, source, AfterCut(H, l, source, r, cuts[0]), cuts[1..])
  }

  /**
   * Over any number of cut sessions the DATA bytes that arrive are at most the file size plus one chunk size a
   * session.
   */
  lemma {:induction false} SessionsBudget(H: HashFunction, l: Layout, source: Bytes, r: Residue, cuts: seq<SessionCut>)
    requires |source| == l.fileSize
    ensures GoodBytes(H, l, source, r, ChunkCount(l)) + SessionsBytes(H, l, source, r, cuts) <= l.fileSize
            + |cuts| * l.chunkSize
    decreases |cuts|
  {
    hide GoodBytes, SessionBytes, AfterCut;
    if |cuts| == 0 {
      GoodBytesFit(H, l, source, r, ChunkCount(l));
    } else {
      CutBudget(H, l, source, r, cuts[0]);
      SessionsBudget(H, l, source, AfterCut(H, l, source, r, cuts[0]), cuts[1..]);
      assert |cuts| * l.chunkSize == (|cuts| - 1) * l.chunkSize + l.chunkSize;
    }
  }

  // ----- attempts -----

  /** The DATA bytes that reach the receiver in an attempt; none when no transfer is run. */
  ghost function AttemptBytes(env: Environment, d: Disk, o: FileOffer, source: Bytes, cut: Cut): nat
    requires HonestOffer(o, source)
  {
    if cut.offered && ReconcilePlan(env.H, env.platform, d, o).1 == Ok(NotReconciled)
    then SessionBytes(env.H, LayoutOf(o), source, ResidueOf(d, o.filename), CutInAttempt(env, d, o, source, cut)) else 0
  }

  ghost function AttemptsBytes(env: Environment, d: Disk, o: FileOffer, source: Bytes, cuts: seq<Cut>): nat
    requires HonestOffer(o, source)
    decreases |cuts|
  {
    if |cuts| == 0 then 0
    else
      AttemptBytes(env, d, o, source, cuts[0])
      + AttemptsBytes(env, Attempt(env, d, o, source, cuts[0]).0, o, source, cuts[1..])
  }

  /** The good bytes of a disk; the whole file once it is published and answers the transfer. */
  ghost function Saved(env: Environment, d: Disk, o: FileOffer, source: Bytes): nat
    requires HonestOffer(o, source)
  {
    if Checked(env, d, o) then o.fileSize
    else GoodBytes(env.H, LayoutOf(o), source, ResidueOf(d, o.filename), ChunkCount(LayoutOf(o)))
  }

  lemma {:induction false} SavedFits(env: Environment, d: Disk, o: FileOffer, source: Bytes)
    requires HonestOffer(o, source)
    ensures Saved(env, d, o, source) <= o.fileSize
  {
    hide Checked, GoodBytes;
    GoodBytesFit(env.H, LayoutOf(o), source, ResidueOf(d, o.filename), ChunkCount(LayoutOf(o)));
  }

  lemma {:induction false} CheckedIsReconciled(env: Environment, d: Disk, o: FileOffer)
    requires Checked(env, d, o)
    ensures ReconcilePlan(env.H, env.platform, d, o).1 != Ok(NotReconciled)
  {
  }

  lemma {:induction false} AttemptBudget(env: Environment, d: Disk, o: FileOffer, source: Bytes, cut: Cut)
    requires HonestOffer(o, source) && WellFormed(d)
    ensures var e := Attempt(env, d, o, source, cut).0;
            && WellFormed(e)
            && Saved(env, d, o, source) + AttemptBytes(env, d, o, source, cut) <= Saved(env, e, o, source) + o.chunkSize
  {
    hide TransferAttempt, ReconcilePlan, ApplyAll, WellFormed, AfterCut, Attempt, CutInAttempt, Served, Checked,
         GoodBytes, SessionBytes;
    AttemptCases(env, d, o, source, cut);
    AttemptServes(env, d, o, source, cut);
    var l := LayoutOf(o);
    var r := TransferAttemptLeaves(env, d, o, source, cut);
    ReconcileKeepsResidue(env, d, o, Min(cut.storageSteps, |ReconcilePlan(env.H, env.platform, d, o).0|));
    CutBudget(env.H, l, source, ResidueOf(d, o.filename), CutInAttempt(env, d, o, source, cut));
    GoodBytesFit(env.H, l, source, r, ChunkCount(l));
    SavedFits(env, d, o, source);
    if Checked(env, d, o) {
      CheckedAnswers(env, d, o, source, cut);
      CheckedIsReconciled(env, d, o);
    }
  }

  /**
   * The byte budget of a transfer: over any number of attempts, each cut anywhere, from any disk, the DATA bytes that
   * arrive are at most the file size plus one chunk size for each attempt, less what was already good.
   */
  lemma {:induction false} AttemptsBudget(env: Environment, d: Disk, o: FileOffer, source: Bytes, cuts: seq<Cut>)
    requires HonestOffer(o, source) && WellFormed(d)
    ensures Saved(env, d, o, source) + AttemptsBytes(env, d, o, source, cuts) <= o.fileSize + |cuts| * o.chunkSize
    decreases |cuts|
  {
    hide Saved, AttemptBytes, Attempt, WellFormed;
    if |cuts| == 0 {
      SavedFits(env, d, o, source);
    } else {
      AttemptBudget(env, d, o, source, cuts[0]);
      AttemptsBudget(env, Attempt(env, d, o, source, cuts[0]).0, o, source, cuts[1..]);
      assert |cuts| * o.chunkSize == (|cuts| - 1) * o.chunkSize + o.chunkSize;
    }
  }
}
