/**
 * What a WFP/0.3 transfer leaves, cut, completed or uninterrupted, on every disk (src/receiver_v03.rs,
 * src/chunk_state.rs).
 */
module StabilisationV03 {
  import opened Prelude
  import opened ChunkLayout
  import opened ChunkState
  import opened Frames
  import opened PayloadsV03
  import opened ReceiverV03
  import opened ReceiverInvariants
  import opened SenderV03
  import opened InventoryV03
  import opened PrepareV03
  import opened TransferV03
  import opened Storage
  import opened SessionV03
  import opened PublicationV03

  ghost function ResidueOf(d: Disk, n: Name): Residue {
    Residue(PartOf(d, n), SnapshotOf(d, n))
  }

  /** Reused chunks of the file the session finds do not collide with the source's. */
  ghost predicate NoReuseCollision(env: Environment, d: Disk, o: FileOffer, source: Bytes)
    requires HonestOffer(o, source)
  {
    NoChunkCollision(env.H, PreparedState(env.H, d, o.filename, LayoutOf(o)), source)
  }

  /** A file the verification cannot tell from the source. */
  ghost predicate SameDigest(H: HashFunction, source: Bytes, content: Bytes) {
    |content| == |source| && H(content) == H(source)
  }

  lemma {:induction false} PreparedShape(H: HashFunction, d: Disk, n: Name, l: Layout)
    ensures var s := PreparedState(H, d, n, l);
            && Inv(H, s) && InRange(l, s.rx.records) && |s.rx.records| < U64_LIMIT
            && s.rx.layout == l && s.rx.active.None? && s.rx.lastChunkIndex.None?
            && s.rx.records == PreparedRecords(H, l, PartOf(d, n), SnapshotOf(d, n))
  {
    hide Inv, InRange, PreparedRecords;
    PreparedSmall(H, d, n, l);
    PreparedInv(H, l, PartOf(d, n), SnapshotOf(d, n));
  }

  // ----- an attempt's transfer is a cut session -----

  /** Where the transfer of an attempt is cut, in whole frames and bytes of the next write. */
  ghost function CutOf(H: HashFunction, l: Layout, source: Bytes, inventory: seq<RecordedChunk>, cut: Cut): SessionCut {
    var n := Seen(H, l, source, inventory, cut.transferBytes);
    if cut.stop.Some? && cut.stop.value.frames < n then SessionCut(cut.stop.value.frames, Some(cut.stop.value.written))
    else SessionCut(n, None)
  }

  /** Running until the stop is running the frames before it. */
  lemma {:induction false} RunUntilLeaves(H: HashFunction, s: State, frames: seq<Frame>, n: nat, stop: Option<Stop>,
                                          end: ProtocolIoError)
    requires n <= |frames|
    ensures var t := RunUntil(H, s, frames[..n], stop, end).state;
            if stop.Some? && stop.value.frames < n then
              var p := Run(H, s, frames[..stop.value.frames]);
              t.store == if p.More? then TornStore(p.state, frames[stop.value.frames], stop.value.written)
                  else p.state.store
            else t == Run(H, s, frames[..n]).state
  {
    hide Run, TornStore;
    if stop.Some? && stop.value.frames < n {
      var x := stop.value.frames;
      assert frames[..n][..x] == frames[..x];
      assert frames[..n] == frames[..x] + frames[x..n];
      RunAppend(H, s, frames[..x], frames[x..n]);
    }
  }

  /** What the transfer of an attempt leaves is what the corresponding cut session leaves. */
  lemma {:induction false} TransferLeavesCut(env: Environment, d: Disk, o: FileOffer, source: Bytes, cut: Cut)
    requires HonestOffer(o, source)
    ensures var l := LayoutOf(o);
            var s := PreparedState(env.H, d, o.filename, l);
            && |s.rx.records| < U64_LIMIT
            && (Transfer(env.H, l, source, s, cut).Some? ==>
                  var store := Transfer(env.H, l, source, s, cut).value.state.store;
                  Residue(Some(store.part), store.snapshot) ==
                  AfterCut(env.H, l, source, ResidueOf(d, o.filename), CutOf(env.H, l, source, s.rx.records, cut)))
  {
    hide Transfer, SentFrames, Run, RunUntil, TornStore, InRange, FrameBytes, Seen, Prepared;
    var l := LayoutOf(o);
    var s := PreparedState(env.H, d, o.filename, l);
    PreparedShapeOnly(env.H, d, o.filename, l);
    TransferIsPrefixRun(env.H, l, source, s, cut);
    RunUntilLeaves(env.H, s, SentFrames(env.H, l, source, s.rx.records),
                   Seen(env.H, l, source, s.rx.records, cut.transferBytes), cut.stop, UnexpectedEof);
  }

  lemma {:induction false} PreparedShapeOnly(H: HashFunction, d: Disk, n: Name, l: Layout)
    ensures var s := PreparedState(H, d, n, l);
            && InRange(l, s.rx.records) && |s.rx.records| < U64_LIMIT
            && s.rx.records == PreparedRecords(H, l, PartOf(d, n), SnapshotOf(d, n))
  {
    PreparedShape(H, d, n, l);
  }

  /** Preparing alone is a session cut before its first frame. */
  lemma {:induction false} PreparingLeavesCut(env: Environment, d: Disk, o: FileOffer, source: Bytes)
    requires HonestOffer(o, source)
    ensures ResidueOf(PreparedDisk(d, o.filename, o.fileSize), o.filename) ==
            AfterCut(env.H, LayoutOf(o), source, ResidueOf(d, o.filename), SessionCut(0, None))
  {
    hide SentFrames, PreparedRecords, SetLength;
    var s := PreparedState(env.H, d, o.filename, LayoutOf(o));
    assert SentFrames(env.H, LayoutOf(o), source, s.rx.records)[..0] == [];
  }

  // ----- a completed transfer -----

  /** Only the whole of an honest transfer completes it. */
  lemma {:induction false} CompletedRunsAll(H: HashFunction, source: Bytes, begin: State, n: nat)
    requires Inv(H, begin) && begin.rx.active.None? && begin.rx.lastChunkIndex.None?
    requires |source| == begin.rx.layout.fileSize
    requires n <= |SentFrames(H, begin.rx.layout, source, begin.rx.records)|
    requires Run(H, begin, SentFrames(H, begin.rx.layout, source, begin.rx.records)[..n]).Completed?
    ensures n == |SentFrames(H, begin.rx.layout, source, begin.rx.records)|
  {
    hide Inv, Run, FramesBelow, TransferFrames, SettledBelow;
    var l := begin.rx.layout;
    var below := FramesBelow(H, l, source, begin.rx.records, ChunkCount(l));
    RunBelow(H, source, begin, ChunkCount(l));
    AllFrames(H, l, source, begin.rx.records);
    if n <= |below| {
      assert SentFrames(H, l, source, begin.rx.records)[..n] == below[..n];
      assert below == below[..n] + below[n..];
      RunAppend(H, begin, below[..n], below[n..]);
    }
  }

  /** The run of a completed honest transfer: every chunk settled, the announced hash the source's. */
  lemma {:induction false} CompletedRun(env: Environment, d: Disk, o: FileOffer, source: Bytes, cut: Cut)
    requires HonestOffer(o, source) && CompletesTransfer(env, d, o, source, cut)
    ensures var l := LayoutOf(o);
            var s := PreparedState(env.H, d, o.filename, l);
            var frames := SentFrames(env.H, l, source, s.rx.records);
            && |s.rx.records| < U64_LIMIT
            && Transfer(env.H, l, source, s, cut) == Some(Run(env.H, s, frames))
            && CutOf(env.H, l, source, s.rx.records, cut).frames == |frames|
  {
    hide Transfer, SentFrames, Run, TornStore, Inv, InRange, FrameBytes, Seen, PreparedState;
    var l := LayoutOf(o);
    var s := PreparedState(env.H, d, o.filename, l);
    PreparedShape(env.H, d, o.filename, l);
    TransferIsPrefixRun(env.H, l, source, s, cut);
    var frames := SentFrames(env.H, l, source, s.rx.records);
    var n := Seen(env.H, l, source, s.rx.records, cut.transferBytes);
    CompletedRunsAll(env.H, source, s, n);
    assert frames[..|frames|] == frames;
    StopsBeforeEnd(env.H, s, frames, source, cut.stop);
  }

  /** A stop inside a completed transfer would have kept it from completing. */
  lemma {:induction false} StopsBeforeEnd(H: HashFunction, s: State, frames: seq<Frame>, source: Bytes,
                                          stop: Option<Stop>)
    requires Inv(H, s) && s.rx.active.None? && s.rx.lastChunkIndex.None? && |source| == s.rx.layout.fileSize
    requires frames == SentFrames(H, s.rx.layout, source, s.rx.records)
    requires RunUntil(H, s, frames, stop, UnexpectedEof).Completed?
    ensures !(stop.Some? && stop.value.frames < |frames|)
  {
    hide Run, Inv, SentFrames;
    if stop.Some? && stop.value.frames < |frames| {
      assert frames == frames[..stop.value.frames] + frames[stop.value.frames..];
      RunAppend(H, s, frames[..stop.value.frames], frames[stop.value.frames..]);
      CompletedRunsAll(H, source, s, stop.value.frames);
    }
  }

  /** COMPLETE is accepted at the end of this attempt's transfer. */
  ghost predicate CompletesTransfer(env: Environment, d: Disk, o: FileOffer, source: Bytes, cut: Cut)
    requires HonestOffer(o, source)
  {
    PreparedSmall(env.H, d, o.filename, LayoutOf(o));
    var end := Transfer(env.H, LayoutOf(o), source, PreparedState(env.H, d, o.filename, LayoutOf(o)), cut);
    end.Some? && end.value.Completed?
  }

  /** The partial file when the transfer of an attempt ends. */
  ghost function ReceivedFile(env: Environment, d: Disk, o: FileOffer, source: Bytes, cut: Cut): Bytes
    requires HonestOffer(o, source) && CompletesTransfer(env, d, o, source, cut)
  {
    PreparedSmall(env.H, d, o.filename, LayoutOf(o));
    Transfer(env.H, LayoutOf(o), source, PreparedState(env.H, d, o.filename, LayoutOf(o)), cut).value.state.store.part
  }

  /**
   * However the connection was cut, once COMPLETE is accepted it carried the source's hash, every chunk is on disk and
   * recorded with the source's hash, and the file is the source exactly when no reused chunk collided.
   */
  lemma {:induction false} CompletedTransfer(env: Environment, d: Disk, o: FileOffer, source: Bytes, cut: Cut)
    requires HonestOffer(o, source) && CompletesTransfer(env, d, o, source, cut)
    ensures var l := LayoutOf(o);
            var s := PreparedState(env.H, d, o.filename, l);
            && |s.rx.records| < U64_LIMIT
            && var end := Transfer(env.H, l, source, s, cut).value;
            && end.fileHash == env.H(source)
            && end.state.store.part == ReceivedFile(env, d, o, source, cut)
            && |end.state.store.part| == o.fileSize
            && (end.state.store.part == source <==> NoReuseCollision(env, d, o, source))
            && forall k: u64 :: k < ChunkCount(l) ==>
                 Good(env.H, l, source, Residue(Some(end.state.store.part), end.state.store.snapshot), k)
  {
    hide Transfer, PreparedState, SentFrames, Run, Inv, InRange, NoChunkCollision, SettledBelow, Good, AfterCut, CutOf,
         FramesBelow;
    var l := LayoutOf(o);
    var s := PreparedState(env.H, d, o.filename, l);
    PreparedShape(env.H, d, o.filename, l);
    CompletedRun(env, d, o, source, cut);
    HonestTransfer(env.H, source, s);
    var t := Run(env.H, s, SentFrames(env.H, l, source, s.rx.records)).state;
    SettledFileIsSourceIff(env.H, source, s, t);
    SettledIsIdle(env.H, source, s, t);
    InvHasNoPending(env.H, t);
    TransferLeavesCut(env, d, o, source, cut);
    forall k: u64 | k < ChunkCount(l)
      ensures Good(env.H, l, source, Residue(Some(t.store.part), t.store.snapshot), k)
    {
      BelowIsPart(env.H, l, source, s.rx.records, ChunkCount(l));
      DeliveredIsGood(env.H, l, source, ResidueOf(d, o.filename), CutOf(env.H, l, source, s.rx.records, cut),
          ChunkCount(l), k);
    }
  }

  /** Without a cut the transfer completes, from every disk state. */
  lemma {:induction false} UncutTransfer(env: Environment, d: Disk, o: FileOffer, source: Bytes, cut: Cut)
    requires HonestOffer(o, source) && EnoughBytes(env, d, o, source, cut)
    ensures CompletesTransfer(env, d, o, source, cut)
  {
    hide Transfer, PreparedState, PreparedRecords, SentFrames, Run, Inv, InRange, SettledBelow, SenderStream,
         InventoryStream, FrameBytes;
    var l := LayoutOf(o);
    var s := PreparedState(env.H, d, o.filename, l);
    PreparedShape(env.H, d, o.filename, l);
    TransferIsPrefixRun(env.H, l, source, s, cut);
    SeenAll(env.H, l, source, s.rx.records, cut.transferBytes);
    AcceptFits(env.H, l, source, s.rx.records);
    var frames := SentFrames(env.H, l, source, s.rx.records);
    assert frames[..|frames|] == frames;
    HonestTransfer(env.H, source, s);
  }

  lemma {:induction false} AcceptFits(H: HashFunction, l: Layout, source: Bytes, inventory: seq<RecordedChunk>)
    ensures |FrameBytes(AcceptFrame())| <= |SenderStream(H, l, source, inventory)|
  {
  }

  // ----- publication of what was received -----

  lemma {:induction false} AllStepsRun(d: Disk, actions: seq<Action>, k: nat)
    requires k >= |actions|
    ensures ApplyAll(d, actions[..Min(k, |actions|)]) == ApplyAll(d, actions)
  {
    hide ApplyAll;
    assert actions[..|actions|] == actions;
  }

  /** Every step of finalisation run: the file is published exactly when it verifies and its name is free. */
  lemma {:induction false} PublishReceived(env: Environment, after: Disk, o: FileOffer, source: Bytes, content: Bytes,
                                           cut: Cut)
    requires HonestOffer(o, source) && WellFormed(after) && PartOf(after, o.filename) == Some(content)
    requires |content| == o.fileSize && o.transferId !in after.receipts && cut.storageSteps >= 8
    ensures var r := ReceiptFor(env.H, o, source);
            var (e, ok) := Publish(env, after, r, cut);
            if o.filename in after.finals || !SameDigest(env.H, source, content) then !ok && Unpublished(after, e, r)
            else ok == cut.replied && Published(after, e, r) && FinalOf(e, o.filename) == Some(content)
  {
    hide ApplyAll, FinalizePlan, Unpublished, HasReceipt;
    var r := ReceiptFor(env.H, o, source);
    var (actions, result) := FinalizePlan(env.H, env.platform, after, r);
    FinalizeSucceeds(env.H, env.platform, after, r);
    FinalizePrefix(env.H, env.platform, after, r, |actions|);
    AllStepsRun(after, actions, cut.storageSteps);
    assert actions[..|actions|] == actions;
  }

  /** What the transfer itself did to the disk, before anything is published. */
  ghost predicate Transferred(d: Disk, after: Disk, n: Name, content: Bytes) {
    && WellFormed(after) && PartOf(after, n) == Some(content)
    && after.finals == d.finals && after.receipts == d.receipts
    && (n in d.parts ==> after.parts == d.parts)
    && (forall m :: m in d.finals && !(n in d.parts && d.parts[n] == d.finals[m]) ==>
       FinalOf(after, m) == FinalOf(d, m))
  }

  lemma {:induction false} CommitTransfers(d: Disk, n: Name, size: u64, store: Store)
    requires WellFormed(d)
    ensures Transferred(d, Committed(PreparedDisk(d, n, size), n, store), n, store.part)
  {
    hide SetLength, SnapshotOf;
  }

  /** An uninterrupted attempt, in terms of the disk it found. */
  lemma {:induction false} UncutAttempt(env: Environment, d: Disk, o: FileOffer, source: Bytes, cut: Cut)
    returns (after: Disk)
    requires HonestOffer(o, source) && WellFormed(d) && o.transferId !in d.receipts
    requires Uncut(env, d, o, source, cut)
    ensures CompletesTransfer(env, d, o, source, cut)
    ensures var content := ReceivedFile(env, d, o, source, cut);
            && Transferred(d, after, o.filename, content)
            && (content == source <==> NoReuseCollision(env, d, o, source))
            && var r := ReceiptFor(env.H, o, source);
            && Attempt(env, d, o, source, cut) == Publish(env, after, r, cut)
            && var (e, ok) := Attempt(env, d, o, source, cut);
               if o.filename in d.finals || !SameDigest(env.H, source, content) then !ok && Unpublished(after, e, r)
               else ok && Published(after, e, r) && FinalOf(e, o.filename) == Some(content)
  {
    hide Transfer, PreparedState, NoReuseCollision, EnoughBytes, Publish, Unpublished, Published, Committed,
         PreparedDisk, Good, Attempt, SameDigest;
    UncutTransfer(env, d, o, source, cut);
    CompletedTransfer(env, d, o, source, cut);
    AttemptCases(env, d, o, source, cut);
    var s := PreparedState(env.H, d, o.filename, LayoutOf(o));
    var end := Transfer(env.H, LayoutOf(o), source, s, cut).value;
    after := Committed(PreparedDisk(d, o.filename, o.fileSize), o.filename, end.state.store);
    CommitTransfers(d, o.filename, o.fileSize, end.state.store);
    PublishReceived(env, after, o, source, end.state.store.part, cut);
  }

  // ----- what a published transfer leaves -----

  /** The disk once the partial name holds `content`; the file keeps its inode if it has one. */
  function Holding(d: Disk, n: Name, content: Bytes): (e: Disk)
    ensures n in e.parts
  {
    if n in d.parts then
      if d.parts[n] < |d.inodes| then d.(inodes := d.inodes[d.parts[n] := content]) else d
    else d.(inodes := d.inodes + [content], parts := d.parts[n := |d.inodes|])
  }

  /** The disk a session leaves that published `content`: receipt and final name there, no snapshot of it left. */
  function Deposited(env: Environment, d: Disk, o: FileOffer, content: Bytes): Disk {
    Landed(env.platform,
           WithReceipt(Holding(d, o.filename, content),
                       Receipt(o.transferId, o.filename, o.fileSize, env.H(content))),
           o.filename)
  }

  /** What VERIFIED means for the disk: nothing changed, or exactly one file of the offered size was delivered. */
  ghost predicate Settles(env: Environment, d: Disk, e: Disk, o: FileOffer) {
    if o.filename in d.finals then e == d
    else
      && FinalOf(e, o.filename).Some?
      && |FinalOf(e, o.filename).value| == o.fileSize
      && e == Deposited(env, d, o, FinalOf(e, o.filename).value)
  }

  /** The snapshot under `n` and its temporary are gone; those of every other name are as they were. */
  ghost predicate SnapshotDropped(d: Disk, e: Disk, n: Name) {
    && SnapshotOf(e, n) == NoSnapshot && n !in e.snapshotTemporaries
    && forall m :: m != n ==>
         && SnapshotOf(e, m) == SnapshotOf(d, m)
         && (m in e.snapshotTemporaries <==> m in d.snapshotTemporaries)
  }

  /** Beside the delivered file no name lost or gained anything, and no snapshot or temporary of it is left. */
  lemma {:induction false} SettlesCleansUp(env: Environment, d: Disk, e: Disk, o: FileOffer)
    requires WellFormed(d) && Settles(env, d, e, o) && o.filename !in d.finals
    ensures SnapshotDropped(d, e, o.filename)
    ensures o.filename in e.parts <==> env.platform == Linux
    ensures o.transferId !in d.receipts ==> o.transferId !in e.receiptTemporaries
  {
    hide Holding, WellFormed;
    HoldingKeepsRest(d, o.filename, FinalOf(e, o.filename).value);
  }

  lemma {:induction false} HoldingKeepsRest(d: Disk, n: Name, content: Bytes)
    ensures var e := Holding(d, n, content);
            && e.snapshots == d.snapshots && e.snapshotTemporaries == d.snapshotTemporaries
            && e.finals == d.finals && e.receipts == d.receipts && e.receiptTemporaries == d.receiptTemporaries
            && e.parts - {n} == d.parts - {n}
  {
  }

  lemma {:induction false} CommittedHolds(d: Disk, n: Name, size: u64, store: Store)
    requires WellFormed(d)
    ensures var after := Committed(PreparedDisk(d, n, size), n, store);
            && after == Holding(d, n, store.part).(snapshots := after.snapshots)
            && after.snapshots - {n} == d.snapshots - {n}
  {
    hide SetLength, PartOf, SnapshotOf;
    var ready := PreparedDisk(d, n, size);
    var i := ready.parts[n];
    assert ready == d.(inodes := ready.inodes, parts := ready.parts);
    assert ready.inodes[i := store.part] == Holding(d, n, store.part).inodes;
  }

  lemma {:induction false} LandingDropsSnapshot(platform: Platform, d: Disk, e: Disk, r: Receipt)
    requires r.filename in d.parts
    requires e == d.(snapshots := e.snapshots) && e.snapshots - {r.filename} == d.snapshots - {r.filename}
    ensures Landed(platform, WithReceipt(e, r), r.filename) == Landed(platform, WithReceipt(d, r), r.filename)
  {
  }

  /** Publishing drops the snapshot, so the delivery does not depend on what the transfer saved in it. */
  lemma {:induction false} CommittedDeposits(env: Environment, d: Disk, o: FileOffer, store: Store)
    requires WellFormed(d)
    ensures var after := Committed(PreparedDisk(d, o.filename, o.fileSize), o.filename, store);
            var r := Receipt(o.transferId, o.filename, o.fileSize, env.H(store.part));
            Landed(env.platform, WithReceipt(after, r), o.filename) == Deposited(env, d, o, store.part)
  {
    hide Holding, PreparedDisk, Committed, WellFormed, Landed, WithReceipt;
    var n := o.filename;
    var after := Committed(PreparedDisk(d, n, o.fileSize), n, store);
    CommittedHolds(d, n, o.fileSize, store);
    HoldingKeepsRest(d, n, store.part);
    var r := Receipt(o.transferId, n, o.fileSize, env.H(store.part));
    LandingDropsSnapshot(env.platform, Holding(d, n, store.part), after, r);
  }

  lemma {:induction false} FinalizedSettles(env: Environment, d: Disk, o: FileOffer, store: Store, hash: Digest,
                                            cut: Cut)
    requires WellFormed(d)
    requires var after := Committed(PreparedDisk(d, o.filename, o.fileSize), o.filename, store);
             Publish(env, after, Receipt(o.transferId, o.filename, o.fileSize, hash), cut).1
    ensures var after := Committed(PreparedDisk(d, o.filename, o.fileSize), o.filename, store);
            Settles(env, d, Publish(env, after, Receipt(o.transferId, o.filename, o.fileSize, hash), cut).0, o)
  {
    hide ApplyAll, FinalizePlan, PreparedDisk, Committed, Landed, WithReceipt, Holding;
    var after := Committed(PreparedDisk(d, o.filename, o.fileSize), o.filename, store);
    var r := Receipt(o.transferId, o.filename, o.fileSize, hash);
    var actions := FinalizePlan(env.H, env.platform, after, r).0;
    CommitTransfers(d, o.filename, o.fileSize, store);
    FinalizeSucceeds(env.H, env.platform, after, r);
    FinalizeLands(env.H, env.platform, after, r);
    CommittedDeposits(env, d, o, store);
    ReceiptNamesFile(after, r);
    assert actions[..|actions|] == actions;
    LandedFinal(env.platform, WithReceipt(after, r), o.filename);
  }

  lemma {:induction false} ReceiptNamesFile(d: Disk, r: Receipt)
    ensures PartOf(WithReceipt(d, r), r.filename) == PartOf(d, r.filename)
    ensures WithReceipt(d, r).finals == d.finals
    ensures r.filename in d.parts ==> r.filename in WithReceipt(d, r).parts
    ensures HasReceipt(d, r) ==> d.receipts[r.transferId] == ReceiptText(r)
  {
  }

  lemma {:induction false} LandedFinal(platform: Platform, d: Disk, n: Name)
    requires PartOf(d, n).Some?
    ensures FinalOf(Landed(platform, d, n), n) == PartOf(d, n)
  {
  }

  lemma {:induction false} ReconciledSettles(env: Environment, d: Disk, o: FileOffer)
    requires WellFormed(d) && ReconcilePlan(env.H, env.platform, d, o).1 == Ok(Reconciled)
    ensures Settles(env, d, ApplyAll(d, ReconcilePlan(env.H, env.platform, d, o).0), o)
  {
    hide ApplyAll, PublishPlan;
    if o.filename in d.finals {
      NoActions(d);
    } else {
      PublicationLands(env.platform, d, o.filename);
      assert d.inodes[d.parts[o.filename] := d.inodes[d.parts[o.filename]]] == d.inodes;
    }
  }

  /**
   * Whatever bytes arrive after the OFFER and wherever the session is stopped: when VERIFIED is sent, an existing final
   * file means that nothing on the disk was changed, and otherwise the disk is the one found plus exactly the delivery.
   */
  lemma {:induction false} VerifiedSettles(env: Environment, d: Disk, o: FileOffer, stream: Bytes, cut: Cut)
    requires WellFormed(d) && o.chunkSize > 0
    requires Served(env, d, o, stream, cut).1
    ensures Settles(env, d, Served(env, d, o, stream, cut).0, o)
  {
    hide Settles, Publish, Received, PreparedState, ApplyAll, WellFormed, SetLength, CheckFile;
    var (actions, outcome) := ReconcilePlan(env.H, env.platform, d, o);
    if outcome == Ok(NotReconciled) {
      var end := Received(env.H, PreparedState(env.H, d, o.filename, LayoutOf(o)), stream, cut.stop).value;
      FinalizedSettles(env, d, o, end.state.store, end.fileHash, cut);
    } else {
      assert outcome.value == Reconciled;
      assert actions[..|actions|] == actions;
      ReconciledSettles(env, d, o);
    }
  }

  /**
   * Self-stabilisation: from every well-formed disk without a receipt for the transfer and without the final file,
   * whatever partial file and snapshot it holds, an uninterrupted attempt ends in VERIFIED with the source published,
   * exactly when no chunk it reuses is a hash collision with the source's chunk. Then the disk is the one found plus
   * the delivered source, and the transfer's snapshot is gone.
   */
  lemma {:induction false} SelfStabilising(env: Environment, d: Disk, o: FileOffer, source: Bytes, cut: Cut)
    requires HonestOffer(o, source) && WellFormed(d)
    requires o.transferId !in d.receipts && o.filename !in d.finals
    requires Uncut(env, d, o, source, cut)
    ensures var (e, ok) := Attempt(env, d, o, source, cut);
            && (ok && FinalOf(e, o.filename) == Some(source) <==> NoReuseCollision(env, d, o, source))
            && (NoReuseCollision(env, d, o, source) ==> e == Deposited(env, d, o, source))
            && (ok ==> SnapshotDropped(d, e, o.filename))
  {
    hide Attempt, Publish, NoReuseCollision, Uncut, CompletesTransfer, ReceivedFile, Transferred, Published,
         SnapshotDropped, Deposited;
    var after := UncutAttempt(env, d, o, source, cut);
    AttemptSettles(env, d, o, source, cut);
  }

  /** An attempt that ends in VERIFIED settles the disk, and drops the snapshot unless the file was there already. */
  lemma {:induction false} AttemptSettles(env: Environment, d: Disk, o: FileOffer, source: Bytes, cut: Cut)
    requires HonestOffer(o, source) && WellFormed(d)
    ensures var (e, ok) := Attempt(env, d, o, source, cut);
            ok ==> Settles(env, d, e, o) && (o.filename !in d.finals ==> SnapshotDropped(d, e, o.filename))
  {
    hide Settles, SnapshotDropped, Served, Delivery, WellFormed;
    if Attempt(env, d, o, source, cut).1 {
      VerifiedSettles(env, d, o, Delivery(env, d, o, source, cut), cut);
      if o.filename !in d.finals {
        SettlesCleansUp(env, d, Attempt(env, d, o, source, cut).0, o);
      }
    }
  }
}
