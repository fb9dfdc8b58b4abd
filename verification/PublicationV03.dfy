/** What every prefix of the publication steps leaves on the disk (src/receiver_v03.rs, src/completion_receipt.rs). */
module PublicationV03 {
  import opened Prelude
  import opened PayloadsV03
  import opened ReceiverV03
  import opened Storage
  import opened SessionV03

  lemma {:induction false} PublishLength(platform: Platform, n: Name)
    ensures 0 < |PublishPlan(platform, n)| <= 4
  {
  }

  lemma {:induction false} NoActions(d: Disk)
    ensures ApplyAll(d, []) == d
  {
  }

  lemma {:induction false} ActionsKeepWellFormed(d: Disk, actions: seq<Action>)
    requires WellFormed(d)
    ensures WellFormed(ApplyAll(d, actions))
    decreases |actions|
  {
    hide Apply, WellFormed;
    if |actions| > 0 {
      ActionKeepsWellFormed(d, actions[0]);
      ActionsKeepWellFormed(Apply(d, actions[0]), actions[1..]);
    }
  }

  lemma {:induction false} ActionKeepsWellFormed(d: Disk, a: Action)
    requires WellFormed(d)
    ensures WellFormed(Apply(d, a))
  {
  }

  // ----- steps after the hard link -----

  predicate IsCleanup(a: Action, n: Name) {
    a == UnlinkPart(n) || a == RemoveSnapshot(n) || a == RemoveSnapshotTemporary(n)
  }

  /** Same contents, final names and receipts; only the name, snapshot and temporaries of one partial may be gone. */
  ghost predicate CleanedUp(d: Disk, e: Disk, n: Name) {
    && e.inodes == d.inodes && e.finals == d.finals && e.receipts == d.receipts
    && e.parts - {n} == d.parts - {n}
    && (n in e.parts ==> n in d.parts && e.parts[n] == d.parts[n])
  }

  lemma {:induction false} CleanupKeepsFinals(d: Disk, actions: seq<Action>, n: Name)
    requires forall a :: a in actions ==> IsCleanup(a, n)
    ensures CleanedUp(d, ApplyAll(d, actions), n)
    decreases |actions|
  {
    if |actions| > 0 {
      var e := Apply(d, actions[0]);
      assert IsCleanup(actions[0], n);
      assert CleanedUp(d, e, n);
      CleanupKeepsFinals(e, actions[1..], n);
    }
  }

  /** The file published under `n` is the partial file, and its receipt says what it is. */
  ghost predicate PublishedFrom(d: Disk, e: Disk, n: Name) {
    && n in d.parts
    && e.inodes == d.inodes && e.receipts == d.receipts
    && e.finals == d.finals[n := d.parts[n]]
    && e.parts - {n} == d.parts - {n}
    && (n in e.parts ==> e.parts[n] == d.parts[n])
  }

  lemma {:induction false} PublishPrefix(platform: Platform, d: Disk, n: Name, k: nat)
    requires n in d.parts && n !in d.finals && k <= |PublishPlan(platform, n)|
    ensures k == 0 ==> ApplyAll(d, PublishPlan(platform, n)[..k]) == d
    ensures k > 0 ==> PublishedFrom(d, ApplyAll(d, PublishPlan(platform, n)[..k]), n)
  {
    if k > 0 {
      var plan := PublishPlan(platform, n)[..k];
      var e := Apply(d, LinkFinal(n));
      assert plan[0] == LinkFinal(n);
      assert forall i :: 0 < i < k ==> IsCleanup(plan[i], n);
      CleanupKeepsFinals(e, plan[1..], n);
    }
  }

  /** The partial name disappears on Windows only. */
  lemma {:induction false} PublishedPartName(platform: Platform, d: Disk, n: Name)
    requires n in d.parts && n !in d.finals
    ensures var e := ApplyAll(d, PublishPlan(platform, n));
            if platform == Linux then n in e.parts && e.parts[n] == d.parts[n] else n !in e.parts
  {
    if platform == Linux {
      ThreeSteps(d, PublishPlan(platform, n));
    } else {
      FourSteps(d, PublishPlan(platform, n));
    }
  }

  /**
   * The disk after a published file has been cleaned up, field by field: one more final name, on Windows one partial
   * name less, no snapshot and no temporary of it under that name, and every other name and file as it was.
   */
  function Landed(platform: Platform, d: Disk, n: Name): Disk
    requires n in d.parts
  {
    Disk(d.inodes,
         if platform == Windows then d.parts - {n} else d.parts,
         d.finals[n := d.parts[n]],
         d.snapshots - {n},
         d.snapshotTemporaries - {n},
         d.receipts,
         d.receiptTemporaries)
  }

  /**
   * All the steps of a publication, on every disk: the final name is there and the snapshot and its temporary are
   * gone.
   */
  lemma {:induction false} PublicationLands(platform: Platform, d: Disk, n: Name)
    requires n in d.parts && n !in d.finals
    ensures ApplyAll(d, PublishPlan(platform, n)) == Landed(platform, d, n)
    ensures SnapshotOf(Landed(platform, d, n), n) == NoSnapshot
  {
    if platform == Linux {
      ThreeSteps(d, PublishPlan(platform, n));
    } else {
      FourSteps(d, PublishPlan(platform, n));
    }
  }

  // ----- receipt steps -----

  predicate IsTemporaryAction(a: Action) {
    a.RemoveReceiptTemporary? || a.CreateReceiptTemporary? || a.FillReceiptTemporary?
  }

  lemma {:induction false} TemporariesKeepReceipts(d: Disk, actions: seq<Action>)
    requires forall a :: a in actions ==> IsTemporaryAction(a)
    ensures ApplyAll(d, actions).receipts == d.receipts
    decreases |actions|
  {
    if |actions| > 0 {
      assert IsTemporaryAction(actions[0]);
      TemporariesKeepReceipts(Apply(d, actions[0]), actions[1..]);
    }
  }

  /** Until its last step a receipt write changes no receipt; the last step binds exactly the new receipt. */
  lemma {:induction false} ReceiptPrefix(d: Disk, r: Receipt, k: nat)
    requires k <= |ReceiptPlan(d, r).0|
    ensures var e := ApplyAll(d, ReceiptPlan(d, r).0[..k]);
            && SameFiles(d, e)
            && e.receipts == if k == 4 then d.receipts[r.transferId := ReceiptText(r)] else d.receipts
  {
    var plan := ReceiptPlan(d, r).0;
    ReceiptActionsKeepFiles(d, plan[..k]);
    if k == 4 {
      assert plan[..k] == plan;
      FourSteps(d, plan);
    } else {
      assert forall a :: a in plan[..k] ==> IsTemporaryAction(a);
      TemporariesKeepReceipts(d, plan[..k]);
    }
  }

  /** The disk after a receipt has been written, field by field; its temporary has been renamed away. */
  function WithReceipt(d: Disk, r: Receipt): Disk {
    if r.transferId in d.receipts then d
    else
      Disk(d.inodes, d.parts, d.finals, d.snapshots, d.snapshotTemporaries,
           d.receipts[r.transferId := ReceiptText(r)], d.receiptTemporaries - {r.transferId})
  }

  lemma {:induction false} ReceiptLands(d: Disk, r: Receipt)
    ensures ApplyAll(d, ReceiptPlan(d, r).0) == WithReceipt(d, r)
  {
    if r.transferId in d.receipts {
      NoActions(d);
    } else {
      FourSteps(d, ReceiptPlan(d, r).0);
    }
  }

  /**
   * What finalisation leaves, on every disk: a file that does not verify changes nothing, a taken name leaves the
   * receipt and nothing else, and otherwise the receipt is there, the file is published and its snapshot is gone.
   */
  lemma {:induction false} FinalizeLands(H: HashFunction, platform: Platform, d: Disk, r: Receipt)
    requires WellFormed(d) && PartOf(d, r.filename).Some?
    ensures var (actions, result) := FinalizePlan(H, platform, d, r);
            var content := PartOf(d, r.filename).value;
            ApplyAll(d, actions) ==
            if |content| != r.fileSize || H(content) != r.blake3 then d
            else if r.transferId in d.receipts && d.receipts[r.transferId] != ReceiptText(r) then d
            else if r.filename in d.finals then WithReceipt(d, r)
            else Landed(platform, WithReceipt(d, r), r.filename)
  {
    hide Apply, ApplyAll, PublishPlan, Landed;
    NoActions(d);
    ReceiptLands(d, r);
    var first := ReceiptPlan(d, r).0;
    ApplyAppend(d, first, PublishPlan(platform, r.filename));
    if r.filename !in d.finals {
      PublicationLands(platform, WithReceipt(d, r), r.filename);
    }
  }

  // ----- the whole plan -----

  ghost predicate HasReceipt(d: Disk, r: Receipt) {
    r.transferId in d.receipts && ReadReceipt(d, r.transferId) == Ok(r)
  }

  /** Files untouched; the receipt absent or bound to exactly this transfer. */
  ghost predicate Unpublished(d: Disk, e: Disk, r: Receipt) {
    && SameFiles(d, e)
    && (e.receipts == d.receipts
       || (r.transferId !in d.receipts && e.receipts == d.receipts[r.transferId := ReceiptText(r)]))
  }

  /** The partial file has the final name too, and its receipt is readable. */
  ghost predicate Published(d: Disk, e: Disk, r: Receipt) {
    && r.filename in d.parts && r.filename !in d.finals
    && e.inodes == d.inodes && e.finals == d.finals[r.filename := d.parts[r.filename]]
    && (r.filename in e.parts ==> e.parts[r.filename] == d.parts[r.filename])
    && HasReceipt(e, r)
    && (e.receipts == d.receipts
       || (r.transferId !in d.receipts && e.receipts == d.receipts[r.transferId := ReceiptText(r)]))
  }

  lemma {:induction false} SplitPrefix(d: Disk, a: seq<Action>, b: seq<Action>, k: nat)
    requires |a| <= k <= |a| + |b|
    ensures ApplyAll(d, (a + b)[..k]) == ApplyAll(ApplyAll(d, a), b[..k - |a|])
  {
    hide Apply;
    assert (a + b)[..k] == a + b[..k - |a|];
    ApplyAppend(d, a, b[..k - |a|]);
  }

  /** After any number of finalisation steps the file is either not published or published from verified bytes. */
  lemma {:induction false} FinalizePrefix(H: HashFunction, platform: Platform, d: Disk, r: Receipt, k: nat)
    requires WellFormed(d) && PartOf(d, r.filename).Some?
    requires k <= |FinalizePlan(H, platform, d, r).0|
    ensures var (actions, result) := FinalizePlan(H, platform, d, r);
            var e := ApplyAll(d, actions[..k]);
            && (Unpublished(d, e, r) || (Published(d, e, r) && result.Ok?))
            && (result.Ok? && k == |actions| ==> Published(d, e, r))
            && (result.Ok? ==> CheckFile(H, PartOf(d, r.filename).value, r.fileSize, r.blake3).Ok?)
            && |actions| <= 8
  {
    hide Apply, ApplyAll, CheckFile, PublishPlan;
    var (actions, result) := FinalizePlan(H, platform, d, r);
    var first := ReceiptPlan(d, r).0;
    if k <= |first| {
      assert |first| <= |actions| ==> actions[..k] == first[..k] || |actions| == 0;
      PrefixBeforePublish(H, platform, d, r, k);
    } else {
      PrefixWhilePublishing(H, platform, d, r, k);
    }
    PlanLengths(H, platform, d, r);
  }

  lemma {:induction false} PlanLengths(H: HashFunction, platform: Platform, d: Disk, r: Receipt)
    requires PartOf(d, r.filename).Some?
    ensures var (actions, result) := FinalizePlan(H, platform, d, r);
            && |actions| <= 8
            && (result.Ok? ==> |actions| > |ReceiptPlan(d, r).0|)
            && (!result.Ok? ==> |actions| <= |ReceiptPlan(d, r).0|)
  {
  }

  lemma {:induction false} PrefixBeforePublish(H: HashFunction, platform: Platform, d: Disk, r: Receipt, k: nat)
    requires PartOf(d, r.filename).Some?
    requires k <= |FinalizePlan(H, platform, d, r).0| && k <= |ReceiptPlan(d, r).0|
    ensures Unpublished(d, ApplyAll(d, FinalizePlan(H, platform, d, r).0[..k]), r)
    ensures FinalizePlan(H, platform, d, r).1.Ok? ==> k < |FinalizePlan(H, platform, d, r).0|
  {
    hide Apply, ApplyAll, CheckFile, SameFiles;
    var actions, first := FinalizePlan(H, platform, d, r).0, ReceiptPlan(d, r).0;
    assert actions[..k] == first[..k];
    ReceiptPrefix(d, r, k);
  }

  lemma {:induction false} PrefixWhilePublishing(H: HashFunction, platform: Platform, d: Disk, r: Receipt, k: nat)
    requires WellFormed(d) && PartOf(d, r.filename).Some?
    requires |ReceiptPlan(d, r).0| < k <= |FinalizePlan(H, platform, d, r).0|
    ensures FinalizePlan(H, platform, d, r).1.Ok?
    ensures CheckFile(H, PartOf(d, r.filename).value, r.fileSize, r.blake3).Ok?
    ensures Published(d, ApplyAll(d, FinalizePlan(H, platform, d, r).0[..k]), r)
  {
    hide Apply, ApplyAll, CheckFile, PublishPlan;
    var first, second := ReceiptPlan(d, r).0, PublishPlan(platform, r.filename);
    SplitPrefix(d, first, second, k);
    ReceiptPrefix(d, r, |first|);
    assert first[..|first|] == first;
    var middle := ApplyAll(d, first);
    PublishPrefix(platform, middle, r.filename, k - |first|);
  }

  /** Every step of a successful finalisation run: the verified bytes are under the final name. */
  lemma {:induction false} FinalizeSucceeds(H: HashFunction, platform: Platform, d: Disk, r: Receipt)
    requires WellFormed(d) && PartOf(d, r.filename).Some?
    ensures FinalizePlan(H, platform, d, r).1.Ok? <==>
            && CheckFile(H, PartOf(d, r.filename).value, r.fileSize, r.blake3).Ok?
            && (r.transferId in d.receipts ==> HasReceipt(d, r))
            && r.filename !in d.finals
  {
  }
}
