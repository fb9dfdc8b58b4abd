/**
 * Completion receipts under interleaving: several writers of one transfer ID and a rival (src/completion_receipt.rs).
 */
module ReceiptRace {
  import opened Prelude
  import opened Storage

  // ----- worlds -----

  /** An inode whose text is not complete does not decode. */
  datatype Content = Incomplete | Text(receipt: Receipt)

  datatype Stage =
    | CheckExisting
    | CompareExisting
    | RemoveTemporary
    | CreateTemporary
    | FillTemporary
    | Rename
    | ValidateIdentity
    | Succeeded
    | Failed

  datatype Writer = Writer(receipt: Receipt, stage: Stage, handle: Option<nat>)

  /** `bound` and `temporary` are what the receipt name and the shared temporary name refer to. */
  datatype World = World(inodes: seq<Content>, bound: Option<nat>, temporary: Option<nat>, writers: seq<Writer>)

  /**
   * One step of anybody: a writer starts or advances, or a rival writes an inode nobody in the program holds,
   * puts one under the temporary name, or publishes one under the receipt name without replacing.
   */
  datatype Event =
    | Starts(receipt: Receipt)
    | Advances(writer: nat)
    | RivalCreates(content: Content)
    | RivalFills(inode: nat, receipt: Receipt)
    | RivalTakesTemporary(inode: nat)
    | RivalPublishes(inode: nat)

  ghost predicate Held(w: World, inode: nat) {
    exists i :: 0 <= i < |w.writers| && w.writers[i].handle == Some(inode)
  }

  function Move(w: World, i: nat, stage: Stage): World
    requires i < |w.writers|
  {
    w.(writers := w.writers[i := w.writers[i].(stage := stage)])
  }

  /** Removal of receipts is not part of the program's runs. */
  function Advance(w: World, i: nat): World
    requires i < |w.writers|
  {
    var me := w.writers[i];
    match me.stage
    case CheckExisting => Move(w, i, if w.bound.Some? then CompareExisting else RemoveTemporary)
    case CompareExisting =>
      if w.bound.Some? && w.bound.value < |w.inodes| && w.inodes[w.bound.value] == Text(me.receipt)
      then Move(w, i, Succeeded) else Move(w, i, Failed)
    case RemoveTemporary => Move(w, i, CreateTemporary).(temporary := None)
    case CreateTemporary =>
      if w.temporary.Some? then Move(w, i, Failed)
      else
        w.(inodes := w.inodes + [Incomplete],
           temporary := Some(|w.inodes|),
           writers := w.writers[i := Writer(me.receipt, FillTemporary, Some(|w.inodes|))])
    case FillTemporary =>
      if me.handle.Some? && me.handle.value < |w.inodes|
      then Move(w, i, Rename).(inodes := w.inodes[me.handle.value := Text(me.receipt)])
      else w
    case Rename =>
      if w.temporary.None? then Move(w, i, Failed)
      else if w.bound.Some? then Move(w, i, CompareExisting)
      else Move(w, i, ValidateIdentity).(bound := w.temporary, temporary := None)
    case ValidateIdentity => Move(w, i, if w.bound == me.handle then Succeeded else Failed)
    case Succeeded => w
    case Failed => w
  }

  ghost function Next(w: World, e: Event): World {
    match e
    case Starts(r) => w.(writers := w.writers + [Writer(r, CheckExisting, None)])
    case Advances(i) => if i < |w.writers| then Advance(w, i) else w
    case RivalCreates(c) => w.(inodes := w.inodes + [c])
    case RivalFills(n, r) =>
      if n < |w.inodes| && !Held(w, n) && w.inodes[n].Incomplete? then w.(inodes := w.inodes[n := Text(r)]) else w
    case RivalTakesTemporary(n) => if n < |w.inodes| && !Held(w, n) then w.(temporary := Some(n)) else w
    case RivalPublishes(n) => if n < |w.inodes| && !Held(w, n) && w.bound.None? then w.(bound := Some(n)) else w
  }

  ghost function After(w: World, events: seq<Event>): World
    decreases |events|
  {
    if |events| == 0 then w else After(Next(w, events[0]), events[1..])
  }

  // ----- what every step keeps -----

  ghost predicate WriterInv(w: World, i: nat)
    requires i < |w.writers|
  {
    var me := w.writers[i];
    && (me.handle.Some? ==> me.handle.value < |w.inodes|)
    && (me.stage == FillTemporary ==> me.handle.Some? && w.inodes[me.handle.value] == Incomplete)
    && (me.stage == Rename || me.stage == ValidateIdentity ==>
          me.handle.Some? && w.inodes[me.handle.value] == Text(me.receipt))
    && (me.stage == ValidateIdentity ==> w.bound.Some?)
    && (me.stage == Succeeded ==>
          w.bound.Some? && w.bound.value < |w.inodes| && w.inodes[w.bound.value] == Text(me.receipt))
  }

  ghost predicate WorldInv(w: World) {
    && (w.bound.Some? ==> w.bound.value < |w.inodes|)
    && (w.temporary.Some? ==> w.temporary.value < |w.inodes|)
    && (forall i :: 0 <= i < |w.writers| ==> WriterInv(w, i))
    && (forall i, j :: 0 <= i < j < |w.writers| && w.writers[i].handle.Some? ==>
       w.writers[i].handle != w.writers[j].handle)
  }

  /** The order between an earlier and a later world: names stay bound, complete texts stay, successes stay. */
  ghost predicate Evolves(v: World, w: World) {
    && (v.bound.Some? ==> w.bound == v.bound)
    && |v.inodes| <= |w.inodes|
    && (forall n :: 0 <= n < |v.inodes| && v.inodes[n].Text? ==> w.inodes[n] == v.inodes[n])
    && |v.writers| <= |w.writers|
    && (forall i :: 0 <= i < |v.writers| ==>
          w.writers[i].receipt == v.writers[i].receipt
              && (v.writers[i].stage == Succeeded ==> w.writers[i].stage == Succeeded))
  }

  /** Writers other than `i` only depend on inodes that are complete or their own. */
  lemma {:induction false} OthersUnaffected(v: World, w: World, i: nat)
    requires WorldInv(v) && i < |v.writers| == |w.writers|
    requires |v.inodes| <= |w.inodes| && (v.bound.Some? ==> w.bound == v.bound)
    requires forall j :: 0 <= j < |v.writers| && j != i ==> w.writers[j] == v.writers[j]
    requires forall n :: 0 <= n < |v.inodes| && w.inodes[n] != v.inodes[n] ==>
               v.inodes[n] == Incomplete && v.writers[i].handle == Some(n)
    ensures forall j :: 0 <= j < |w.writers| && j != i ==> WriterInv(w, j)
  {
    forall j | 0 <= j < |w.writers| && j != i
      ensures WriterInv(w, j)
    {
      assert WriterInv(v, j);
    }
  }

  lemma {:induction false} AdvanceKeepsWriter(w: World, i: nat)
    requires WorldInv(w) && i < |w.writers|
    ensures WriterInv(Advance(w, i), i)
  {
    assert WriterInv(w, i);
  }

  lemma {:induction false} AdvanceEvolves(w: World, i: nat)
    requires WorldInv(w) && i < |w.writers|
    ensures Evolves(w, Advance(w, i))
  {
    assert WriterInv(w, i);
  }

  lemma {:induction false} AdvanceKeepsInv(w: World, i: nat)
    requires WorldInv(w) && i < |w.writers|
    ensures WorldInv(Advance(w, i))
  {
    hide WriterInv;
    var x := Advance(w, i);
    AdvanceKeepsWriter(w, i);
    AdvanceTouches(w, i);
    OthersUnaffected(w, x, i);
    AdvanceHandles(w, i);
  }

  lemma {:induction false} AdvanceTouches(w: World, i: nat)
    requires WorldInv(w) && i < |w.writers|
    ensures var x := Advance(w, i);
            && |w.inodes| <= |x.inodes| && |x.writers| == |w.writers| && (w.bound.Some? ==> x.bound == w.bound)
            && (x.bound.Some? ==> x.bound.value < |x.inodes|) && (x.temporary.Some? ==> x.temporary.value < |x.inodes|)
            && (forall j :: 0 <= j < |w.writers| && j != i ==> x.writers[j] == w.writers[j])
            && (forall n :: 0 <= n < |w.inodes| && x.inodes[n] != w.inodes[n] ==>
                  w.inodes[n] == Incomplete && w.writers[i].handle == Some(n))
  {
    assert WriterInv(w, i);
  }

  lemma {:induction false} AdvanceHandles(w: World, i: nat)
    requires WorldInv(w) && i < |w.writers|
    ensures var x := Advance(w, i);
            forall j, k :: 0 <= j < k < |x.writers| && x.writers[j].handle.Some? ==>
                x.writers[j].handle != x.writers[k].handle
  {
    forall j | 0 <= j < |w.writers|
      ensures w.writers[j].handle.Some? ==> w.writers[j].handle.value < |w.inodes|
    {
      assert WriterInv(w, j);
    }
  }

  lemma {:induction false} RivalKeepsInv(w: World, e: Event)
    requires WorldInv(w) && !e.Advances?
    ensures WorldInv(Next(w, e)) && Evolves(w, Next(w, e))
  {
    var x := Next(w, e);
    forall j | 0 <= j < |x.writers|
      ensures WriterInv(x, j)
    {
      if j < |w.writers| {
        assert WriterInv(w, j);
        assert w.writers[j].handle.Some? ==> Held(w, w.writers[j].handle.value);
      }
    }
  }

  lemma {:induction false} EvolvesTransitive(u: World, v: World, w: World)
    requires Evolves(u, v) && Evolves(v, w)
    ensures Evolves(u, w)
  {
  }

  lemma {:induction false} RunEvolves(w: World, events: seq<Event>)
    requires WorldInv(w)
    ensures WorldInv(After(w, events)) && Evolves(w, After(w, events))
    decreases |events|
  {
    hide WorldInv, Evolves, Advance;
    if |events| == 0 {
      EvolvesReflexive(w);
    } else {
      var e := events[0];
      var x := Next(w, e);
      if e.Advances? {
        if e.writer < |w.writers| {
          AdvanceKeepsInv(w, e.writer);
          AdvanceEvolves(w, e.writer);
        } else {
          EvolvesReflexive(w);
        }
      } else {
        RivalKeepsInv(w, e);
      }
      RunEvolves(x, events[1..]);
      EvolvesTransitive(w, x, After(x, events[1..]));
    }
  }

  lemma {:induction false} EvolvesReflexive(w: World)
    ensures Evolves(w, w)
  {
  }

  // ----- the promises -----

  /** Nothing under way yet, with or without an earlier receipt. */
  ghost predicate Initial(w: World) {
    && |w.writers| == 0
    && (w.bound.Some? ==> w.bound.value < |w.inodes|)
    && (w.temporary.Some? ==> w.temporary.value < |w.inodes|)
  }

  /**
   * In every interleaving of any number of writers with a rival: once the receipt name is bound it keeps its inode,
   * and a writer that returned Ok agrees with what the name shows then and at every later moment.
   */
  lemma {:induction false} ReceiptsAreImmutable(w: World, before: seq<Event>, later: seq<Event>, i: nat)
    requires Initial(w)
    ensures var v, x := After(w, before), After(After(w, before), later);
            && (v.bound.Some? ==> x.bound == v.bound)
            && (i < |v.writers| && v.writers[i].stage == Succeeded ==>
                  && v.bound.Some? && v.bound.value < |v.inodes|
                     && v.inodes[v.bound.value] == Text(v.writers[i].receipt)
                  && x.bound == v.bound && v.bound.value < |x.inodes|
                     && x.inodes[v.bound.value] == Text(v.writers[i].receipt))
  {
    hide After;
    RunEvolves(w, before);
    var v := After(w, before);
    RunEvolves(v, later);
    if i < |v.writers| {
      assert WriterInv(v, i);
    }
  }

  /** Two writers that both return Ok wrote the same receipt. */
  lemma {:induction false} SuccessfulWritersAgree(w: World, events: seq<Event>, i: nat, j: nat)
    requires Initial(w)
    requires var v := After(w, events);
             i < |v.writers| && j < |v.writers| && v.writers[i].stage == Succeeded && v.writers[j].stage == Succeeded
    ensures After(w, events).writers[i].receipt == After(w, events).writers[j].receipt
  {
    hide After;
    RunEvolves(w, events);
    var v := After(w, events);
    assert WriterInv(v, i) && WriterInv(v, j);
  }

  /** Undisturbed, a first writer succeeds and its receipt is bound. */
  lemma {:induction false} LoneWriterSucceeds(w: World, r: Receipt)
    requires Initial(w) && w.bound.None?
    ensures After(w, [Starts(r), Advances(0), Advances(0), Advances(0)] + [Advances(0), Advances(0), Advances(0)]) ==
            World(w.inodes + [Text(r)], Some(|w.inodes|), None, [Writer(r, Succeeded, Some(|w.inodes|))])
  {
    var created := World(w.inodes + [Incomplete], None, Some(|w.inodes|), [Writer(r, FillTemporary, Some(|w.inodes|))]);
    LoneWriterCreates(w, r);
    LoneWriterPublishes(created, r, |w.inodes|);
    assert (w.inodes + [Incomplete])[|w.inodes| := Text(r)] == w.inodes + [Text(r)];
    AfterAppend(w, [Starts(r), Advances(0), Advances(0), Advances(0)], [Advances(0), Advances(0), Advances(0)]);
  }

  lemma {:induction false} LoneWriterCreates(w: World, r: Receipt)
    requires Initial(w) && w.bound.None?
    ensures After(w, [Starts(r), Advances(0), Advances(0), Advances(0)]) ==
            World(w.inodes + [Incomplete], None, Some(|w.inodes|), [Writer(r, FillTemporary, Some(|w.inodes|))])
  {
    var a := Advances(0);
    var w1 := Next(w, Starts(r));
    assert w1.writers == [Writer(r, CheckExisting, None)];
    var w2, w3 := Next(w1, a), Next(Next(w1, a), a);
    assert w3 == World(w.inodes, None, None, [Writer(r, CreateTemporary, None)]);
    AfterOne(w, Starts(r), [a, a, a]);
    AfterOne(w1, a, [a, a]);
    AfterOne(w2, a, [a]);
    AfterOne(w3, a, []);
  }

  lemma {:induction false} LoneWriterPublishes(w: World, r: Receipt, n: nat)
    requires n < |w.inodes| && w.bound.None? && w.temporary == Some(n)
            && w.writers == [Writer(r, FillTemporary, Some(n))]
    ensures After(w, [Advances(0), Advances(0), Advances(0)]) ==
            World(w.inodes[n := Text(r)], Some(n), None, [Writer(r, Succeeded, Some(n))])
  {
  }

  lemma {:induction false} AfterAppend(w: World, a: seq<Event>, b: seq<Event>)
    ensures After(w, a + b) == After(After(w, a), b)
    decreases |a|
  {
    hide Next;
    if |a| == 0 {
      assert a + b == b;
    } else {
      assert (a + b)[0] == a[0] && (a + b)[1..] == a[1..] + b;
      AfterAppend(Next(w, a[0]), a[1..], b);
    }
  }

  lemma {:induction false} AfterOne(w: World, e: Event, rest: seq<Event>)
    ensures After(w, [e] + rest) == After(Next(w, e), rest)
  {
  }

  // ----- whether a bound receipt decodes -----

  ghost predicate BoundDecodes(w: World) {
    w.bound.Some? ==> w.bound.value < |w.inodes| && w.inodes[w.bound.value].Text?
  }

  /** The step that goes wrong: a writer's rename finds an unfinished file under the shared temporary name. */
  ghost predicate BindsUnfinished(w: World, e: Event) {
    && e.Advances? && e.writer < |w.writers| && w.writers[e.writer].stage == Rename
    && w.bound.None? && w.temporary.Some? && w.temporary.value < |w.inodes| && w.inodes[w.temporary.value] == Incomplete
  }

  predicate IsWriterEvent(e: Event) {
    e.Starts? || e.Advances?
  }

  lemma {:induction false} StepDecodes(w: World, e: Event)
    requires WorldInv(w) && BoundDecodes(w) && IsWriterEvent(e)
    ensures BoundDecodes(Next(w, e)) <==> !BindsUnfinished(w, e)
  {
    if e.Advances? && e.writer < |w.writers| {
      assert WriterInv(w, e.writer);
    }
  }

  /** The name decodes after every step of a run. */
  ghost predicate AlwaysDecodes(w: World, events: seq<Event>)
    decreases |events|
  {
    BoundDecodes(w) && (|events| > 0 ==> AlwaysDecodes(Next(w, events[0]), events[1..]))
  }

  /** Some step of a run is a rename that finds an unfinished file. */
  ghost predicate RenamesUnfinished(w: World, events: seq<Event>)
    decreases |events|
  {
    |events| > 0 && (BindsUnfinished(w, events[0]) || RenamesUnfinished(Next(w, events[0]), events[1..]))
  }

  lemma {:induction false} WriterStepKeepsInv(w: World, e: Event)
    requires WorldInv(w) && IsWriterEvent(e)
    ensures WorldInv(Next(w, e))
  {
    hide WorldInv, Advance;
    RunEvolves(w, [e]);
    assert [e][1..] == [];
    assert After(Next(w, e), []) == Next(w, e);
  }

  /**
   * The exact condition: with any number of writers, a bound receipt decodes at every moment exactly when no rename
   * finds an unfinished file under the temporary name they share.
   */
  lemma {:induction false} DecodesIffNoUnfinishedRename(w: World, events: seq<Event>)
    requires WorldInv(w) && BoundDecodes(w) && forall e :: e in events ==> IsWriterEvent(e)
    ensures AlwaysDecodes(w, events) <==> !RenamesUnfinished(w, events)
    decreases |events|
  {
    hide WorldInv, BoundDecodes, BindsUnfinished, Next, IsWriterEvent;
    if |events| > 0 {
      assert IsWriterEvent(events[0]);
      StepDecodes(w, events[0]);
      WriterStepKeepsInv(w, events[0]);
      if BoundDecodes(Next(w, events[0])) {
        DecodesIffNoUnfinishedRename(Next(w, events[0]), events[1..]);
      }
    }
  }

  // ----- whose file it is -----

  predicate Filling(me: Writer, n: nat) {
    me.stage == FillTemporary && me.handle == Some(n)
  }

  /** An unfinished temporary file is being filled by a writer, or was left behind before any writer created one. */
  ghost predicate TemporaryInv(w: World) {
    w.temporary.Some? && w.temporary.value < |w.inodes| && w.inodes[w.temporary.value] == Incomplete ==>
      || (exists j :: 0 <= j < |w.writers| && Filling(w.writers[j], w.temporary.value))
      || (forall j :: 0 <= j < |w.writers| ==> w.writers[j].handle == None && w.writers[j].stage != CreateTemporary)
  }

  lemma {:induction false} WriterStepKeepsTemporary(w: World, e: Event)
    requires WorldInv(w) && TemporaryInv(w) && IsWriterEvent(e)
    ensures TemporaryInv(Next(w, e))
  {
    var x := Next(w, e);
    if x.temporary.Some? && x.temporary.value < |x.inodes| && x.inodes[x.temporary.value] == Incomplete {
      if e.Advances? && e.writer < |w.writers| {
        assert WriterInv(w, e.writer);
        if w.writers[e.writer].stage == CreateTemporary && w.temporary.None? {
          assert Filling(x.writers[e.writer], x.temporary.value);
        } else if j: nat :| j < |w.writers| && Filling(w.writers[j], w.temporary.value) {
          assert Filling(x.writers[j], x.temporary.value);
        }
      } else if e.Starts? {
        if j: nat :| j < |w.writers| && Filling(w.writers[j], w.temporary.value) {
          assert Filling(x.writers[j], x.temporary.value);
        }
      }
    }
  }

  /** An unfinished file that a rename finds is always another writer's, still being filled. */
  lemma {:induction false} UnfinishedIsAnothers(w: World, events: seq<Event>, i: nat) returns (j: nat)
    requires Initial(w) && forall e :: e in events ==> IsWriterEvent(e)
    requires BindsUnfinished(After(w, events), Advances(i))
    ensures var v := After(w, events);
            j < |v.writers| && j != i && Filling(v.writers[j], v.temporary.value)
  {
    hide After;
    RunEvolves(w, events);
    RunKeepsTemporary(w, events);
    var v := After(w, events);
    assert WriterInv(v, i);
    j :| j < |v.writers| && Filling(v.writers[j], v.temporary.value);
  }

  lemma {:induction false} RunKeepsTemporary(w: World, events: seq<Event>)
    requires WorldInv(w) && TemporaryInv(w) && forall e :: e in events ==> IsWriterEvent(e)
    ensures TemporaryInv(After(w, events))
    decreases |events|
  {
    hide WorldInv, TemporaryInv, Next, IsWriterEvent;
    if |events| > 0 {
      assert IsWriterEvent(events[0]);
      WriterStepKeepsTemporary(w, events[0]);
      WriterStepKeepsInv(w, events[0]);
      RunKeepsTemporary(Next(w, events[0]), events[1..]);
    }
  }

  // ----- it does happen -----

  const ME: Event := Advances(0)
  const OTHER: Event := Advances(1)

  lemma {:induction false} TwoCreate(w: World, r: Receipt)
    requires Initial(w) && w.bound.None?
    ensures After(w, [Starts(r), Starts(r), ME, ME, ME] + [OTHER, OTHER, OTHER]) ==
            World(w.inodes + [Incomplete, Incomplete], None, Some(|w.inodes| + 1),
                  [Writer(r, FillTemporary, Some(|w.inodes|)), Writer(r, FillTemporary, Some(|w.inodes| + 1))])
  {
    var n := |w.inodes|;
    var w2 := Next(Next(w, Starts(r)), Starts(r));
    assert w2.writers == [Writer(r, CheckExisting, None), Writer(r, CheckExisting, None)];
    var w5 := Next(Next(Next(w2, ME), ME), ME);
    assert w5 == World(w.inodes + [Incomplete], None, Some(n),
                       [Writer(r, FillTemporary, Some(n)), Writer(r, CheckExisting, None)]);
    AfterOne(w, Starts(r), [Starts(r), ME, ME, ME]);
    AfterOne(Next(w, Starts(r)), Starts(r), [ME, ME, ME]);
    AfterThree(w2, ME);
    var w8 := Next(Next(Next(w5, OTHER), OTHER), OTHER);
    assert w5.inodes + [Incomplete] == w.inodes + [Incomplete, Incomplete];
    assert w8.writers == [Writer(r, FillTemporary, Some(n)), Writer(r, FillTemporary, Some(n + 1))];
    AfterThree(w5, OTHER);
    AfterAppend(w, [Starts(r), Starts(r), ME, ME, ME], [OTHER, OTHER, OTHER]);
  }

  lemma {:induction false} AfterThree(w: World, e: Event)
    ensures After(w, [e, e, e]) == Next(Next(Next(w, e), e), e)
  {
    hide Next;
    AfterOne(w, e, [e, e]);
    AfterOne(Next(w, e), e, [e]);
    AfterOne(Next(Next(w, e), e), e, []);
  }

  /**
   * Two writers of one and the same receipt: the first binds the other's unfinished file and fails, so the name is
   * bound to text that does not decode, and stays so if the second process stops there; if it goes on, the text is
   * completed and right, yet the second writer fails too.
   */
  lemma {:induction false} UnfinishedReceiptBound(w: World, r: Receipt)
    requires Initial(w) && w.bound.None?
    ensures var events := ([Starts(r), Starts(r), ME, ME, ME] + [OTHER, OTHER, OTHER]) + [ME, ME, ME];
            var n := |w.inodes|;
            && After(w, events) ==
               World(w.inodes + [Text(r), Incomplete], Some(n + 1), None,
                     [Writer(r, Failed, Some(n)), Writer(r, FillTemporary, Some(n + 1))])
            && After(After(w, events), [OTHER, OTHER]) ==
               World(w.inodes + [Text(r), Text(r)], Some(n + 1), None,
                     [Writer(r, Failed, Some(n)), Writer(r, Failed, Some(n + 1))])
  {
    var n := |w.inodes|;
    var first := [Starts(r), Starts(r), ME, ME, ME] + [OTHER, OTHER, OTHER];
    TwoCreate(w, r);
    AfterAppend(w, first, [ME, ME, ME]);
    var u := After(w, first);
    AfterThree(u, ME);
    var v := Next(Next(Next(u, ME), ME), ME);
    assert v.writers == [Writer(r, Failed, Some(n)), Writer(r, FillTemporary, Some(n + 1))];
    assert v.inodes == w.inodes + [Text(r), Incomplete];
    var x := Next(Next(v, OTHER), OTHER);
    assert x.inodes == w.inodes + [Text(r), Text(r)];
    assert x.writers == [Writer(r, Failed, Some(n)), Writer(r, Failed, Some(n + 1))];
    AfterOne(v, OTHER, [OTHER]);
    AfterOne(Next(v, OTHER), OTHER, []);
  }

  // ----- writers that take turns -----

  predicate Busy(me: Writer) {
    me.stage == CreateTemporary || me.stage == FillTemporary || me.stage == Rename || me.stage == ValidateIdentity
  }

  /** No writer starts on the temporary name while another is between removing it and checking its rename. */
  ghost predicate TakesTurn(w: World, e: Event) {
    IsWriterEvent(e)
    && (e.Advances? && e.writer < |w.writers| && w.writers[e.writer].stage == RemoveTemporary ==>
          forall j :: 0 <= j < |w.writers| ==> !Busy(w.writers[j]))
  }

  ghost predicate TakeTurns(w: World, events: seq<Event>)
    decreases |events|
  {
    |events| > 0 ==> TakesTurn(w, events[0]) && TakeTurns(Next(w, events[0]), events[1..])
  }

  ghost predicate TurnInv(w: World, i: nat)
    requires i < |w.writers|
  {
    var me := w.writers[i];
    && (me.stage == CreateTemporary ==> w.temporary == None)
    && (me.stage == FillTemporary || me.stage == Rename ==> w.temporary == me.handle)
    && (me.stage == ValidateIdentity ==> w.bound == me.handle)
    && (me.stage == CompareExisting ==> w.bound.Some?)
    && (me.stage == Failed ==>
          && w.bound.Some? && w.bound.value < |w.inodes|
          && w.inodes[w.bound.value] != Text(me.receipt))
    && (Busy(me) ==> forall j :: 0 <= j < |w.writers| && j != i ==> !Busy(w.writers[j]))
  }

  ghost predicate Turns(w: World) {
    WorldInv(w) && BoundDecodes(w) && forall i :: 0 <= i < |w.writers| ==> TurnInv(w, i)
  }

  lemma {:induction false} TurnKeepsMover(w: World, i: nat)
    requires Turns(w) && i < |w.writers| && TakesTurn(w, Advances(i))
    ensures TurnInv(Advance(w, i), i)
  {
    assert WriterInv(w, i) && TurnInv(w, i);
  }

  lemma {:induction false} TurnKeepsOther(w: World, m: nat, i: nat)
    requires Turns(w) && m < |w.writers| && i < |w.writers| && m != i && TakesTurn(w, Advances(m))
    ensures TurnInv(Advance(w, m), i)
  {
    hide Turns, WorldInv, BoundDecodes;
    assert WriterInv(w, m) && WriterInv(w, i) && TurnInv(w, m) && TurnInv(w, i) by { TurnFacts(w, m, i); }
    assert w.bound.Some? ==> w.bound.value < |w.inodes| && w.inodes[w.bound.value].Text? by { TurnBound(w); }
  }

  lemma {:induction false} TurnFacts(w: World, m: nat, i: nat)
    requires Turns(w) && m < |w.writers| && i < |w.writers|
    ensures WriterInv(w, m) && WriterInv(w, i) && TurnInv(w, m) && TurnInv(w, i)
  {
  }

  lemma {:induction false} TurnBound(w: World)
    requires Turns(w)
    ensures w.bound.Some? ==> w.bound.value < |w.inodes| && w.inodes[w.bound.value].Text?
  {
  }

  lemma {:induction false} TurnKeepsWriter(w: World, e: Event, i: nat)
    requires Turns(w) && TakesTurn(w, e) && i < |Next(w, e).writers|
    ensures TurnInv(Next(w, e), i)
  {
    if e.Advances? {
      hide Turns, TurnInv, TakesTurn;
      if e.writer == i {
        TurnKeepsMover(w, i);
      } else if e.writer < |w.writers| {
        TurnKeepsOther(w, e.writer, i);
      } else {
        TurnFacts(w, i, i);
      }
    } else if i < |w.writers| {
      hide WorldInv, BoundDecodes;
      TurnFacts(w, i, i);
    }
  }

  lemma {:induction false} TurnKeepsTurns(w: World, e: Event)
    requires Turns(w) && TakesTurn(w, e)
    ensures Turns(Next(w, e))
  {
    hide TurnInv, Next, TakesTurn;
    assert IsWriterEvent(e) by { TurnIsWriterEvent(w, e); }
    WriterStepKeepsInv(w, e);
    StepDecodes(w, e);
    assert !BindsUnfinished(w, e) by { TurnFindsItsOwn(w, e); }
    forall i: nat | i < |Next(w, e).writers|
      ensures TurnInv(Next(w, e), i)
    {
      TurnKeepsWriter(w, e, i);
    }
  }

  lemma {:induction false} TurnIsWriterEvent(w: World, e: Event)
    requires TakesTurn(w, e)
    ensures IsWriterEvent(e)
  {
  }

  lemma {:induction false} TurnFindsItsOwn(w: World, e: Event)
    requires Turns(w)
    ensures !BindsUnfinished(w, e)
  {
    if e.Advances? && e.writer < |w.writers| {
      assert WriterInv(w, e.writer) && TurnInv(w, e.writer);
    }
  }

  /**
   * Writers that take turns: the receipt name always decodes once bound, and a writer fails only because the name was
   * already bound to a different receipt.
   */
  lemma {:induction false} TurnsSucceed(w: World, events: seq<Event>)
    requires Initial(w) && BoundDecodes(w) && TakeTurns(w, events)
    ensures var v := After(w, events);
            && BoundDecodes(v)
            && forall i :: 0 <= i < |v.writers| && v.writers[i].stage == Failed ==>
                 v.bound.Some? && v.bound.value < |v.inodes| && v.inodes[v.bound.value] != Text(v.writers[i].receipt)
  {
    hide After, TakeTurns;
    TurnsLast(w, events);
    var v := After(w, events);
    forall i | 0 <= i < |v.writers| && v.writers[i].stage == Failed
      ensures v.bound.Some? && v.bound.value < |v.inodes| && v.inodes[v.bound.value] != Text(v.writers[i].receipt)
    {
      assert TurnInv(v, i);
    }
  }

  lemma {:induction false} TurnsLast(w: World, events: seq<Event>)
    requires Turns(w) && TakeTurns(w, events)
    ensures Turns(After(w, events))
    decreases |events|
  {
    hide Turns, TakesTurn, Next;
    if |events| > 0 {
      TurnKeepsTurns(w, events[0]);
      TurnsLast(Next(w, events[0]), events[1..]);
    }
  }
}
