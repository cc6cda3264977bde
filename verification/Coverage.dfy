/** What a slot finalization leaves out: it is never revised, so sets seen later are skipped, and sets beyond
    the last marker are skipped even when seen. Both on packets of sets built by the constructor. */
module Coverage {
  import opened Common
  import opened ByteStrings
  import opened Shred
  import opened ReedSolomon
  import opened Assembler
  import opened AssemblerRuns
  import opened AssemblerHistory
  import opened EndToEnd
  import opened ManySets

  // ---------------------------------------------------------------- never revised

  lemma ArrivalsLast(env: Env, raws: seq<Bytes>, raw: Bytes)
    ensures Arrivals(env, raws + [raw]) == Arrivals(env, raws) + Arrivals(env, [raw])
  {
    assert (raws + [raw])[..|raws|] == raws && [raw][..0] == [];
    assert Arrivals(env, []) == [];
  }

  lemma {:induction false} ArrivalsAppend(env: Env, raws: seq<Bytes>, more: seq<Bytes>)
    ensures Arrivals(env, raws + more) == Arrivals(env, raws) + Arrivals(env, more)
    decreases |more|
  {
    if more == [] {
      assert raws + more == raws;
    } else {
      var head, last := more[..|more| - 1], more[|more| - 1];
      assert more == head + [last];
      assert raws + more == (raws + head) + [last];
      ArrivalsAppend(env, raws, head);
      ArrivalsLast(env, head, last);
      ArrivalsLast(env, raws + head, last);
    }
  }

  lemma {:induction false} FirstCompleteStable(h: seq<Arrival>, more: seq<Arrival>, slot: nat)
    requires FirstComplete(h, slot).Some?
    ensures FirstComplete(h + more, slot) == FirstComplete(h, slot)
    decreases |more|
  {
    if more == [] {
      assert h + more == h;
    } else {
      var n := |more| - 1;
      FirstCompleteStable(h, more[..n], slot);
      assert (h + more)[..|h + more| - 1] == h + more[..n];
    }
  }

  lemma ExpectedFinalsStable(env: Env, h: seq<Arrival>, more: seq<Arrival>, slot: nat)
    requires FirstComplete(h, slot).Some?
    ensures ExpectedFinals(env, h + more, slot) == ExpectedFinals(env, h, slot) != []
  {
    FirstCompleteStable(h, more, slot);
    var p := FirstComplete(h, slot).value;
    assert (h + more)[..p] == h[..p];
  }

  /** Whatever packets follow, a slot's finalization stays the only one and as it was. */
  lemma FinalizationStands(env: Env, raws: seq<Bytes>, more: seq<Bytes>, slot: nat)
    requires RecoversFromHalf(env.rs) && Finals(RunRaw(env, raws).log, slot) != []
    ensures Finals(RunRaw(env, raws + more).log, slot) == Finals(RunRaw(env, raws).log, slot)
  {
    var h, t := Arrivals(env, raws), Arrivals(env, more);
    RawRun(env, raws, slot, FecKey(0, 0));
    RawRun(env, raws + more, slot, FecKey(0, 0));
    ArrivalsAppend(env, raws, more);
    FinalizationExact(env, h, slot);
    FinalizationExact(env, h + t, slot);
    ExpectedFinalsStable(env, h, t, slot);
  }

  // ---------------------------------------------------------------- sets seen too late

  /** All of the first set's shreds in `ids`, then all of the second set's in `later`. */
  function FirstThenSecond(ids: seq<nat>, later: seq<nat>): seq<Pick> {
    OfFirst(ids) + seq(|later|, j requires 0 <= j < |later| => Pick(1, later[j]))
  }

  lemma FirstThenSecondGot(ids: seq<nat>, later: seq<nat>)
    ensures Got(FirstThenSecond(ids, later), 0) == Elems(ids)
    ensures Got(FirstThenSecond(ids, later), 1) == Elems(later)
  {
    var order := FirstThenSecond(ids, later);
    forall i | i in ids
      ensures Pick(0, i) in order
    {
      var j :| 0 <= j < |ids| && ids[j] == i;
      assert order[j] == Pick(0, i);
    }
    forall i | i in later
      ensures Pick(1, i) in order
    {
      var j :| 0 <= j < |later| && later[j] == i;
      assert order[|ids| + j] == Pick(1, i);
    }
    forall d | d in order
      ensures d.which == 0 ==> d.shred in ids
      ensures d.which == 1 ==> d.shred in later
    {
      var j :| 0 <= j < |order| && order[j] == d;
    }
  }

  predicate InRange(ids: seq<nat>) {
    forall j :: 0 <= j < |ids| ==> ids[j] < SHREDS_PER_FEC
  }

  /** Two sets of one slot, the first with the lower index. */
  predicate LowHigh(low: BuiltSet, high: BuiltSet) {
    low.params.slot == high.params.slot && low.params.fecSetIndex < high.params.fecSetIndex
  }

  lemma FirstThenSecondSplits(sets: seq<BuiltSet>, ids: seq<nat>, later: seq<nat>)
    requires |sets| == 2 && AllSized(sets) && InRange(ids) && InRange(later)
    ensures ValidPicks(sets, FirstThenSecond(ids, later)) && ValidPicks(sets[..1], OfFirst(ids))
    ensures Deliver(sets, FirstThenSecond(ids, later))
         == Deliver(sets[..1], OfFirst(ids)) + Deliver(sets, FirstThenSecond(ids, later))[|ids|..]
  {
    var raws, first := Deliver(sets, FirstThenSecond(ids, later)), Deliver(sets[..1], OfFirst(ids));
    assert raws[..|ids|] == first;
  }

  /** The documented claim that all FEC sets of the slot have been reconstructed fails. Of two sets of one
      slot, the higher one carrying the last-in-slot flag: if 32 shreds of the higher arrive first, the slot
      is finalized with its root alone, and the lower set, though delivered and reconstructed, is never
      reported. */
  lemma UnseenSetsSkipped(env: Env, low: BuiltSet, high: BuiltSet, ids: seq<nat>, later: seq<nat>)
    requires AllBuilt(env, [high, low]) && LowHigh(low, high)
    requires InRange(ids) && InRange(later)
    requires |Elems(ids)| >= 32 && |Elems(later)| >= 32 && EndsSlot(high, ids)
    requires SignaturesVerify(env.crypto) && RecoversFromHalf(env.rs)
    ensures ValidPicks([high, low], FirstThenSecond(ids, later))
    ensures var log := RunRaw(env, Deliver([high, low], FirstThenSecond(ids, later))).log;
      && Finals(log, low.params.slot)
           == [SlotFinalized(low.params.slot, [high.fec.merkleRoot], high.fec.merkleRoot, 32, 1.0)]
      && Rebuilds(log, SetKey(low)) == [Reconstructed(SetKey(low), low.fec.merkleRoot, 1.0)]
  {
    FirstThenSecondSplits([high, low], ids, later);
    FirstThenSecondGot(ids, later);
    FirstFinalStands(env, [high, low], ids, later);
    SecondRebuilt(env, [high, low], FirstThenSecond(ids, later));
  }

  lemma FirstFinalStands(env: Env, sets: seq<BuiltSet>, ids: seq<nat>, later: seq<nat>)
    requires |sets| == 2 && AllBuilt(env, sets) && InRange(ids) && InRange(later)
    requires |Elems(ids)| >= 32 && EndsSlot(sets[0], ids) && ValidPicks(sets, FirstThenSecond(ids, later))
    requires SignaturesVerify(env.crypto) && RecoversFromHalf(env.rs)
    ensures var b := sets[0];
      Finals(RunRaw(env, Deliver(sets, FirstThenSecond(ids, later))).log, b.params.slot)
        == [SlotFinalized(b.params.slot, [b.fec.merkleRoot], b.fec.merkleRoot, 32, 1.0)]
  {
    var b, raws := sets[0], Deliver(sets, FirstThenSecond(ids, later));
    assert sets[..1] == [b];
    FirstThenSecondSplits(sets, ids, later);
    BuiltSetDelivered(env, b, ids);
    FinalizationStands(env, Deliver([b], OfFirst(ids)), raws[|ids|..], b.params.slot);
  }

  lemma SecondRebuilt(env: Env, sets: seq<BuiltSet>, order: seq<Pick>)
    requires |sets| == 2 && AllBuilt(env, sets) && ValidPicks(sets, order) && |Got(order, 1)| >= 32
    requires SignaturesVerify(env.crypto) && RecoversFromHalf(env.rs)
    ensures Rebuilds(RunRaw(env, Deliver(sets, order)).log, SetKey(sets[1])) == SetRebuilds(sets[1], 32)
  {
    var at := BuiltSetsDelivered(env, sets, order, 0);
  }

  // ---------------------------------------------------------------- sets beyond the marker

  /** One shred of the second set, then the first set's shreds in `ids`. */
  function SecondThenFirst(one: nat, ids: seq<nat>): (order: seq<Pick>)
    ensures |order| == |ids| + 1 && order[0] == Pick(1, one)
    ensures forall j :: 0 <= j < |ids| ==> order[j + 1] == Pick(0, ids[j])
  {
    [Pick(1, one)] + OfFirst(ids)
  }

  lemma SecondThenFirstPicks(one: nat, ids: seq<nat>)
    ensures forall d :: d in SecondThenFirst(one, ids) <==> d == Pick(1, one) || (d.which == 0 && d.shred in ids)
  {
    var order := SecondThenFirst(one, ids);
    assert order[0] in order;
    forall i | i in ids
      ensures Pick(0, i) in order
    {
      var j :| 0 <= j < |ids| && ids[j] == i;
      assert order[j + 1] == Pick(0, i);
    }
    forall d | d in order
      ensures d == Pick(1, one) || (d.which == 0 && d.shred in ids)
    {
      var j :| 0 <= j < |order| && order[j] == d;
      assert j > 0 ==> order[j] == Pick(0, ids[j - 1]);
    }
  }

  /** With the flag on the lower of two sets only, the lower set is all that is ever awaited. */
  lemma OnlyLowDue(sets: seq<BuiltSet>, order: seq<Pick>)
    requires |sets| == 2 && ValidPicks(sets, order) && LowHigh(sets[0], sets[1])
    requires sets[1].params.flags < 128 && MarkedSets(sets, order, sets[0].params.slot) != {}
    ensures DueSets(sets, order, sets[0].params.slot) == {sets[0].params.fecSetIndex}
  {
    var slot, low := sets[0].params.slot, sets[0].params.fecSetIndex;
    var marked, seen := MarkedSets(sets, order, slot), SeenSets(sets, order, slot);
    assert marked <= seen;
    assert forall d :: d in order ==> d.which == 0 || d.which == 1;
    assert marked == {low};
    assert seen <= {low, sets[1].params.fecSetIndex};
  }

  lemma SecondThenFirstValid(sets: seq<BuiltSet>, one: nat, ids: seq<nat>)
    requires |sets| == 2 && one < SHREDS_PER_FEC && InRange(ids)
    ensures ValidPicks(sets, SecondThenFirst(one, ids))
  {
    var order := SecondThenFirst(one, ids);
    assert forall j :: 0 < j < |order| ==> order[j] == Pick(0, ids[j - 1]);
  }

  lemma SecondThenFirstSeen(sets: seq<BuiltSet>, one: nat, ids: seq<nat>)
    requires |sets| == 2 && LowHigh(sets[0], sets[1]) && ValidPicks(sets, SecondThenFirst(one, ids))
    requires EndsSlot(sets[0], ids)
    ensures MarkedSets(sets, SecondThenFirst(one, ids), sets[0].params.slot) != {}
    ensures SeenSets(sets, SecondThenFirst(one, ids), sets[0].params.slot)
         == {sets[0].params.fecSetIndex, sets[1].params.fecSetIndex}
  {
    var order, slot := SecondThenFirst(one, ids), sets[0].params.slot;
    SecondThenFirstPicks(one, ids);
    var i :| i in ids && i < 32;
    SeenAndMarked(sets, order, slot, Pick(0, i));
    SeenAndMarked(sets, order, slot, Pick(1, one));
    OnlyTwoSeen(sets, order);
  }

  lemma SeenAndMarked(sets: seq<BuiltSet>, order: seq<Pick>, slot: nat, d: Pick)
    requires ValidPicks(sets, order) && d in order && InSlot(sets, d, slot)
    ensures sets[d.which].params.fecSetIndex in SeenSets(sets, order, slot)
    ensures d.shred < 32 && sets[d.which].params.flags >= 128 ==>
      sets[d.which].params.fecSetIndex in MarkedSets(sets, order, slot)
  {
  }

  lemma OnlyTwoSeen(sets: seq<BuiltSet>, order: seq<Pick>)
    requires |sets| == 2 && ValidPicks(sets, order)
    ensures SeenSets(sets, order, sets[0].params.slot) <= {sets[0].params.fecSetIndex, sets[1].params.fecSetIndex}
  {
  }

  lemma SecondThenFirstFinishes(sets: seq<BuiltSet>, one: nat, ids: seq<nat>)
    requires |sets| == 2 && LowHigh(sets[0], sets[1]) && one < SHREDS_PER_FEC && InRange(ids)
    requires |Elems(ids)| >= 32 && EndsSlot(sets[0], ids) && sets[1].params.flags < 128
    requires ValidPicks(sets, SecondThenFirst(one, ids))
    requires MarkedSets(sets, SecondThenFirst(one, ids), sets[0].params.slot) != {}
    ensures Finished(sets, SecondThenFirst(one, ids), sets[0].params.slot)
  {
    var order := SecondThenFirst(one, ids);
    OnlyLowDue(sets, order);
    SecondThenFirstGot(one, ids);
    FinishedByFirst(sets, order);
  }

  lemma FinishedByFirst(sets: seq<BuiltSet>, order: seq<Pick>)
    requires |sets| == 2 && LowHigh(sets[0], sets[1]) && ValidPicks(sets, order)
    requires MarkedSets(sets, order, sets[0].params.slot) != {} && |Got(order, 0)| >= 32
    requires DueSets(sets, order, sets[0].params.slot) == {sets[0].params.fecSetIndex}
    ensures Finished(sets, order, sets[0].params.slot)
  {
  }

  lemma SecondThenFirstGot(one: nat, ids: seq<nat>)
    ensures Got(SecondThenFirst(one, ids), 0) == Elems(ids)
  {
    SecondThenFirstPicks(one, ids);
    forall i | i in ids
      ensures i in Got(SecondThenFirst(one, ids), 0)
    {
      assert Pick(0, i) in SecondThenFirst(one, ids);
    }
  }

  /** A second way the claim fails: the flag on the lower set. A shred of the higher set is seen first, then 32
      of the lower set finish the slot, which is finalized without the higher set. */
  lemma SetsBeyondMarkerSkipped(env: Env, sets: seq<BuiltSet>, one: nat, ids: seq<nat>)
    requires AllBuilt(env, sets) && |sets| == 2 && LowHigh(sets[0], sets[1])
    requires one < SHREDS_PER_FEC && InRange(ids)
    requires |Elems(ids)| >= 32 && EndsSlot(sets[0], ids) && sets[1].params.flags < 128
    requires SignaturesVerify(env.crypto) && RecoversFromHalf(env.rs)
    ensures ValidPicks(sets, SecondThenFirst(one, ids))
    ensures SeenSets(sets, SecondThenFirst(one, ids), sets[0].params.slot)
         == {sets[0].params.fecSetIndex, sets[1].params.fecSetIndex}
    ensures Finals(RunRaw(env, Deliver(sets, SecondThenFirst(one, ids))).log, sets[0].params.slot)
         == [SlotFinalized(sets[0].params.slot, [sets[0].fec.merkleRoot], sets[0].fec.merkleRoot, 32, 1.0)]
  {
    var order, slot := SecondThenFirst(one, ids), sets[0].params.slot;
    SecondThenFirstValid(sets, one, ids);
    SecondThenFirstSeen(sets, one, ids);
    SecondThenFirstFinishes(sets, one, ids);
    var at := BuiltSetsDelivered(env, sets, order, slot);
    OneFinal(env, sets, order, Finals(RunRaw(env, Deliver(sets, order)).log, slot), at);
  }

  lemma OneFinal(env: Env, sets: seq<BuiltSet>, order: seq<Pick>, finals: seq<FecEvent>, at: Option<nat>)
    requires |sets| == 2 && ValidPicks(sets, order) && LowHigh(sets[0], sets[1]) && sets[1].params.flags < 128
    requires Finished(sets, order, sets[0].params.slot)
    requires FinalizedExactly(env, sets, order, sets[0].params.slot, finals, at)
    ensures finals == [SlotFinalized(sets[0].params.slot, [sets[0].fec.merkleRoot], sets[0].fec.merkleRoot, 32, 1.0)]
  {
    assert order[..|order|] == order;
    var q := at.value;
    OnlyLowDue(sets, order[..q]);
    ReportsOne(env, sets, order[..q], 0, finals[0]);
  }
}
