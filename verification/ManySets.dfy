/** Any shreds of any number of built sets, interleaved, out of order and repeated, given to a fresh
    assembler: exactly what it rejects, reconstructs and finalizes. */
module ManySets {
  import opened Common
  import opened ByteStrings
  import opened Merkle
  import opened Shred
  import opened ReedSolomon
  import opened FecSet
  import opened Assembler
  import opened AssemblerRuns
  import opened AssemblerHistory
  import opened EndToEnd

  datatype BuiltSet = BuiltSet(payload: Bytes, params: FecSetParams, fec: FecSet)

  /** One delivery: a shred of one of the sets. */
  datatype Pick = Pick(which: nat, shred: nat)

  function SetKey(b: BuiltSet): FecKey { FecKey(b.params.slot, b.params.fecSetIndex) }

  /** The sets were built for different keys, each signed by the leader of its slot. */
  ghost predicate AllBuilt(env: Env, sets: seq<BuiltSet>) {
    && AllSized(sets) && DistinctKeys(sets)
    && (forall k :: 0 <= k < |sets| ==>
          && IsFecSet(env.crypto, env.rs, sets[k].payload, sets[k].params, sets[k].fec)
          && env.leader(sets[k].params.slot) == Some(sets[k].fec.leaderPubkey))
  }

  ghost predicate DistinctKeys(sets: seq<BuiltSet>) {
    forall j, k :: 0 <= j < k < |sets| ==> SetKey(sets[j]) != SetKey(sets[k])
  }

  ghost predicate AllSized(sets: seq<BuiltSet>) {
    forall k :: 0 <= k < |sets| ==> Sized(sets[k].fec.shreds)
  }

  predicate ValidPicks(sets: seq<BuiltSet>, order: seq<Pick>) {
    forall j :: 0 <= j < |order| ==> order[j].which < |sets| && order[j].shred < SHREDS_PER_FEC
  }

  function Deliver(sets: seq<BuiltSet>, order: seq<Pick>): (raws: seq<Bytes>)
    requires AllSized(sets) && ValidPicks(sets, order)
    ensures |raws| == |order|
    ensures forall j :: 0 <= j < |order| ==> raws[j] == sets[order[j].which].fec.shreds[order[j].shred]
  {
    seq(|order|, j requires 0 <= j < |order| => sets[order[j].which].fec.shreds[order[j].shred])
  }

  function PickArrival(sets: seq<BuiltSet>, d: Pick): Arrival
    requires AllSized(sets) && d.which < |sets| && d.shred < SHREDS_PER_FEC
  {
    BuiltArrival(sets[d.which].params, sets[d.which].fec, d.shred)
  }

  function History(sets: seq<BuiltSet>, order: seq<Pick>): (h: seq<Arrival>)
    requires AllSized(sets) && ValidPicks(sets, order)
    ensures |h| == |order| && forall j :: 0 <= j < |order| ==> h[j] == PickArrival(sets, order[j])
  {
    seq(|order|, j requires 0 <= j < |order| => PickArrival(sets, order[j]))
  }

  // ---------------------------------------------------------------- what was delivered

  /** The distinct shreds delivered of set `k`. */
  function Got(order: seq<Pick>, k: nat): set<nat> {
    set d | d in order && d.which == k :: d.shred
  }

  function SeenSets(sets: seq<BuiltSet>, order: seq<Pick>, slot: nat): set<nat>
    requires ValidPicks(sets, order)
  {
    set d | d in order && InSlot(sets, d, slot) :: sets[d.which].params.fecSetIndex
  }

  predicate InSlot(sets: seq<BuiltSet>, d: Pick, slot: nat) {
    d.which < |sets| && sets[d.which].params.slot == slot
  }

  /** The sets of the slot of which a data shred with the last-in-slot flag was delivered. */
  function MarkedSets(sets: seq<BuiltSet>, order: seq<Pick>, slot: nat): set<nat>
    requires ValidPicks(sets, order)
  {
    set d | d in order && InSlot(sets, d, slot) && d.shred < 32 && sets[d.which].params.flags >= 128
      :: sets[d.which].params.fecSetIndex
  }

  function DueSets(sets: seq<BuiltSet>, order: seq<Pick>, slot: nat): set<nat>
    requires ValidPicks(sets, order)
  {
    if MarkedSets(sets, order, slot) == {} then {}
    else set i | i in SeenSets(sets, order, slot) && i <= Greatest(MarkedSets(sets, order, slot))
  }

  predicate IsDue(sets: seq<BuiltSet>, order: seq<Pick>, slot: nat, k: nat)
    requires ValidPicks(sets, order) && k < |sets|
  {
    sets[k].params.slot == slot && sets[k].params.fecSetIndex in DueSets(sets, order, slot)
  }

  /** A marked set was seen, and of every seen set up to the last marked one 32 distinct shreds were. */
  ghost predicate Finished(sets: seq<BuiltSet>, order: seq<Pick>, slot: nat)
    requires ValidPicks(sets, order)
  {
    && MarkedSets(sets, order, slot) != {}
    && forall k :: 0 <= k < |sets| && IsDue(sets, order, slot, k) ==> |Got(order, k)| >= 32
  }

  lemma PickOf(sets: seq<BuiltSet>, order: seq<Pick>, a: Arrival) returns (d: Pick)
    requires AllSized(sets) && ValidPicks(sets, order) && a in History(sets, order)
    ensures d in order && d.which < |sets| && d.shred < SHREDS_PER_FEC && a == PickArrival(sets, d)
  {
    var j :| 0 <= j < |order| && History(sets, order)[j] == a;
    d := order[j];
  }

  lemma ArrivalOf(sets: seq<BuiltSet>, order: seq<Pick>, d: Pick)
    requires AllSized(sets) && ValidPicks(sets, order) && d in order
    ensures d.which < |sets| && d.shred < SHREDS_PER_FEC && PickArrival(sets, d) in History(sets, order)
  {
    var j :| 0 <= j < |order| && order[j] == d;
    assert History(sets, order)[j] == PickArrival(sets, d);
  }

  lemma SameKeySameSet(sets: seq<BuiltSet>, j: nat, k: nat)
    requires DistinctKeys(sets) && j < |sets| && k < |sets| && SetKey(sets[j]) == SetKey(sets[k])
    ensures j == k
  {
  }

  lemma HistoryCoherent(sets: seq<BuiltSet>, order: seq<Pick>)
    requires AllSized(sets) && DistinctKeys(sets) && ValidPicks(sets, order)
    ensures Coherent(History(sets, order))
  {
    var h := History(sets, order);
    forall a | a in h
      ensures a.index < 64
    {
      var d := PickOf(sets, order, a);
    }
    forall a, b | a in h && b in h && KeyOf(a) == KeyOf(b)
      ensures a.root == b.root
    {
      var d := PickOf(sets, order, a);
      var e := PickOf(sets, order, b);
      SameKeySameSet(sets, d.which, e.which);
    }
  }

  lemma HistorySeen(sets: seq<BuiltSet>, order: seq<Pick>, slot: nat)
    requires AllSized(sets) && ValidPicks(sets, order)
    ensures Seen(History(sets, order), slot) == SeenSets(sets, order, slot)
    ensures Markers(History(sets, order), slot) == MarkedSets(sets, order, slot)
    ensures Awaited(History(sets, order), slot) == DueSets(sets, order, slot)
  {
    var h := History(sets, order);
    forall a | a in h && a.slot == slot
      ensures a.fec in SeenSets(sets, order, slot)
      ensures a.last ==> a.fec in MarkedSets(sets, order, slot)
    {
      var d := PickOf(sets, order, a);
      assert InSlot(sets, d, slot);
    }
    forall d | d in order && InSlot(sets, d, slot)
      ensures sets[d.which].params.fecSetIndex in Seen(h, slot)
      ensures d.shred < 32 && sets[d.which].params.flags >= 128 ==> sets[d.which].params.fecSetIndex in Markers(h, slot)
    {
      ArrivalOf(sets, order, d);
      assert PickArrival(sets, d).slot == slot;
    }
  }

  lemma HistoryIndices(sets: seq<BuiltSet>, order: seq<Pick>, k: nat)
    requires AllSized(sets) && DistinctKeys(sets) && ValidPicks(sets, order) && k < |sets|
    ensures var h, key := History(sets, order), SetKey(sets[k]);
      && Indices(h, key) == Got(order, k)
      && FirstRoot(h, key) == if Got(order, k) == {} then None else Some(sets[k].fec.merkleRoot)
  {
    var h, key := History(sets, order), SetKey(sets[k]);
    HistoryCoherent(sets, order);
    FirstRootNone(h, key);
    forall a | a in h && KeyOf(a) == key
      ensures a.index in Got(order, k) && FirstRoot(h, key) == Some(a.root) && a.root == sets[k].fec.merkleRoot
    {
      var d := PickOf(sets, order, a);
      SameKeySameSet(sets, d.which, k);
      CoherentRoot(h, a);
    }
    forall d | d in order && d.which == k
      ensures d.shred in Indices(h, key)
    {
      ArrivalOf(sets, order, d);
      CoherentRoot(h, PickArrival(sets, d));
      assert Counts(h, key, PickArrival(sets, d));
    }
    IndicesNeedRoot(h, key);
  }

  lemma HistoryForeign(sets: seq<BuiltSet>, order: seq<Pick>, key: FecKey)
    requires AllSized(sets) && ValidPicks(sets, order)
    requires forall k :: 0 <= k < |sets| ==> SetKey(sets[k]) != key
    ensures Indices(History(sets, order), key) == {}
  {
    forall a | a in History(sets, order)
      ensures KeyOf(a) != key
    {
      var d := PickOf(sets, order, a);
      assert KeyOf(a) == SetKey(sets[d.which]);
    }
  }

  lemma SeenHasSet(sets: seq<BuiltSet>, order: seq<Pick>, slot: nat, i: nat) returns (k: nat)
    requires ValidPicks(sets, order) && i in SeenSets(sets, order, slot)
    ensures k < |sets| && SetKey(sets[k]) == FecKey(slot, i) && Got(order, k) != {}
  {
    var d :| d in order && InSlot(sets, d, slot) && sets[d.which].params.fecSetIndex == i;
    k := d.which;
    assert d.shred in Got(order, k);
  }

  lemma FinishedIsComplete(sets: seq<BuiltSet>, order: seq<Pick>, slot: nat)
    requires AllSized(sets) && DistinctKeys(sets) && ValidPicks(sets, order)
    ensures Finished(sets, order, slot) <==> Complete(History(sets, order), slot)
  {
    var h := History(sets, order);
    HistorySeen(sets, order, slot);
    if Finished(sets, order, slot) {
      forall i | i in Awaited(h, slot)
        ensures |Indices(h, FecKey(slot, i))| >= 32
      {
        var k := SeenHasSet(sets, order, slot, i);
        HistoryIndices(sets, order, k);
        assert IsDue(sets, order, slot, k);
      }
    }
    if Complete(h, slot) {
      forall k | 0 <= k < |sets| && IsDue(sets, order, slot, k)
        ensures |Got(order, k)| >= 32
      {
        HistoryIndices(sets, order, k);
        assert SetKey(sets[k]) == FecKey(slot, sets[k].params.fecSetIndex);
      }
    }
  }

  // ---------------------------------------------------------------- the theorem

  /** The event reports the delivered sets up to the last marker: their roots in ascending order of set
      index, the aggregate root, 32 shreds a set and confidence one. */
  ghost predicate Reports(env: Env, sets: seq<BuiltSet>, order: seq<Pick>, slot: nat, e: FecEvent)
    requires ValidPicks(sets, order)
  {
    var due := Ascending(DueSets(sets, order, slot));
    && e.SlotFinalized? && e.slot == slot
    && |e.fecRoots| == |due| > 0
    && (forall j, k :: 0 <= j < |due| && 0 <= k < |sets| && SetKey(sets[k]) == FecKey(slot, due[j]) ==>
          e.fecRoots[j] == sets[k].fec.merkleRoot)
    && e.slotRoot == SlotRoot(env.crypto.sha, e.fecRoots)
    && e.totalShredsObserved == 32 * |due| && e.slotDasConfidence == 1.0
  }

  lemma ExpectedReports(env: Env, sets: seq<BuiltSet>, order: seq<Pick>, slot: nat)
    requires AllSized(sets) && DistinctKeys(sets) && ValidPicks(sets, order)
    requires Complete(History(sets, order), slot)
    ensures Reports(env, sets, order, slot, ExpectedFinal(env, History(sets, order), slot))
  {
    var h := History(sets, order);
    var due, e := Ascending(DueSets(sets, order, slot)), ExpectedFinal(env, h, slot);
    HistorySeen(sets, order, slot);
    FinalizedNonEmpty(env, h, slot);
    SeenHaveRoots(h, slot);
    forall j, k | 0 <= j < |due| && 0 <= k < |sets| && SetKey(sets[k]) == FecKey(slot, due[j])
      ensures e.fecRoots[j] == sets[k].fec.merkleRoot
    {
      assert due[j] in due;
      HistoryIndices(sets, order, k);
      assert FirstRoot(h, SetKey(sets[k])).Some?;
    }
  }

  lemma HistoryPrefix(sets: seq<BuiltSet>, order: seq<Pick>, q: nat)
    requires AllSized(sets) && ValidPicks(sets, order) && q <= |order|
    ensures ValidPicks(sets, order[..q]) && History(sets, order)[..q] == History(sets, order[..q])
  {
  }

  /** Where the delivery first finishes the slot. */
  ghost predicate FirstFinish(sets: seq<BuiltSet>, order: seq<Pick>, slot: nat, q: nat)
    requires ValidPicks(sets, order)
  {
    && q <= |order| && Finished(sets, order[..q], slot)
    && forall r :: 0 <= r < q ==> !Finished(sets, order[..r], slot)
  }

  /** The finalizations of the slot: one, when the delivery first finishes it, or none if it never does. */
  ghost predicate FinalizedExactly(
    env: Env, sets: seq<BuiltSet>, order: seq<Pick>, slot: nat, finals: seq<FecEvent>, at: Option<nat>)
    requires ValidPicks(sets, order)
  {
    match at
    case None => finals == [] && forall q :: 0 <= q <= |order| ==> !Finished(sets, order[..q], slot)
    case Some(q) =>
      FirstFinish(sets, order, slot, q) && |finals| == 1 && Reports(env, sets, order[..q], slot, finals[0])
  }

  lemma HistoryFinals(env: Env, sets: seq<BuiltSet>, order: seq<Pick>, slot: nat) returns (at: Option<nat>)
    requires AllSized(sets) && DistinctKeys(sets) && ValidPicks(sets, order) && RecoversFromHalf(env.rs)
    ensures FinalizedExactly(env, sets, order, slot, Finals(Run(env, History(sets, order)).log, slot), at)
  {
    var h := History(sets, order);
    FinalizationExact(env, h, slot);
    forall q | 0 <= q <= |order|
      ensures Finished(sets, order[..q], slot) <==> Complete(h[..q], slot)
    {
      HistoryPrefix(sets, order, q);
      FinishedIsComplete(sets, order[..q], slot);
    }
    at := FirstComplete(h, slot);
    if at.Some? {
      HistoryPrefix(sets, order, at.value);
      ExpectedReports(env, sets, order[..at.value], slot);
    }
  }

  lemma DeliveredRun(env: Env, sets: seq<BuiltSet>, order: seq<Pick>)
    requires AllBuilt(env, sets) && ValidPicks(sets, order) && SignaturesVerify(env.crypto)
    ensures RunRaw(env, Deliver(sets, order)) == Run(env, History(sets, order))
  {
    var raws, h := Deliver(sets, order), History(sets, order);
    forall j | 0 <= j < |h|
      ensures Admit(env, raws[j]) == Admitted(h[j])
    {
      var b := sets[order[j].which];
      BuiltShredAdmitted(env, b.payload, b.params, b.fec, order[j].shred);
    }
    AdmittedRun(env, raws, h);
  }

  /** Each set has one Reconstructed, with its root, exactly from 32 distinct shreds on, and no other key
      has any. */
  ghost predicate RebuiltExactly(sets: seq<BuiltSet>, order: seq<Pick>, log: seq<FecEvent>) {
    && (forall k :: 0 <= k < |sets| ==> Rebuilds(log, SetKey(sets[k])) == SetRebuilds(sets[k], |Got(order, k)|))
    && (forall key :: (forall k :: 0 <= k < |sets| ==> SetKey(sets[k]) != key) ==> Rebuilds(log, key) == [])
  }

  function SetRebuilds(b: BuiltSet, distinct: nat): seq<FecEvent> {
    if distinct >= 32 then [Reconstructed(SetKey(b), b.fec.merkleRoot, 1.0)] else []
  }

  lemma HistoryRebuilds(env: Env, sets: seq<BuiltSet>, order: seq<Pick>)
    requires AllSized(sets) && DistinctKeys(sets) && ValidPicks(sets, order) && RecoversFromHalf(env.rs)
    ensures forall e :: e in Run(env, History(sets, order)).log ==> !e.Rejected?
    ensures RebuiltExactly(sets, order, Run(env, History(sets, order)).log)
  {
    var h := History(sets, order);
    HistoryCoherent(sets, order);
    CoherentRun(env, h, FecKey(0, 0));
    forall k | 0 <= k < |sets|
      ensures Rebuilds(Run(env, h).log, SetKey(sets[k])) == SetRebuilds(sets[k], |Got(order, k)|)
    {
      HistoryIndices(sets, order, k);
      CoherentRun(env, h, SetKey(sets[k]));
    }
    forall key | forall k :: 0 <= k < |sets| ==> SetKey(sets[k]) != key
      ensures Rebuilds(Run(env, h).log, key) == []
    {
      HistoryForeign(sets, order, key);
      CoherentRun(env, h, key);
    }
  }

  /** End to end: any shreds of any number of built sets, interleaved in any order and with repeats, given
      to a fresh assembler that knows the leaders. Nothing is rejected; each set has exactly one
      Reconstructed, with its builder's root, if 32 distinct shreds of it occur and none otherwise; and a
      slot is finalized once, when the delivery first finishes it, with the roots of the seen sets up to
      the last marked one in order. */
  lemma BuiltSetsDelivered(env: Env, sets: seq<BuiltSet>, order: seq<Pick>, slot: nat) returns (at: Option<nat>)
    requires AllBuilt(env, sets) && ValidPicks(sets, order)
    requires SignaturesVerify(env.crypto) && RecoversFromHalf(env.rs)
    ensures forall e :: e in RunRaw(env, Deliver(sets, order)).log ==> !e.Rejected?
    ensures RebuiltExactly(sets, order, RunRaw(env, Deliver(sets, order)).log)
    ensures FinalizedExactly(env, sets, order, slot, Finals(RunRaw(env, Deliver(sets, order)).log, slot), at)
  {
    DeliveredRun(env, sets, order);
    HistoryRebuilds(env, sets, order);
    at := HistoryFinals(env, sets, order, slot);
  }

  // ---------------------------------------------------------------- one set

  /** A delivery drawn from the first set alone. */
  function OfFirst(ids: seq<nat>): (order: seq<Pick>)
    ensures |order| == |ids| && forall j :: 0 <= j < |ids| ==> order[j] == Pick(0, ids[j])
  {
    seq(|ids|, j requires 0 <= j < |ids| => Pick(0, ids[j]))
  }

  /** The distinct shreds of a delivery and whether a marked one is among them. */
  predicate EndsSlot(b: BuiltSet, ids: seq<nat>) {
    b.params.flags >= 128 && exists i :: i in ids && i < 32
  }

  lemma OneSetDelivery(b: BuiltSet, ids: seq<nat>)
    requires forall j :: 0 <= j < |ids| ==> ids[j] < SHREDS_PER_FEC
    ensures ValidPicks([b], OfFirst(ids))
    ensures Got(OfFirst(ids), 0) == Elems(ids)
    ensures MarkedSets([b], OfFirst(ids), b.params.slot) == if EndsSlot(b, ids) then {b.params.fecSetIndex} else {}
    ensures SeenSets([b], OfFirst(ids), b.params.slot) <= {b.params.fecSetIndex}
  {
    var order := OfFirst(ids);
    forall i | i in ids
      ensures Pick(0, i) in order && InSlot([b], Pick(0, i), b.params.slot)
    {
      var j :| 0 <= j < |ids| && ids[j] == i;
      assert order[j] == Pick(0, i);
    }
    forall d | d in order
      ensures d.which == 0 && d.shred in ids
    {
      var j :| 0 <= j < |order| && order[j] == d;
    }
    if EndsSlot(b, ids) {
      var i :| i in ids && i < 32;
      assert Pick(0, i) in order;
      assert b.params.fecSetIndex in MarkedSets([b], order, b.params.slot);
    }
  }

  lemma OneSetFinished(b: BuiltSet, ids: seq<nat>)
    requires forall j :: 0 <= j < |ids| ==> ids[j] < SHREDS_PER_FEC
    ensures ValidPicks([b], OfFirst(ids))
    ensures Got(OfFirst(ids), 0) == Elems(ids)
    ensures DueSets([b], OfFirst(ids), b.params.slot) == if EndsSlot(b, ids) then {b.params.fecSetIndex} else {}
    ensures Finished([b], OfFirst(ids), b.params.slot) <==> EndsSlot(b, ids) && |Elems(ids)| >= 32
  {
    OneSetDelivery(b, ids);
    var marked := MarkedSets([b], OfFirst(ids), b.params.slot);
    assert marked <= SeenSets([b], OfFirst(ids), b.params.slot);
    assert EndsSlot(b, ids) ==> b.params.fecSetIndex in marked;
  }

  lemma OneSetPrefix(b: BuiltSet, ids: seq<nat>, q: nat)
    requires forall j :: 0 <= j < |ids| ==> ids[j] < SHREDS_PER_FEC
    requires q <= |ids| && Finished([b], OfFirst(ids[..q]), b.params.slot)
    ensures OfFirst(ids)[..q] == OfFirst(ids[..q])
    ensures Finished([b], OfFirst(ids), b.params.slot)
  {
    OneSetFinished(b, ids[..q]);
    OneSetFinished(b, ids);
    SubsetCardinality(Elems(ids[..q]), Elems(ids));
    var i :| i in ids[..q] && i < 32;
    assert i in ids;
  }

  /** A report of a single due set is determined by it. */
  lemma ReportsOne(env: Env, sets: seq<BuiltSet>, order: seq<Pick>, k: nat, e: FecEvent)
    requires ValidPicks(sets, order) && k < |sets|
    requires var b := sets[k];
      Reports(env, sets, order, b.params.slot, e) && DueSets(sets, order, b.params.slot) == {b.params.fecSetIndex}
    ensures var b := sets[k];
      e == SlotFinalized(b.params.slot, [b.fec.merkleRoot], b.fec.merkleRoot, 32, 1.0)
  {
    var b := sets[k];
    AscendingOfOne(b.params.fecSetIndex);
    assert SetKey(sets[k]) == FecKey(b.params.slot, b.params.fecSetIndex);
    assert e.fecRoots == [b.fec.merkleRoot];
  }

  lemma OneSetFinals(env: Env, b: BuiltSet, ids: seq<nat>, finals: seq<FecEvent>, at: Option<nat>)
    requires forall j :: 0 <= j < |ids| ==> ids[j] < SHREDS_PER_FEC
    requires FinalizedExactly(env, [b], OfFirst(ids), b.params.slot, finals, at)
    ensures finals == if |Elems(ids)| >= 32 && EndsSlot(b, ids)
                      then [SlotFinalized(b.params.slot, [b.fec.merkleRoot], b.fec.merkleRoot, 32, 1.0)] else []
  {
    var order := OfFirst(ids);
    OneSetFinished(b, ids);
    match at {
      case Some(q) =>
        OneSetReport(env, b, ids, q, finals[0]);
      case None =>
        assert order[..|order|] == order;
    }
  }

  lemma OneSetReport(env: Env, b: BuiltSet, ids: seq<nat>, q: nat, e: FecEvent)
    requires forall j :: 0 <= j < |ids| ==> ids[j] < SHREDS_PER_FEC
    requires q <= |ids| && ValidPicks([b], OfFirst(ids)[..q]) && Finished([b], OfFirst(ids)[..q], b.params.slot)
    requires Reports(env, [b], OfFirst(ids)[..q], b.params.slot, e)
    ensures Finished([b], OfFirst(ids), b.params.slot)
    ensures e == SlotFinalized(b.params.slot, [b.fec.merkleRoot], b.fec.merkleRoot, 32, 1.0)
  {
    assert OfFirst(ids)[..q] == OfFirst(ids[..q]);
    OneSetPrefix(b, ids, q);
    OneSetFinished(b, ids[..q]);
    ReportsOne(env, [b], OfFirst(ids[..q]), 0, e);
  }

  /** The same for one set, in closed form: the slot is finalized, with the set's root as slot root,
      exactly when 32 distinct shreds, a data shred among them, are delivered and the set is flagged. */
  lemma BuiltSetDelivered(env: Env, b: BuiltSet, ids: seq<nat>)
    requires AllBuilt(env, [b]) && forall j :: 0 <= j < |ids| ==> ids[j] < SHREDS_PER_FEC
    requires SignaturesVerify(env.crypto) && RecoversFromHalf(env.rs)
    ensures var log := RunRaw(env, Deliver([b], OfFirst(ids))).log;
      && (forall e :: e in log ==> !e.Rejected?)
      && Rebuilds(log, SetKey(b)) == SetRebuilds(b, |Elems(ids)|)
      && (forall key :: key != SetKey(b) ==> Rebuilds(log, key) == [])
      && Finals(log, b.params.slot) ==
           if |Elems(ids)| >= 32 && EndsSlot(b, ids)
           then [SlotFinalized(b.params.slot, [b.fec.merkleRoot], b.fec.merkleRoot, 32, 1.0)] else []
  {
    var order := OfFirst(ids);
    var log := RunRaw(env, Deliver([b], order)).log;
    OneSetFinished(b, ids);
    var at := BuiltSetsDelivered(env, [b], order, b.params.slot);
    OneSetFinals(env, b, ids, Finals(log, b.params.slot), at);
    assert SetKey([b][0]) == SetKey(b);
    OneSetRebuilds(b, order, log);
  }

  lemma OneSetRebuilds(b: BuiltSet, order: seq<Pick>, log: seq<FecEvent>)
    requires RebuiltExactly([b], order, log)
    ensures Rebuilds(log, SetKey(b)) == SetRebuilds(b, |Got(order, 0)|)
    ensures forall key :: key != SetKey(b) ==> Rebuilds(log, key) == []
  {
    assert [b][0] == b;
  }
}
