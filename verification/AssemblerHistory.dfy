/** The assembler as a function of what was delivered: FEC sets, slots and finalizations described by
    the history alone, with no state, for any decoder that recovers from half of the shards. */
module AssemblerHistory {
  import opened Common
  import opened Merkle
  import opened ReedSolomon
  import opened Assembler
  import opened AssemblerRuns

  // ---------------------------------------------------------------- FEC sets

  /** The root of the first shred delivered for a key. */
  function FirstRoot(h: seq<Arrival>, key: FecKey): Option<Hash> {
    if h == [] then None
    else
      var before := FirstRoot(h[..|h| - 1], key);
      if before.Some? then before
      else if KeyOf(h[|h| - 1]) == key then Some(h[|h| - 1].root)
      else None
  }

  /** A shred for the key, with the key's first root and an index in range. */
  predicate Counts(h: seq<Arrival>, key: FecKey, a: Arrival) {
    KeyOf(a) == key && a.index < 64 && FirstRoot(h, key) == Some(a.root)
  }

  /** The distinct indices delivered for a key under its first root. */
  function Indices(h: seq<Arrival>, key: FecKey): set<nat> {
    set a | a in h && Counts(h, key, a) :: a.index
  }

  /** The shard of the first counted arrival at `i`, if fewer than 32 indices were in before it. */
  function Stored(h: seq<Arrival>, key: FecKey, i: nat): Option<Shard> {
    if h == [] then None
    else
      var head, a := h[..|h| - 1], h[|h| - 1];
      var before := Stored(head, key, i);
      if before.Some? then before
      else if Counts(h, key, a) && a.index == i && |Indices(head, key)| < 32 then Some(a.shard)
      else None
  }

  ghost predicate RefinedBy(fs: FecState, h: seq<Arrival>, key: FecKey) {
    && fs.merkleRoot == FirstRoot(h, key)
    && (fs.reconstructed <==> |Indices(h, key)| >= 32)
    && (fs.distinctSeen == if fs.reconstructed then 32 else |Indices(h, key)|)
    && (!fs.reconstructed ==> Filled(fs.shards) == Indices(h, key))
    && (forall i :: 0 <= i < 64 ==> fs.shards[i] == Stored(h, key, i))
  }

  lemma {:induction false} FirstRootNone(h: seq<Arrival>, key: FecKey)
    ensures FirstRoot(h, key).None? <==> forall a :: a in h ==> KeyOf(a) != key
  {
    if h != [] {
      var head, a := h[..|h| - 1], h[|h| - 1];
      FirstRootNone(head, key);
      assert forall b :: b in h <==> b in head || b == a;
    }
  }

  lemma FirstRootStep(h: seq<Arrival>, a: Arrival, key: FecKey)
    ensures FirstRoot(h + [a], key) ==
      if FirstRoot(h, key).Some? then FirstRoot(h, key) else if KeyOf(a) == key then Some(a.root) else None
  {
  }

  lemma IndicesStep(h: seq<Arrival>, a: Arrival, key: FecKey)
    ensures Indices(h + [a], key) ==
      if Counts(h + [a], key, a) then Indices(h, key) + {a.index} else Indices(h, key)
  {
    var g := h + [a];
    FirstRootStep(h, a, key);
    FirstRootNone(h, key);
    assert forall b :: b in g <==> b in h || b == a;
    forall b | b in h
      ensures Counts(g, key, b) <==> Counts(h, key, b)
    {
    }
  }

  lemma StoredStep(h: seq<Arrival>, a: Arrival, key: FecKey, i: nat)
    ensures Stored(h + [a], key, i) ==
      if Stored(h, key, i).Some? then Stored(h, key, i)
      else if Counts(h + [a], key, a) && a.index == i && |Indices(h, key)| < 32 then Some(a.shard)
      else None
  {
  }

  lemma OtherKeyRefined(fs: FecState, h: seq<Arrival>, a: Arrival, key: FecKey)
    requires RefinedBy(fs, h, key) && key != KeyOf(a)
    ensures RefinedBy(fs, h + [a], key)
  {
    FirstRootStep(h, a, key);
    IndicesStep(h, a, key);
    forall i | 0 <= i < 64
      ensures Stored(h + [a], key, i) == Stored(h, key, i)
    {
      StoredStep(h, a, key, i);
    }
  }

  lemma DoneRefined(fs: FecState, h: seq<Arrival>, a: Arrival, key: FecKey)
    requires RefinedBy(fs, h, key) && fs.reconstructed
    ensures RefinedBy(fs, h + [a], key)
  {
    FirstRootStep(h, a, key);
    IndicesStep(h, a, key);
    SubsetCardinality(Indices(h, key), Indices(h + [a], key));
    IndicesNeedRoot(h, key);
    forall i | 0 <= i < 64
      ensures Stored(h + [a], key, i) == Stored(h, key, i)
    {
      StoredStep(h, a, key, i);
    }
  }

  lemma IndicesNeedRoot(h: seq<Arrival>, key: FecKey)
    ensures Indices(h, key) != {} ==> FirstRoot(h, key).Some?
    ensures forall i :: i in Indices(h, key) ==> i < 64
  {
  }

  /** The table of a set that is still open, entry by entry. */
  lemma OpenTable(fs: FecState, h: seq<Arrival>, a: Arrival, table: Table)
    requires RefinedBy(fs, h, KeyOf(a)) && !fs.reconstructed
    requires table == if Counts(h + [a], KeyOf(a), a) && fs.shards[a.index].None?
                      then fs.shards[a.index := Some(a.shard)] else fs.shards
    ensures forall i :: 0 <= i < 64 ==> table[i] == Stored(h + [a], KeyOf(a), i)
  {
  }

  lemma AbsorbCounts(rs: ErasureCode, fs: FecState, h: seq<Arrival>, a: Arrival)
    requires RefinedBy(fs, h, KeyOf(a)) && !fs.reconstructed
    ensures var fs' := Absorb(rs, fs, a).0;
      && fs'.merkleRoot == FirstRoot(h + [a], KeyOf(a))
      && (fs'.distinctSeen > fs.distinctSeen <==> Counts(h + [a], KeyOf(a), a) && fs.shards[a.index].None?)
  {
  }

  /** One absorbed shred takes an open set to what the longer history says. */
  lemma AbsorbRefined(rs: ErasureCode, fs: FecState, h: seq<Arrival>, a: Arrival)
    requires RecoversFromHalf(rs) && RefinedBy(fs, h, KeyOf(a)) && !fs.reconstructed
    ensures RefinedBy(Absorb(rs, fs, a).0, h + [a], KeyOf(a))
  {
    var key, fs' := KeyOf(a), Absorb(rs, fs, a).0;
    AbsorbCounts(rs, fs, h, a);
    AbsorbRoot(rs, fs, a);
    IndicesStep(h, a, key);
    OpenTable(fs, h, a, fs'.shards);
    if fs'.distinctSeen > fs.distinctSeen {
      FilledUpdate(fs.shards, a.index, a.shard);
      AbsorbReconstructs(rs, fs, a);
    } else if Counts(h + [a], key, a) {
      assert a.index in Filled(fs.shards);
      assert Indices(h + [a], key) == Indices(h, key);
    }
  }

  lemma AbsorbReconstructs(rs: ErasureCode, fs: FecState, a: Arrival)
    requires RecoversFromHalf(rs) && !fs.reconstructed && fs.distinctSeen == |Filled(fs.shards)|
    requires Absorb(rs, fs, a).0.distinctSeen > fs.distinctSeen
    ensures Absorb(rs, fs, a).0.reconstructed <==> fs.distinctSeen + 1 >= 32
  {
    AbsorbRoot(rs, fs, a);
    FilledUpdate(fs.shards, a.index, a.shard);
    assert |Filled(fs.shards[a.index := Some(a.shard)])| >= 32 ==> rs.reconstructs(fs.shards[a.index := Some(a.shard)]);
  }

  /** History refinement: after any run, a FEC set is marked reconstructed exactly when 32 distinct
      indices below 64 were delivered under the key's first root; the root is the first delivered, and
      each stored shard is the first arrival at its index, up to the thirty-second. */
  lemma {:induction false} FecRefinement(env: Env, h: seq<Arrival>, key: FecKey)
    requires RecoversFromHalf(env.rs)
    ensures RefinedBy(FecOf(Run(env, h).state, key), h, key)
  {
    if h == [] {
      assert Filled(FreshFec().shards) == {};
      assert Indices([], key) == {};
    } else {
      var head, a := h[..|h| - 1], h[|h| - 1];
      var s := Run(env, head).state;
      assert h == head + [a];
      FecRefinement(env, head, key);
      RunInv(env, head);
      StepFec(env, s, a, key);
      if key != KeyOf(a) {
        OtherKeyRefined(FecOf(s, key), head, a, key);
      } else if FecOf(s, key).reconstructed {
        DoneRefined(FecOf(s, key), head, a, key);
      } else {
        AbsorbRefined(env.rs, FecOf(s, key), head, a);
      }
    }
  }

  // ---------------------------------------------------------------- which arrival a stored shard is

  ghost predicate FirstAt(h: seq<Arrival>, key: FecKey, i: nat, p: nat) {
    && p < |h| && Counts(h, key, h[p]) && h[p].index == i
    && forall q :: 0 <= q < p && Counts(h, key, h[q]) ==> h[q].index != i
  }

  lemma {:induction false} PrefixStable(h: seq<Arrival>, key: FecKey, p: nat)
    requires p <= |h|
    ensures FirstRoot(h[..p], key).Some? ==> FirstRoot(h, key) == FirstRoot(h[..p], key)
    ensures |Indices(h[..p], key)| <= |Indices(h, key)|
    decreases |h|
  {
    if p == |h| {
      assert h[..p] == h;
    } else {
      var head, a := h[..|h| - 1], h[|h| - 1];
      assert head[..p] == h[..p] && h == head + [a];
      PrefixStable(head, key, p);
      FirstRootStep(head, a, key);
      IndicesStep(head, a, key);
      SubsetCardinality(Indices(head, key), Indices(h, key));
    }
  }

  lemma {:induction false} NeverStored(h: seq<Arrival>, key: FecKey, i: nat)
    requires i !in Indices(h, key)
    ensures Stored(h, key, i) == None
  {
    if h != [] {
      var head, a := h[..|h| - 1], h[|h| - 1];
      assert h == head + [a];
      IndicesStep(head, a, key);
      NeverStored(head, key, i);
    }
  }

  lemma FirstAtHead(h: seq<Arrival>, key: FecKey, i: nat, p: nat)
    requires FirstAt(h, key, i, p)
    ensures p == |h| - 1 ==> i !in Indices(h[..p], key)
    ensures p < |h| - 1 ==> FirstAt(h[..|h| - 1], key, i, p)
  {
    var head, a := h[..|h| - 1], h[|h| - 1];
    assert h == head + [a];
    FirstRootStep(head, a, key);
    FirstRootNone(head, key);
    if p == |h| - 1 {
      forall b | b in head && Counts(head, key, b)
        ensures b.index != i
      {
        var q :| 0 <= q < |head| && head[q] == b;
        assert h[q] == b && Counts(h, key, h[q]);
      }
    } else {
      assert head[p] == h[p] && h[p] in head;
      forall q | 0 <= q < p && Counts(head, key, head[q])
        ensures head[q].index != i
      {
        assert h[q] == head[q] && Counts(h, key, h[q]);
      }
    }
  }

  /** The stored shard at an index is the first counted arrival there, unless 32 were in already. */
  lemma {:induction false} StoredIsFirst(h: seq<Arrival>, key: FecKey, i: nat, p: nat)
    requires FirstAt(h, key, i, p)
    ensures Stored(h, key, i) == if |Indices(h[..p], key)| < 32 then Some(h[p].shard) else None
    decreases |h|
  {
    var head, a := h[..|h| - 1], h[|h| - 1];
    assert h == head + [a];
    FirstAtHead(h, key, i, p);
    StoredStep(head, a, key, i);
    if p == |h| - 1 {
      NeverStored(head, key, i);
    } else {
      StoredIsFirst(head, key, i, p);
      assert head[..p] == h[..p];
      PrefixStable(head, key, p);
    }
  }

  // ---------------------------------------------------------------- slots

  /** The FEC sets of a slot of which any shred was delivered. */
  function Seen(h: seq<Arrival>, slot: nat): set<nat> {
    set a | a in h && a.slot == slot :: a.fec
  }

  /** The FEC sets of a slot of which a delivered data shred carried the last-in-slot bit. */
  function Markers(h: seq<Arrival>, slot: nat): set<nat> {
    set a | a in h && a.slot == slot && a.last :: a.fec
  }

  function LastMarker(h: seq<Arrival>, slot: nat): Option<nat> {
    if Markers(h, slot) == {} then None else Some(Greatest(Markers(h, slot)))
  }

  /** The seen sets up to the last marker. */
  function Awaited(h: seq<Arrival>, slot: nat): set<nat> {
    if LastMarker(h, slot).None? then {} else set i | i in Seen(h, slot) && i <= LastMarker(h, slot).value
  }

  /** A marker was delivered, and of every seen set up to it 32 distinct indices were. */
  predicate Complete(h: seq<Arrival>, slot: nat) {
    LastMarker(h, slot).Some? && forall i :: i in Awaited(h, slot) ==> |Indices(h, FecKey(slot, i))| >= 32
  }

  lemma SeenStep(h: seq<Arrival>, a: Arrival, slot: nat)
    ensures Seen(h + [a], slot) == if a.slot == slot then Seen(h, slot) + {a.fec} else Seen(h, slot)
    ensures Markers(h + [a], slot) == if a.slot == slot && a.last then Markers(h, slot) + {a.fec} else Markers(h, slot)
  {
  }

  lemma LastMarkerStep(h: seq<Arrival>, a: Arrival, slot: nat)
    ensures LastMarker(h + [a], slot) == if a.slot == slot then Marked(LastMarker(h, slot), a) else LastMarker(h, slot)
  {
    SeenStep(h, a, slot);
  }

  lemma MarkersAreSeen(h: seq<Arrival>, slot: nat)
    ensures Markers(h, slot) <= Seen(h, slot)
  {
  }

  /** Slot bookkeeping depends on the history alone. */
  ghost predicate SlotRefined(s: AState, h: seq<Arrival>, slot: nat) {
    var sl := SlotOf(s, slot);
    && sl.seen == Seen(h, slot)
    && sl.lastFecSetIndex == LastMarker(h, slot)
    && (forall i: nat :: i in sl.reconstructed <==> |Indices(h, FecKey(slot, i))| >= 32)
  }

  lemma {:induction false} BookkeepingRefinement(env: Env, h: seq<Arrival>, slot: nat)
    ensures SlotOf(Run(env, h).state, slot).seen == Seen(h, slot)
    ensures SlotOf(Run(env, h).state, slot).lastFecSetIndex == LastMarker(h, slot)
  {
    if h != [] {
      var head, a := h[..|h| - 1], h[|h| - 1];
      assert h == head + [a];
      BookkeepingRefinement(env, head, slot);
      RunInv(env, head);
      StepBookkeeping(env, Run(env, head).state, a, slot);
      SeenStep(head, a, slot);
      LastMarkerStep(head, a, slot);
    }
  }

  lemma StepBookkeeping(env: Env, s: AState, a: Arrival, slot: nat)
    requires SlotInv(s, a.slot)
    ensures var sl, sl' := SlotOf(s, slot), SlotOf(Accept(env, s, a).0, slot);
      && sl'.seen == (if slot == a.slot then sl.seen + {a.fec} else sl.seen)
      && sl'.lastFecSetIndex == (if slot == a.slot then Marked(sl.lastFecSetIndex, a) else sl.lastFecSetIndex)
  {
    StepSlot(env, s, a, slot);
  }

  lemma StepSlot(env: Env, s: AState, a: Arrival, slot: nat)
    requires SlotInv(s, a.slot)
    ensures SlotOf(Accept(env, s, a).0, slot) ==
      var n := Noted(env, s, a);
      if slot == a.slot then n.(finalized := n.finalized || Ready(n)) else SlotOf(s, slot)
  {
    AcceptShape(env, s, a);
  }

  lemma SlotRefinement(env: Env, h: seq<Arrival>, slot: nat)
    requires RecoversFromHalf(env.rs)
    ensures SlotRefined(Run(env, h).state, h, slot)
    ensures Ready(SlotOf(Run(env, h).state, slot)) <==> Complete(h, slot)
    ensures Due(SlotOf(Run(env, h).state, slot)) == Awaited(h, slot)
  {
    var s := Run(env, h).state;
    BookkeepingRefinement(env, h, slot);
    RunInv(env, h);
    assert SlotInv(s, slot);
    forall i: nat
      ensures i in SlotOf(s, slot).reconstructed <==> |Indices(h, FecKey(slot, i))| >= 32
    {
      FecRefinement(env, h, FecKey(slot, i));
      assert i in SlotOf(s, slot).reconstructed <==> FecOf(s, FecKey(slot, i)).reconstructed;
    }
    MarkersAreSeen(h, slot);
  }

  // ---------------------------------------------------------------- finalization

  /** The length of the shortest complete prefix. */
  function FirstComplete(h: seq<Arrival>, slot: nat): (r: Option<nat>)
    ensures r.Some? ==> r.value <= |h| && Complete(h[..r.value], slot)
    ensures r.Some? ==> forall q :: 0 <= q < r.value ==> !Complete(h[..q], slot)
    ensures r.None? ==> forall q :: 0 <= q <= |h| ==> !Complete(h[..q], slot)
  {
    if h == [] then
      assert h[..0] == [];
      None
    else
      var head := h[..|h| - 1];
      assert forall q :: 0 <= q <= |head| ==> head[..q] == h[..q];
      assert h[..|h|] == h;
      var before := FirstComplete(head, slot);
      if before.Some? then before
      else if Complete(h, slot) then Some(|h|)
      else None
  }

  /** The first roots of the listed sets. */
  function RootsOf(h: seq<Arrival>, slot: nat, indices: seq<nat>): seq<Hash>
    requires forall i :: i in indices ==> FirstRoot(h, FecKey(slot, i)).Some?
  {
    seq(|indices|, k requires 0 <= k < |indices| =>
      assert indices[k] in indices; FirstRoot(h, FecKey(slot, indices[k])).value)
  }

  lemma SeenHaveRoots(h: seq<Arrival>, slot: nat)
    ensures forall i :: i in Seen(h, slot) ==> FirstRoot(h, FecKey(slot, i)).Some?
  {
    forall i | i in Seen(h, slot)
      ensures FirstRoot(h, FecKey(slot, i)).Some?
    {
      FirstRootNone(h, FecKey(slot, i));
      var a :| a in h && a.slot == slot && a.fec == i;
      assert KeyOf(a) == FecKey(slot, i);
    }
  }

  /** The finalization event a complete history stands for. */
  ghost function ExpectedFinal(env: Env, h: seq<Arrival>, slot: nat): FecEvent {
    SeenHaveRoots(h, slot);
    var due := Ascending(Awaited(h, slot));
    var roots := RootsOf(h, slot, due);
    SlotFinalized(slot, roots, SlotRoot(env.crypto.sha, roots), 32 * |due|, 1.0)
  }

  lemma {:induction false} CollectExpected(states: map<FecKey, FecState>, h: seq<Arrival>, slot: nat, indices: seq<nat>)
    requires forall i :: i in indices ==>
      && FecKey(slot, i) in states && states[FecKey(slot, i)].distinctSeen == 32
      && states[FecKey(slot, i)].confidence == 1.0
      && FirstRoot(h, FecKey(slot, i)).Some? && states[FecKey(slot, i)].merkleRoot == FirstRoot(h, FecKey(slot, i))
    ensures Collect(states, slot, indices) ==
      Some(Summary(RootsOf(h, slot, indices), 32 * |indices|, if indices == [] then 1.0 else 0.0))
  {
    if indices != [] {
      var n := |indices| - 1;
      assert forall i :: i in indices[..n] ==> i in indices;
      assert indices[n] in indices;
      CollectExpected(states, h, slot, indices[..n]);
      assert RootsOf(h, slot, indices)
          == RootsOf(h, slot, indices[..n]) + [FirstRoot(h, FecKey(slot, indices[n])).value];
    }
  }

  /** On a complete history the collected summary is the expected one. */
  lemma FinalAsExpected(env: Env, h: seq<Arrival>, slot: nat, n: SlotState)
    requires RecoversFromHalf(env.rs) && Complete(h, slot) && Due(n) == Awaited(h, slot)
    ensures Collect(Run(env, h).state.states, slot, Ascending(Due(n))).Some?
    ensures Final(env, Run(env, h).state.states, slot, n) == ExpectedFinal(env, h, slot)
  {
    var s := Run(env, h).state;
    var due := Ascending(Due(n));
    RunInv(env, h);
    SeenHaveRoots(h, slot);
    BookkeepingRefinement(env, h, slot);
    assert SlotInv(s, slot);
    forall i | i in due
      ensures FecKey(slot, i) in s.states && FecOf(s, FecKey(slot, i)).distinctSeen == 32
      ensures FecOf(s, FecKey(slot, i)).confidence == 1.0
      ensures FecOf(s, FecKey(slot, i)).merkleRoot == FirstRoot(h, FecKey(slot, i))
      ensures FirstRoot(h, FecKey(slot, i)).Some?
    {
      assert i in Awaited(h, slot) && i in SlotOf(s, slot).seen;
      FecRefinement(env, h, FecKey(slot, i));
      assert FecInv(FecOf(s, FecKey(slot, i)));
    }
    CollectExpected(s.states, h, slot, due);
    MarkersAreSeen(h, slot);
    assert LastMarker(h, slot).value in due;
  }

  lemma OtherSlotComplete(h: seq<Arrival>, a: Arrival, slot: nat)
    requires a.slot != slot
    ensures Complete(h + [a], slot) <==> Complete(h, slot)
  {
    SeenStep(h, a, slot);
    forall i: nat
      ensures Indices(h + [a], FecKey(slot, i)) == Indices(h, FecKey(slot, i))
    {
      IndicesStep(h, a, FecKey(slot, i));
    }
  }

  lemma FinalizedIff(env: Env, head: seq<Arrival>, a: Arrival, slot: nat)
    requires RecoversFromHalf(env.rs)
    requires SlotOf(Run(env, head).state, slot).finalized <==> FirstComplete(head, slot).Some?
    ensures SlotOf(Run(env, head + [a]).state, slot).finalized <==> FirstComplete(head + [a], slot).Some?
    ensures slot == a.slot ==>
      (Fires(Noted(env, Run(env, head).state, a)) <==> FirstComplete(head, slot).None? && Complete(head + [a], slot))
  {
    var h, s := head + [a], Run(env, head).state;
    assert h[..|h| - 1] == head;
    RunInv(env, head);
    StepSlot(env, s, a, slot);
    if slot == a.slot {
      SlotRefinement(env, h, slot);
      var n := Noted(env, s, a);
      assert Due(SlotOf(Run(env, h).state, slot)) == Due(n);
    } else {
      OtherSlotComplete(head, a, slot);
      assert FirstComplete(head, slot).None? ==> !Complete(head[..|head|], slot);
      assert head[..|head|] == head;
    }
  }

  ghost function ExpectedFinals(env: Env, h: seq<Arrival>, slot: nat): seq<FecEvent> {
    match FirstComplete(h, slot)
    case None => []
    case Some(p) => [ExpectedFinal(env, h[..p], slot)]
  }

  lemma ExpectedFinalsStep(env: Env, head: seq<Arrival>, a: Arrival, slot: nat)
    ensures ExpectedFinals(env, head + [a], slot) ==
      if FirstComplete(head, slot).Some? then ExpectedFinals(env, head, slot)
      else if Complete(head + [a], slot) then [ExpectedFinal(env, head + [a], slot)]
      else []
  {
    var h := head + [a];
    assert h[..|h| - 1] == head;
    match FirstComplete(head, slot) {
      case Some(p) => assert h[..p] == head[..p];
      case None => assert h[..|h|] == h;
    }
  }

  /** Finalization, exactly: a slot's SlotFinalized is emitted at its first complete prefix and never
      otherwise, and it reports the first roots of the then-seen sets up to the last marker in ascending
      order, their aggregate root, 32 shreds a set and confidence one. */
  lemma {:induction false} FinalizationExact(env: Env, h: seq<Arrival>, slot: nat)
    requires RecoversFromHalf(env.rs)
    ensures SlotOf(Run(env, h).state, slot).finalized <==> FirstComplete(h, slot).Some?
    ensures Finals(Run(env, h).log, slot) == ExpectedFinals(env, h, slot)
  {
    if h == [] {
      assert FirstComplete(h, slot) == None;
    } else {
      var head, a := h[..|h| - 1], h[|h| - 1];
      var s := Run(env, head).state;
      assert h == head + [a];
      FinalizationExact(env, head, slot);
      FinalizedIff(env, head, a, slot);
      ExpectedFinalsStep(env, head, a, slot);
      RunInv(env, head);
      StepFinals(env, s, a, slot);
      FinalsAppend(Run(env, head).log, Accept(env, s, a).1, slot);
      if slot == a.slot && Fires(Noted(env, s, a)) {
        FiringReports(env, head, a);
      } else if slot != a.slot {
        OtherSlotComplete(head, a, slot);
        assert FirstComplete(head, slot).None? ==> !Complete(head[..|head|], slot);
        assert head[..|head|] == head;
      }
    }
  }

  lemma FiringReports(env: Env, head: seq<Arrival>, a: Arrival)
    requires RecoversFromHalf(env.rs)
    requires Complete(head + [a], a.slot)
    ensures var s := Run(env, head).state;
      && Collect(NextStates(env, s, a), a.slot, Ascending(Due(Noted(env, s, a)))).Some?
      && Final(env, NextStates(env, s, a), a.slot, Noted(env, s, a)) == ExpectedFinal(env, head + [a], a.slot)
  {
    var h, s := head + [a], Run(env, head).state;
    assert h[..|h| - 1] == head;
    RunInv(env, head);
    AcceptShape(env, s, a);
    StepSlot(env, s, a, a.slot);
    SlotRefinement(env, h, a.slot);
    var n := Noted(env, s, a);
    assert Due(SlotOf(Run(env, h).state, a.slot)) == Due(n);
    FinalAsExpected(env, h, a.slot, n);
  }

  // ---------------------------------------------------------------- what a finalization covers

  /** A finalization lists at least one root, and each listed root has a proof that the shred verifier
      checks against the slot root. */
  lemma FinalizedRootsProvable(env: Env, h: seq<Arrival>, slot: nat, k: nat)
    requires Complete(h, slot) && k < |ExpectedFinal(env, h, slot).fecRoots|
    ensures ExpectedFinal(env, h, slot).fecRoots != []
    ensures var e := ExpectedFinal(env, h, slot);
      RecoverRoot(env.crypto.sha, k, e.fecRoots[k], Flatten(Path(env.crypto.sha, e.fecRoots, k))) == Ok(e.slotRoot)
  {
    PathAccepted(env.crypto.sha, ExpectedFinal(env, h, slot).fecRoots, k);
  }

  lemma FinalizedNonEmpty(env: Env, h: seq<Arrival>, slot: nat)
    requires Complete(h, slot)
    ensures |ExpectedFinal(env, h, slot).fecRoots| == |Awaited(h, slot)| > 0
  {
  }

  lemma AscendingOfOne(x: nat)
    ensures Ascending({x}) == [x]
  {
    AscendingUnique(Ascending({x}), [x]);
  }

  /** The event reports every one of the `produced` sets, in order, and each is reconstructed in `s`. */
  ghost predicate CoversAll(s: AState, slot: nat, produced: set<nat>, e: FecEvent) {
    && e.SlotFinalized? && |e.fecRoots| == |produced|
    && forall k :: 0 <= k < |produced| ==>
         var fs := FecOf(s, FecKey(slot, Ascending(produced)[k]));
         fs.reconstructed && fs.merkleRoot == Some(e.fecRoots[k])
  }

  /** Every produced set was seen, and none lies beyond the last marker. */
  predicate AllDue(g: seq<Arrival>, slot: nat, produced: set<nat>)
    requires LastMarker(g, slot).Some?
  {
    produced <= Seen(g, slot) && forall i :: i in produced ==> i <= LastMarker(g, slot).value
  }

  lemma AllDueIff(g: seq<Arrival>, slot: nat, produced: set<nat>)
    requires LastMarker(g, slot).Some? && Seen(g, slot) <= produced
    ensures AllDue(g, slot, produced) <==> Awaited(g, slot) == produced
  {
  }

  lemma CoverageAt(env: Env, g: seq<Arrival>, slot: nat, produced: set<nat>)
    requires RecoversFromHalf(env.rs) && Complete(g, slot) && Seen(g, slot) <= produced
    ensures CoversAll(Run(env, g).state, slot, produced, ExpectedFinal(env, g, slot)) <==> AllDue(g, slot, produced)
  {
    var s, e := Run(env, g).state, ExpectedFinal(env, g, slot);
    AllDueIff(g, slot, produced);
    SubsetCardinality(Awaited(g, slot), produced);
    SeenHaveRoots(g, slot);
    if Awaited(g, slot) == produced {
      forall k | 0 <= k < |produced|
        ensures var fs := FecOf(s, FecKey(slot, Ascending(produced)[k]));
          fs.reconstructed && fs.merkleRoot == Some(e.fecRoots[k])
      {
        var i := Ascending(produced)[k];
        assert i in Awaited(g, slot);
        FecRefinement(env, g, FecKey(slot, i));
      }
    }
  }

  /** When the SlotFinalized of a run reports every set the leader produced, each of them reconstructed by
      then: exactly when, at the first complete prefix, a shred of each had been seen and no produced set
      lay beyond the last marker. */
  lemma CoverageIff(env: Env, h: seq<Arrival>, slot: nat, produced: set<nat>) returns (p: nat, e: FecEvent)
    requires RecoversFromHalf(env.rs) && FirstComplete(h, slot).Some?
    requires Seen(h, slot) <= produced
    ensures FirstComplete(h, slot) == Some(p) && Finals(Run(env, h).log, slot) == [e]
    ensures CoversAll(Run(env, h[..p]).state, slot, produced, e) <==> AllDue(h[..p], slot, produced)
  {
    p := FirstComplete(h, slot).value;
    e := ExpectedFinal(env, h[..p], slot);
    assert forall a :: a in h[..p] ==> a in h;
    FinalizationExact(env, h, slot);
    CoverageAt(env, h[..p], slot, produced);
  }
}
