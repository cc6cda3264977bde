/** What every run of the assembler keeps, for any erasure decoder: finalization is neither lost nor
    repeated, slots do not interfere, and each FEC set's events follow one script. */
module AssemblerRuns {
  import opened Common
  import opened Shred
  import opened ReedSolomon
  import opened Das
  import opened Assembler

  /** A run over admitted shreds. */
  ghost function Run(env: Env, h: seq<Arrival>): Outcome {
    if h == [] then Outcome(EMPTY, [])
    else
      var before := Run(env, h[..|h| - 1]);
      var (s, events) := Accept(env, before.state, h[|h| - 1]);
      Outcome(s, before.log + events)
  }

  // ---------------------------------------------------------------- invariant

  ghost predicate SlotInv(s: AState, slot: nat) {
    var sl := SlotOf(s, slot);
    && (forall i: nat :: i in sl.seen <==> FecKey(slot, i) in s.states)
    && (forall i: nat :: i in sl.seen ==> FecOf(s, FecKey(slot, i)).merkleRoot.Some?)
    && (forall i: nat :: i in sl.reconstructed <==> FecOf(s, FecKey(slot, i)).reconstructed)
    && (sl.lastShredSeen <==> sl.lastFecSetIndex.Some?)
    && (sl.lastFecSetIndex.Some? ==> sl.lastFecSetIndex.value in sl.seen)
    && (Ready(sl) ==> sl.finalized)
  }

  ghost predicate FecInv(fs: FecState) {
    && fs.distinctSeen == |Filled(fs.shards)|
    && (fs.merkleRoot.None? ==> fs.distinctSeen == 0 && !fs.reconstructed)
    && (fs.reconstructed ==> fs.distinctSeen >= THRESHOLD && fs.confidence == Confidence(fs.distinctSeen))
  }

  ghost predicate Inv(s: AState) {
    && (forall slot: nat :: SlotInv(s, slot))
    && (forall key: FecKey :: FecInv(FecOf(s, key)))
  }

  // ---------------------------------------------------------------- one step, without attempts

  ghost function NextFec(env: Env, s: AState, a: Arrival): FecState {
    var fs := FecOf(s, KeyOf(a));
    if fs.reconstructed then fs else Absorb(env.rs, fs, a).0
  }

  ghost function FecEvents(env: Env, s: AState, a: Arrival): seq<FecEvent> {
    var fs := FecOf(s, KeyOf(a));
    if fs.reconstructed then [] else Absorb(env.rs, fs, a).1
  }

  ghost function Noted(env: Env, s: AState, a: Arrival): SlotState {
    var sl := Note(SlotOf(s, a.slot), a);
    if NextFec(env, s, a).reconstructed then sl.(reconstructed := sl.reconstructed + {a.fec}) else sl
  }

  ghost predicate Fires(n: SlotState) { Ready(n) && !n.finalized }

  ghost function NextStates(env: Env, s: AState, a: Arrival): map<FecKey, FecState> {
    s.states[KeyOf(a) := NextFec(env, s, a)]
  }

  ghost function Final(env: Env, states: map<FecKey, FecState>, slot: nat, n: SlotState): FecEvent
    requires Collect(states, slot, Ascending(Due(n))).Some?
  {
    FinalEvent(env, slot, Collect(states, slot, Ascending(Due(n))).value)
  }

  /** An unreconstructed set never makes its slot ready. */
  lemma UnreconstructedNeverFires(env: Env, s: AState, a: Arrival)
    requires SlotInv(s, a.slot) && !NextFec(env, s, a).reconstructed
    ensures !Fires(Noted(env, s, a))
  {
  }

  lemma {:induction false} CollectSucceeds(states: map<FecKey, FecState>, slot: nat, indices: seq<nat>)
    requires forall i :: i in indices ==> FecKey(slot, i) in states && states[FecKey(slot, i)].merkleRoot.Some?
    ensures Collect(states, slot, indices).Some?
  {
    if indices != [] {
      var n := |indices| - 1;
      assert forall i :: i in indices[..n] ==> i in indices;
      assert indices[n] in indices;
      CollectSucceeds(states, slot, indices[..n]);
    }
  }

  lemma AbsorbKeepsRoot(rs: ErasureCode, fs: FecState, a: Arrival)
    ensures Absorb(rs, fs, a).0.merkleRoot.Some?
  {
  }

  lemma NextCollects(env: Env, s: AState, a: Arrival)
    requires SlotInv(s, a.slot)
    ensures Collect(NextStates(env, s, a), a.slot, Ascending(Due(Noted(env, s, a)))).Some?
  {
    var states, n := NextStates(env, s, a), Noted(env, s, a);
    var due := Ascending(Due(n));
    AbsorbKeepsRoot(env.rs, FecOf(s, KeyOf(a)), a);
    forall i | i in due
      ensures FecKey(a.slot, i) in states && states[FecKey(a.slot, i)].merkleRoot.Some?
    {
      assert i in Due(n);
      if i != a.fec {
        assert i in SlotOf(s, a.slot).seen;
      } else if FecOf(s, KeyOf(a)).reconstructed {
        assert KeyOf(a) == FecKey(a.slot, i);
        assert i in SlotOf(s, a.slot).reconstructed;
        assert FecOf(s, FecKey(a.slot, i)).reconstructed;
        assert KeyOf(a) in s.states;
        assert i in SlotOf(s, a.slot).seen;
      }
    }
    CollectSucceeds(states, a.slot, due);
  }

  lemma AttemptShape(env: Env, states: map<FecKey, FecState>, slot: nat, n: SlotState)
    requires Collect(states, slot, Ascending(Due(n))).Some?
    ensures Attempt(env, states, slot, n) ==
      (n.(finalized := n.finalized || Ready(n)), if Fires(n) then [Final(env, states, slot, n)] else [])
  {
  }

  /** Either a finalization is attempted on the noted slot, or none would have fired. */
  lemma AcceptAttempts(env: Env, s: AState, a: Arrival)
    requires SlotInv(s, a.slot)
    ensures var n, fs := Noted(env, s, a), NextFec(env, s, a);
      var before := AState(NextStates(env, s, a), s.slots[a.slot := n]);
      Accept(env, s, a) ==
        if fs.reconstructed then
          (TryFinalize(env, before, a.slot).0, FecEvents(env, s, a) + TryFinalize(env, before, a.slot).1)
        else (before, FecEvents(env, s, a))
  {
    var fs, n := FecOf(s, KeyOf(a)), Noted(env, s, a);
    if fs.reconstructed {
      assert FecOf(s, FecKey(a.slot, a.fec)).reconstructed;
      assert n == Note(SlotOf(s, a.slot), a);
      var before := AState(NextStates(env, s, a), s.slots[a.slot := n]);
      assert [] + TryFinalize(env, before, a.slot).1 == TryFinalize(env, before, a.slot).1;
    }
  }

  /** The step, without saying when a finalization is attempted: the flag is set and the event emitted
      exactly when the slot becomes ready, and collecting its roots never fails. */
  lemma AcceptShape(env: Env, s: AState, a: Arrival)
    requires SlotInv(s, a.slot)
    ensures var n := Noted(env, s, a);
      && Collect(NextStates(env, s, a), a.slot, Ascending(Due(n))).Some?
      && Accept(env, s, a) ==
           (AState(NextStates(env, s, a), s.slots[a.slot := n.(finalized := n.finalized || Ready(n))]),
            FecEvents(env, s, a) + (if Fires(n) then [Final(env, NextStates(env, s, a), a.slot, n)] else []))
  {
    var n, states := Noted(env, s, a), NextStates(env, s, a);
    NextCollects(env, s, a);
    AcceptAttempts(env, s, a);
    if NextFec(env, s, a).reconstructed {
      AttemptShape(env, states, a.slot, n);
      UpdateTwice(s.slots, a.slot, n, n.(finalized := n.finalized || Ready(n)));
    } else {
      UnreconstructedNeverFires(env, s, a);
      assert n == n.(finalized := n.finalized || Ready(n));
      assert FecEvents(env, s, a) + [] == FecEvents(env, s, a);
    }
  }

  /** A step emits the set-level events, then at most one finalization. */
  lemma AcceptEvents(env: Env, s: AState, a: Arrival) returns (tail: seq<FecEvent>)
    requires SlotInv(s, a.slot)
    ensures Accept(env, s, a).1 == FecEvents(env, s, a) + tail
    ensures |tail| <= 1 && forall i :: 0 <= i < |tail| ==> tail[i].SlotFinalized? && tail[i].slot == a.slot
    ensures !NextFec(env, s, a).reconstructed ==> tail == []
  {
    AcceptShape(env, s, a);
    var n := Noted(env, s, a);
    tail := if Fires(n) then [Final(env, NextStates(env, s, a), a.slot, n)] else [];
    if !NextFec(env, s, a).reconstructed {
      UnreconstructedNeverFires(env, s, a);
    }
  }

  // ---------------------------------------------------------------- the invariant is kept

  lemma FilledUpdate(t: Table, i: nat, shard: Shard)
    requires i < 64 && t[i].None?
    ensures Filled(t[i := Some(shard)]) == Filled(t) + {i}
    ensures |Filled(t[i := Some(shard)])| == |Filled(t)| + 1
  {
  }

  lemma AbsorbKeepsInv(rs: ErasureCode, fs: FecState, a: Arrival)
    requires FecInv(fs) && !fs.reconstructed
    ensures FecInv(Absorb(rs, fs, a).0)
  {
    if a.index < 64 && fs.shards[a.index].None? {
      FilledUpdate(fs.shards, a.index, a.shard);
    }
  }

  lemma FreshInv()
    ensures FecInv(FreshFec())
  {
  }

  lemma AcceptKeepsSlotInv(env: Env, s: AState, a: Arrival, slot: nat)
    requires SlotInv(s, a.slot) && SlotInv(s, slot)
    ensures SlotInv(Accept(env, s, a).0, slot)
  {
    AcceptShape(env, s, a);
    var t := Accept(env, s, a).0;
    if slot != a.slot {
      assert SlotOf(t, slot) == SlotOf(s, slot);
      assert forall i: nat :: FecKey(slot, i) != KeyOf(a);
    } else {
      NotedInv(env, s, a);
    }
  }

  lemma NotedInv(env: Env, s: AState, a: Arrival)
    requires SlotInv(s, a.slot)
    ensures var n := Noted(env, s, a);
      SlotInv(AState(NextStates(env, s, a), s.slots[a.slot := n.(finalized := n.finalized || Ready(n))]), a.slot)
  {
    var n, states := Noted(env, s, a), NextStates(env, s, a);
    var done := n.(finalized := n.finalized || Ready(n));
    var t := AState(states, s.slots[a.slot := done]);
    assert SlotOf(t, a.slot) == done;
    AbsorbKeepsRoot(env.rs, FecOf(s, KeyOf(a)), a);
    forall i: nat
      ensures i in n.seen <==> FecKey(a.slot, i) in states
      ensures i in n.seen ==> FecOf(t, FecKey(a.slot, i)).merkleRoot.Some?
      ensures i in n.reconstructed <==> FecOf(t, FecKey(a.slot, i)).reconstructed
    {
      var k := FecKey(a.slot, i);
      if i == a.fec {
        assert k == KeyOf(a);
        assert i in SlotOf(s, a.slot).reconstructed <==> FecOf(s, k).reconstructed;
        assert i in SlotOf(s, a.slot).seen <==> k in s.states;
      } else {
        assert FecOf(t, k) == FecOf(s, k);
      }
    }
    assert Ready(done) == Ready(n) by { assert Due(done) == Due(n); }
  }

  lemma AcceptKeepsInv(env: Env, s: AState, a: Arrival)
    requires Inv(s)
    ensures Inv(Accept(env, s, a).0)
  {
    var t := Accept(env, s, a).0;
    forall slot: nat
      ensures SlotInv(t, slot)
    {
      AcceptKeepsSlotInv(env, s, a, slot);
    }
    AcceptShape(env, s, a);
    forall key: FecKey
      ensures FecInv(FecOf(t, key))
    {
      if key == KeyOf(a) {
        if !FecOf(s, key).reconstructed {
          AbsorbKeepsInv(env.rs, FecOf(s, key), a);
        }
      } else {
        assert FecOf(t, key) == FecOf(s, key);
      }
    }
  }

  lemma {:induction false} RunInv(env: Env, h: seq<Arrival>)
    ensures Inv(Run(env, h).state)
  {
    if h == [] {
      FreshInv();
    } else {
      RunInv(env, h[..|h| - 1]);
      AcceptKeepsInv(env, Run(env, h[..|h| - 1]).state, h[|h| - 1]);
    }
  }

  // ---------------------------------------------------------------- finalization, once

  function Finals(log: seq<FecEvent>, slot: nat): seq<FecEvent> {
    if log == [] then []
    else
      var e := log[|log| - 1];
      Finals(log[..|log| - 1], slot) + (if e.SlotFinalized? && e.slot == slot then [e] else [])
  }

  lemma {:induction false} FinalsAppend(log: seq<FecEvent>, more: seq<FecEvent>, slot: nat)
    ensures Finals(log + more, slot) == Finals(log, slot) + Finals(more, slot)
    decreases |more|
  {
    if more == [] {
      assert log + more == log;
    } else {
      var n := |more| - 1;
      FinalsAppend(log, more[..n], slot);
      assert (log + more)[..|log + more| - 1] == log + more[..n];
    }
  }

  lemma {:induction false} NoFinals(log: seq<FecEvent>, slot: nat)
    requires forall e :: e in log ==> !(e.SlotFinalized? && e.slot == slot)
    ensures Finals(log, slot) == []
  {
    if log != [] {
      NoFinals(log[..|log| - 1], slot);
      assert log[|log| - 1] in log;
    }
  }

  lemma FecEventsNeverFinal(env: Env, s: AState, a: Arrival)
    ensures forall e :: e in FecEvents(env, s, a) ==> !e.SlotFinalized?
  {
  }

  /** What one step adds to the finalizations of a slot. */
  lemma StepFinals(env: Env, s: AState, a: Arrival, slot: nat)
    requires SlotInv(s, a.slot)
    ensures var n := Noted(env, s, a);
      && Collect(NextStates(env, s, a), a.slot, Ascending(Due(n))).Some?
      && Finals(Accept(env, s, a).1, slot) ==
           if slot == a.slot && Fires(n) then [Final(env, NextStates(env, s, a), slot, n)] else []
  {
    AcceptShape(env, s, a);
    var n := Noted(env, s, a);
    var evs := FecEvents(env, s, a);
    var tail := if Fires(n) then [Final(env, NextStates(env, s, a), a.slot, n)] else [];
    FecEventsNeverFinal(env, s, a);
    NoFinals(evs, slot);
    FinalsAppend(evs, tail, slot);
    if Fires(n) {
      assert tail[..0] == [];
      assert Finals(tail, slot) == Finals(tail[..0], slot) + (if a.slot == slot then tail else []);
    }
  }

  function Tally(b: bool): nat { if b then 1 else 0 }

  lemma FinalizedStep(env: Env, s: AState, a: Arrival, slot: nat)
    requires SlotInv(s, a.slot)
    ensures |Finals(Accept(env, s, a).1, slot)| + Tally(SlotOf(s, slot).finalized)
         == Tally(SlotOf(Accept(env, s, a).0, slot).finalized)
  {
    StepFinals(env, s, a, slot);
    AcceptShape(env, s, a);
    var n := Noted(env, s, a);
    assert n.finalized == SlotOf(s, a.slot).finalized;
  }

  /** No finalization is lost and none is repeated, whatever the decoder answers: whenever the marker is
      in and every seen set up to it is reconstructed the slot is finalized, and the flag is set exactly
      when one SlotFinalized for the slot, and only one, has been emitted. */
  lemma {:induction false} FinalizedOnce(env: Env, h: seq<Arrival>, slot: nat)
    ensures Ready(SlotOf(Run(env, h).state, slot)) ==> SlotOf(Run(env, h).state, slot).finalized
    ensures |Finals(Run(env, h).log, slot)| == Tally(SlotOf(Run(env, h).state, slot).finalized)
  {
    RunInv(env, h);
    assert SlotInv(Run(env, h).state, slot);
    if h != [] {
      var before, a := Run(env, h[..|h| - 1]), h[|h| - 1];
      FinalizedOnce(env, h[..|h| - 1], slot);
      RunInv(env, h[..|h| - 1]);
      FinalizedStep(env, before.state, a, slot);
      FinalsAppend(before.log, Accept(env, before.state, a).1, slot);
    }
  }

  // ---------------------------------------------------------------- slots do not interfere

  function OfSlot(h: seq<Arrival>, slot: nat): seq<Arrival> {
    if h == [] then []
    else OfSlot(h[..|h| - 1], slot) + (if h[|h| - 1].slot == slot then [h[|h| - 1]] else [])
  }

  /** Everything emitted while processing the slot's own shreds, rejections included. */
  ghost function SlotLog(env: Env, h: seq<Arrival>, slot: nat): seq<FecEvent> {
    if h == [] then []
    else
      SlotLog(env, h[..|h| - 1], slot)
      + (if h[|h| - 1].slot == slot then Accept(env, Run(env, h[..|h| - 1]).state, h[|h| - 1]).1 else [])
  }

  /** Two states agree on everything kept for a slot. */
  ghost predicate SameSlot(s: AState, t: AState, slot: nat) {
    && SlotOf(s, slot) == SlotOf(t, slot)
    && forall i: nat ::
         && (FecKey(slot, i) in s.states <==> FecKey(slot, i) in t.states)
         && FecOf(s, FecKey(slot, i)) == FecOf(t, FecKey(slot, i))
  }

  lemma {:induction false} CollectLocal(
    m: map<FecKey, FecState>, m': map<FecKey, FecState>, slot: nat, indices: seq<nat>)
    requires forall i: nat ::
      && (FecKey(slot, i) in m <==> FecKey(slot, i) in m')
      && (FecKey(slot, i) in m ==> m[FecKey(slot, i)] == m'[FecKey(slot, i)])
    ensures Collect(m, slot, indices) == Collect(m', slot, indices)
  {
    if indices != [] {
      CollectLocal(m, m', slot, indices[..|indices| - 1]);
    }
  }

  lemma SameNext(env: Env, s: AState, t: AState, a: Arrival)
    requires SameSlot(s, t, a.slot)
    ensures NextFec(env, s, a) == NextFec(env, t, a) && FecEvents(env, s, a) == FecEvents(env, t, a)
    ensures Noted(env, s, a) == Noted(env, t, a)
    ensures forall i: nat ::
      && (FecKey(a.slot, i) in NextStates(env, s, a) <==> FecKey(a.slot, i) in NextStates(env, t, a))
      && (FecKey(a.slot, i) in NextStates(env, s, a) ==>
            NextStates(env, s, a)[FecKey(a.slot, i)] == NextStates(env, t, a)[FecKey(a.slot, i)])
  {
  }

  /** A step reads and writes its own slot only. */
  lemma AcceptLocal(env: Env, s: AState, t: AState, a: Arrival)
    requires SlotInv(s, a.slot) && SlotInv(t, a.slot) && SameSlot(s, t, a.slot)
    ensures Accept(env, s, a).1 == Accept(env, t, a).1
    ensures SameSlot(Accept(env, s, a).0, Accept(env, t, a).0, a.slot)
  {
    AcceptShape(env, s, a);
    AcceptShape(env, t, a);
    SameNext(env, s, t, a);
    CollectLocal(NextStates(env, s, a), NextStates(env, t, a), a.slot, Ascending(Due(Noted(env, s, a))));
  }

  lemma AcceptElsewhere(env: Env, s: AState, a: Arrival, slot: nat)
    requires SlotInv(s, a.slot) && slot != a.slot
    ensures SameSlot(Accept(env, s, a).0, s, slot)
  {
    AcceptShape(env, s, a);
    assert forall i: nat :: FecKey(slot, i) != KeyOf(a);
  }

  /** Slot independence: interleaving other slots changes neither what is kept for a slot nor what is
      emitted while processing it. */
  lemma {:induction false} SlotIndependence(env: Env, h: seq<Arrival>, slot: nat)
    ensures SameSlot(Run(env, h).state, Run(env, OfSlot(h, slot)).state, slot)
    ensures SlotLog(env, h, slot) == Run(env, OfSlot(h, slot)).log
  {
    if h != [] {
      var head, a := h[..|h| - 1], h[|h| - 1];
      var s, t := Run(env, head).state, Run(env, OfSlot(head, slot)).state;
      SlotIndependence(env, head, slot);
      RunInv(env, head);
      assert SlotInv(s, a.slot);
      if a.slot == slot {
        RunInv(env, OfSlot(head, slot));
        assert SlotInv(t, a.slot);
        AcceptLocal(env, s, t, a);
        assert OfSlot(h, slot)[..|OfSlot(h, slot)| - 1] == OfSlot(head, slot);
      } else {
        AcceptElsewhere(env, s, a, slot);
        assert OfSlot(h, slot) == OfSlot(head, slot);
        assert SlotLog(env, h, slot) == SlotLog(env, head, slot);
      }
    }
  }

  // ---------------------------------------------------------------- the script of one FEC set

  predicate Concerns(e: FecEvent, key: FecKey) {
    (e.Started? || e.ShredAccepted? || e.Reconstructed?) && e.key == key
  }

  function KeyEvents(log: seq<FecEvent>, key: FecKey): seq<FecEvent> {
    if log == [] then []
    else KeyEvents(log[..|log| - 1], key) + (if Concerns(log[|log| - 1], key) then [log[|log| - 1]] else [])
  }

  lemma {:induction false} KeyEventsAppend(log: seq<FecEvent>, more: seq<FecEvent>, key: FecKey)
    ensures KeyEvents(log + more, key) == KeyEvents(log, key) + KeyEvents(more, key)
    decreases |more|
  {
    if more == [] {
      assert log + more == log;
    } else {
      var n := |more| - 1;
      KeyEventsAppend(log, more[..n], key);
      assert (log + more)[..|log + more| - 1] == log + more[..n];
    }
  }

  lemma {:induction false} NoKeyEvents(log: seq<FecEvent>, key: FecKey)
    requires forall e :: e in log ==> !Concerns(e, key)
    ensures KeyEvents(log, key) == []
  {
    if log != [] {
      NoKeyEvents(log[..|log| - 1], key);
      assert log[|log| - 1] in log;
    }
  }

  /** Acceptances in order, counted 1, 2, ... */
  function Acceptances(key: FecKey, ids: seq<nat>): seq<FecEvent> {
    seq(|ids|, i requires 0 <= i < |ids| => ShredAccepted(key, i + 1, ids[i]))
  }

  /** Nothing before the first shred; then one start, the acceptances, and a reconstruction at the end. */
  function Script(key: FecKey, fs: FecState, ids: seq<nat>): seq<FecEvent> {
    if fs.merkleRoot.None? then []
    else
      [Started(key, fs.merkleRoot.value)] + Acceptances(key, ids)
      + (if fs.reconstructed then [Reconstructed(key, fs.merkleRoot.value, fs.confidence)] else [])
  }

  ghost predicate FillOrder(fs: FecState, ids: seq<nat>) {
    && |ids| == fs.distinctSeen
    && (forall i, j :: 0 <= i < j < |ids| ==> ids[i] != ids[j])
    && (forall i :: i in ids <==> i in Filled(fs.shards))
  }

  lemma {:induction false} AllKeyEvents(log: seq<FecEvent>, key: FecKey)
    requires forall i :: 0 <= i < |log| ==> Concerns(log[i], key)
    ensures KeyEvents(log, key) == log
  {
    if log != [] {
      AllKeyEvents(log[..|log| - 1], key);
    }
  }

  lemma KeyEventsSplit(mine: seq<FecEvent>, others: seq<FecEvent>, key: FecKey)
    requires forall i :: 0 <= i < |mine| ==> Concerns(mine[i], key)
    requires forall e :: e in others ==> !Concerns(e, key)
    ensures KeyEvents(mine + others, key) == mine
  {
    KeyEventsAppend(mine, others, key);
    AllKeyEvents(mine, key);
    NoKeyEvents(others, key);
    assert mine + [] == mine;
  }

  function StartedPart(fs: FecState, a: Arrival): seq<FecEvent> {
    if fs.merkleRoot.None? then [Started(KeyOf(a), a.root)] else []
  }

  function AcceptedPart(fs: FecState, fs': FecState, a: Arrival): seq<FecEvent> {
    if fs'.distinctSeen > fs.distinctSeen then [ShredAccepted(KeyOf(a), fs'.distinctSeen, a.index)] else []
  }

  function RebuiltPart(fs': FecState, a: Arrival): seq<FecEvent> {
    if fs'.reconstructed then [Reconstructed(KeyOf(a), a.root, fs'.confidence)] else []
  }

  /** The events of an absorbed shred: a start if it is the first, then an acceptance, then a
      reconstruction; a rejection only at the end. */
  lemma AbsorbParts(rs: ErasureCode, fs: FecState, a: Arrival) returns (rejected: seq<FecEvent>)
    requires !fs.reconstructed
    ensures var (fs', evs) := Absorb(rs, fs, a);
      evs == StartedPart(fs, a) + AcceptedPart(fs, fs', a) + RebuiltPart(fs', a) + rejected
    ensures forall e :: e in rejected ==> e.Rejected?
  {
    var (fs', evs) := Absorb(rs, fs, a);
    if fs.merkleRoot.Some? && fs.merkleRoot.value != a.root {
      rejected := [Rejected(RootDiverges)];
    } else if a.index >= SHREDS_PER_FEC {
      rejected := [Rejected(IndexOutOfRange(a.index))];
    } else if fs.shards[a.index].None? && fs.distinctSeen + 1 >= THRESHOLD && !fs'.reconstructed {
      rejected := [Rejected(ReconstructFailed)];
    } else {
      rejected := [];
    }
  }

  lemma AbsorbKeyEvents(rs: ErasureCode, fs: FecState, a: Arrival)
    requires !fs.reconstructed
    ensures var (fs', evs) := Absorb(rs, fs, a);
      KeyEvents(evs, KeyOf(a)) == StartedPart(fs, a) + AcceptedPart(fs, fs', a) + RebuiltPart(fs', a)
  {
    var rejected := AbsorbParts(rs, fs, a);
    var fs' := Absorb(rs, fs, a).0;
    KeyEventsSplit(StartedPart(fs, a) + AcceptedPart(fs, fs', a) + RebuiltPart(fs', a), rejected, KeyOf(a));
  }

  lemma AbsorbRoot(rs: ErasureCode, fs: FecState, a: Arrival)
    requires !fs.reconstructed
    ensures var fs' := Absorb(rs, fs, a).0;
      && fs'.merkleRoot == (if fs.merkleRoot.None? then Some(a.root) else fs.merkleRoot)
      && (fs'.reconstructed || fs'.distinctSeen > fs.distinctSeen ==> fs'.merkleRoot == Some(a.root))
      && (fs'.distinctSeen > fs.distinctSeen ==>
            a.index < 64 && fs.shards[a.index].None? && fs'.distinctSeen == fs.distinctSeen + 1
            && fs'.shards == fs.shards[a.index := Some(a.shard)])
      && (fs'.distinctSeen <= fs.distinctSeen ==>
            fs'.distinctSeen == fs.distinctSeen && fs'.shards == fs.shards && !fs'.reconstructed)
  {
  }

  /** The script after a shred that is accepted or not. */
  lemma ScriptGrows(fs: FecState, fs': FecState, a: Arrival, ids: seq<nat>)
    requires !fs.reconstructed && |ids| == fs.distinctSeen && (fs.merkleRoot.None? ==> ids == [])
    requires fs'.merkleRoot == (if fs.merkleRoot.None? then Some(a.root) else fs.merkleRoot)
    requires fs'.reconstructed ==> fs'.merkleRoot == Some(a.root)
    ensures fs'.distinctSeen == fs.distinctSeen && !fs'.reconstructed ==>
      Script(KeyOf(a), fs', ids) == Script(KeyOf(a), fs, ids) + StartedPart(fs, a)
    ensures fs'.distinctSeen == fs.distinctSeen + 1 ==>
      Script(KeyOf(a), fs', ids + [a.index]) ==
        Script(KeyOf(a), fs, ids) + (StartedPart(fs, a) + AcceptedPart(fs, fs', a) + RebuiltPart(fs', a))
  {
  }

  lemma AbsorbScript(rs: ErasureCode, fs: FecState, a: Arrival, ids: seq<nat>) returns (ids': seq<nat>)
    requires FecInv(fs) && !fs.reconstructed && FillOrder(fs, ids)
    ensures var (fs', evs) := Absorb(rs, fs, a);
      && FillOrder(fs', ids')
      && Script(KeyOf(a), fs', ids') == Script(KeyOf(a), fs, ids) + KeyEvents(evs, KeyOf(a))
  {
    var fs' := Absorb(rs, fs, a).0;
    AbsorbKeyEvents(rs, fs, a);
    AbsorbRoot(rs, fs, a);
    ScriptGrows(fs, fs', a, ids);
    ids' := ids;
    if fs'.distinctSeen > fs.distinctSeen {
      FilledUpdate(fs.shards, a.index, a.shard);
      ids' := ids + [a.index];
    } else {
      assert StartedPart(fs, a) + [] + [] == StartedPart(fs, a);
    }
  }

  lemma FecEventsKeyed(env: Env, s: AState, a: Arrival, key: FecKey)
    requires key != KeyOf(a)
    ensures forall e :: e in FecEvents(env, s, a) ==> !Concerns(e, key)
  {
  }

  lemma StepFec(env: Env, s: AState, a: Arrival, key: FecKey)
    requires SlotInv(s, a.slot)
    ensures FecOf(Accept(env, s, a).0, key) == if key == KeyOf(a) then NextFec(env, s, a) else FecOf(s, key)
  {
  }

  lemma StepKeyEvents(env: Env, s: AState, a: Arrival, key: FecKey)
    requires SlotInv(s, a.slot)
    ensures KeyEvents(Accept(env, s, a).1, key) == if key == KeyOf(a) then KeyEvents(FecEvents(env, s, a), key) else []
  {
    var evs := FecEvents(env, s, a);
    var tail := AcceptEvents(env, s, a);
    KeyEventsAppend(evs, tail, key);
    NoKeyEvents(tail, key);
    if key != KeyOf(a) {
      FecEventsKeyed(env, s, a, key);
      NoKeyEvents(evs, key);
    }
  }

  /** Event grammar of a FEC set over whole runs: exactly one Started first, then acceptances counted
      1, 2, ... with pairwise distinct indices, then at most one Reconstructed, which needs 32 of them and
      ends the script. The counter is the number of filled positions and the root is the one announced. */
  lemma {:induction false} EventGrammar(env: Env, h: seq<Arrival>, key: FecKey) returns (ids: seq<nat>)
    ensures var fs := FecOf(Run(env, h).state, key);
      && KeyEvents(Run(env, h).log, key) == Script(key, fs, ids)
      && FillOrder(fs, ids)
      && (fs.reconstructed ==> |ids| >= THRESHOLD && fs.confidence == 1.0)
  {
    ids := [];
    if h == [] {
      assert Filled(FreshFec().shards) == {};
    } else {
      var before, a := Run(env, h[..|h| - 1]), h[|h| - 1];
      ids := EventGrammar(env, h[..|h| - 1], key);
      RunInv(env, h[..|h| - 1]);
      StepKeyEvents(env, before.state, a, key);
      StepFec(env, before.state, a, key);
      KeyEventsAppend(before.log, Accept(env, before.state, a).1, key);
      if key == KeyOf(a) && !FecOf(before.state, key).reconstructed {
        ids := AbsorbScript(env.rs, FecOf(before.state, key), a, ids);
      }
      RunInv(env, h);
      assert FecInv(FecOf(Run(env, h).state, key));
    }
  }
}
