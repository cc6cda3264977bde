/** From packets to events: runs over raw bytes, what is admitted of a built shred, and runs in which the
    shreds of each key agree on the root. */
module EndToEnd {
  import opened Common
  import opened ByteStrings
  import opened Shred
  import opened ReedSolomon
  import opened FecSet
  import opened RoundTrip
  import opened Assembler
  import opened AssemblerRuns
  import opened AssemblerHistory

  // ---------------------------------------------------------------- raw runs

  /** The admitted shreds of a packet sequence. */
  function Arrivals(env: Env, raws: seq<Bytes>): seq<Arrival> {
    if raws == [] then []
    else
      var before := Arrivals(env, raws[..|raws| - 1]);
      match Admit(env, raws[|raws| - 1])
      case Refused(_) => before
      case Admitted(a) => before + [a]
  }

  /** The events of a run, packet by packet: a refused packet's rejection, an admitted one's events. */
  ghost function Woven(env: Env, raws: seq<Bytes>): seq<FecEvent> {
    if raws == [] then []
    else
      var head := raws[..|raws| - 1];
      Woven(env, head) +
      match Admit(env, raws[|raws| - 1])
      case Refused(reason) => [Rejected(reason)]
      case Admitted(a) => Accept(env, Run(env, Arrivals(env, head)).state, a).1
  }

  /** Refused packets leave no trace but their rejection. */
  lemma {:induction false} RawRun(env: Env, raws: seq<Bytes>, slot: nat, key: FecKey)
    ensures RunRaw(env, raws).state == Run(env, Arrivals(env, raws)).state
    ensures Finals(RunRaw(env, raws).log, slot) == Finals(Run(env, Arrivals(env, raws)).log, slot)
    ensures KeyEvents(RunRaw(env, raws).log, key) == KeyEvents(Run(env, Arrivals(env, raws)).log, key)
    ensures RunRaw(env, raws).log == Woven(env, raws)
  {
    if raws != [] {
      var head, raw := raws[..|raws| - 1], raws[|raws| - 1];
      var before, h := RunRaw(env, head), Arrivals(env, head);
      var events := Step(env, before.state, raw).1;
      RawRun(env, head, slot, key);
      FinalsAppend(before.log, events, slot);
      KeyEventsAppend(before.log, events, key);
      match Admit(env, raw) {
        case Refused(reason) =>
          NoFinals(events, slot);
          NoKeyEvents(events, key);
        case Admitted(a) =>
          assert (h + [a])[..|h|] == h;
          FinalsAppend(Run(env, h).log, events, slot);
          KeyEventsAppend(Run(env, h).log, events, key);
      }
    }
  }

  /** The guarantees of the running object: whatever packets it has ingested, its finalizations of a
      slot and its record of a FEC set are those of the admitted history. */
  lemma AssemblerGuarantee(asm: FecAssembler, slot: nat, key: FecKey) returns (ids: seq<nat>)
    requires asm.Valid() && RecoversFromHalf(asm.env.rs)
    ensures Finals(asm.log, slot) == ExpectedFinals(asm.env, Arrivals(asm.env, asm.history), slot)
    ensures RefinedBy(FecOf(asm.State(), key), Arrivals(asm.env, asm.history), key)
    ensures KeyEvents(asm.log, key) == Script(key, FecOf(asm.State(), key), ids)
    ensures FillOrder(FecOf(asm.State(), key), ids)
  {
    var h := Arrivals(asm.env, asm.history);
    RawRun(asm.env, asm.history, slot, key);
    FinalizationExact(asm.env, h, slot);
    FecRefinement(asm.env, h, key);
    ids := EventGrammar(asm.env, h, key);
  }

  // ---------------------------------------------------------------- built shreds

  function BuiltArrival(p: FecSetParams, f: FecSet, i: nat): Arrival
    requires Sized(f.shreds) && i < SHREDS_PER_FEC
  {
    var off := if i < 32 then SIZE_OF_SIGNATURE else 89;
    Arrival(p.slot, p.fecSetIndex, f.merkleRoot, i, i < 32 && p.flags >= 128,
            f.shreds[i][off..off + ERASURE_SHARD_SIZE])
  }

  lemma BuiltShredAdmitted(env: Env, payload: Bytes, p: FecSetParams, f: FecSet, i: nat)
    requires IsFecSet(env.crypto, env.rs, payload, p, f) && i < SHREDS_PER_FEC
    requires SignaturesVerify(env.crypto) && env.leader(p.slot) == Some(f.leaderPubkey)
    ensures Admit(env, f.shreds[i]) == Admitted(BuiltArrival(p, f, i))
  {
    BuiltShredParses(env.crypto, env.rs, payload, p, f, i);
    BuiltShredVerifies(env.crypto, env.rs, payload, p, f, i);
  }

  /** What the assembler stores of a built shred is its symbol of the builder's codeword: the data region
      itself, or the parity of all data regions at its position. */
  lemma BuiltShardIsCodeword(env: Env, payload: Bytes, p: FecSetParams, f: FecSet, i: nat)
    requires IsFecSet(env.crypto, env.rs, payload, p, f) && i < SHREDS_PER_FEC
    ensures BuiltArrival(p, f, i).shard ==
      if i < 32 then DataShards(f.shreds)[i] else env.rs.encode(DataShards(f.shreds))[i - 32]
  {
    if i >= 32 {
      assert CodeLayout(f.shreds[i], p, env.rs.encode(DataShards(f.shreds))[i - 32], i - 32);
    }
  }

  /** Runs in which nothing is refused are the same over packets and over arrivals. */
  lemma {:induction false} AdmittedRun(env: Env, raws: seq<Bytes>, h: seq<Arrival>)
    requires |raws| == |h| && forall j :: 0 <= j < |h| ==> Admit(env, raws[j]) == Admitted(h[j])
    ensures RunRaw(env, raws) == Run(env, h)
  {
    if h != [] {
      AdmittedRun(env, raws[..|raws| - 1], h[..|h| - 1]);
    }
  }

  // ---------------------------------------------------------------- coherent runs

  /** Indices are in range and the shreds of one key carry one root. */
  ghost predicate Coherent(h: seq<Arrival>) {
    && (forall a :: a in h ==> a.index < 64)
    && (forall a, b :: a in h && b in h && KeyOf(a) == KeyOf(b) ==> a.root == b.root)
  }

  lemma {:induction false} CoherentRoot(h: seq<Arrival>, a: Arrival)
    requires Coherent(h) && a in h
    ensures FirstRoot(h, KeyOf(a)) == Some(a.root)
  {
    var head, last := h[..|h| - 1], h[|h| - 1];
    assert h == head + [last];
    assert forall b :: b in head ==> b in h;
    FirstRootNone(head, KeyOf(a));
    if b :| b in head && KeyOf(b) == KeyOf(a) {
      CoherentRoot(head, b);
    }
  }

  function Rebuilds(log: seq<FecEvent>, key: FecKey): seq<FecEvent> {
    if log == [] then []
    else
      var e := log[|log| - 1];
      Rebuilds(log[..|log| - 1], key) + (if e.Reconstructed? && e.key == key then [e] else [])
  }

  lemma {:induction false} RebuildsAppend(log: seq<FecEvent>, more: seq<FecEvent>, key: FecKey)
    ensures Rebuilds(log + more, key) == Rebuilds(log, key) + Rebuilds(more, key)
    decreases |more|
  {
    if more == [] {
      assert log + more == log;
    } else {
      var n := |more| - 1;
      RebuildsAppend(log, more[..n], key);
      assert (log + more)[..|log + more| - 1] == log + more[..n];
    }
  }

  lemma {:induction false} RawRebuilds(env: Env, raws: seq<Bytes>, key: FecKey)
    ensures Rebuilds(RunRaw(env, raws).log, key) == Rebuilds(Run(env, Arrivals(env, raws)).log, key)
  {
    if raws != [] {
      var head := raws[..|raws| - 1];
      var before, h := RunRaw(env, head), Arrivals(env, head);
      var events := Step(env, before.state, raws[|raws| - 1]).1;
      RawRebuilds(env, head, key);
      RawRun(env, head, 0, key);
      RebuildsAppend(before.log, events, key);
      match Admit(env, raws[|raws| - 1]) {
        case Refused(_) =>
          NoRebuilds(events, key);
        case Admitted(a) =>
          assert (h + [a])[..|h|] == h;
          RebuildsAppend(Run(env, h).log, events, key);
      }
    }
  }

  lemma {:induction false} NoRebuilds(log: seq<FecEvent>, key: FecKey)
    requires forall i :: 0 <= i < |log| ==> !(log[i].Reconstructed? && log[i].key == key)
    ensures Rebuilds(log, key) == []
  {
    if log != [] {
      NoRebuilds(log[..|log| - 1], key);
    }
  }

  /** Absorbing a matching shred in range rejects nothing. */
  lemma AbsorbNoReject(rs: ErasureCode, fs: FecState, a: Arrival)
    requires RecoversFromHalf(rs) && FecInv(fs) && !fs.reconstructed
    requires a.index < 64 && (fs.merkleRoot.None? || fs.merkleRoot.value == a.root)
    ensures var (fs', evs) := Absorb(rs, fs, a);
      evs == StartedPart(fs, a) + AcceptedPart(fs, fs', a) + RebuiltPart(fs', a)
  {
    if fs.shards[a.index].None? {
      FilledUpdate(fs.shards, a.index, a.shard);
    }
  }

  lemma PartsRebuild(fs: FecState, fs': FecState, a: Arrival)
    ensures Rebuilds(StartedPart(fs, a) + AcceptedPart(fs, fs', a) + RebuiltPart(fs', a), KeyOf(a))
         == RebuiltPart(fs', a)
  {
    var front, key := StartedPart(fs, a) + AcceptedPart(fs, fs', a), KeyOf(a);
    RebuildsAppend(front, RebuiltPart(fs', a), key);
    NoRebuilds(front, key);
    if fs'.reconstructed {
      assert RebuiltPart(fs', a)[..0] == [];
      assert Rebuilds(RebuiltPart(fs', a), key) == Rebuilds([], key) + RebuiltPart(fs', a);
    }
  }

  lemma PartsNotRejected(fs: FecState, fs': FecState, a: Arrival)
    ensures forall e :: e in StartedPart(fs, a) + AcceptedPart(fs, fs', a) + RebuiltPart(fs', a) ==> !e.Rejected?
  {
  }

  /** Absorbing a matching shred in range: nothing rejected, and a Reconstructed exactly at the
      thirty-second index. */
  lemma MatchingAbsorb(rs: ErasureCode, fs: FecState, head: seq<Arrival>, a: Arrival)
    requires RecoversFromHalf(rs) && FecInv(fs) && RefinedBy(fs, head, KeyOf(a)) && !fs.reconstructed
    requires a.index < 64 && (fs.merkleRoot.None? || fs.merkleRoot.value == a.root)
    ensures var (fs', evs) := Absorb(rs, fs, a);
      && (forall e :: e in evs ==> !e.Rejected?)
      && Rebuilds(evs, KeyOf(a)) == RebuiltPart(fs', a)
      && (fs'.reconstructed <==> |Indices(head + [a], KeyOf(a))| >= 32)
      && (fs'.reconstructed ==> fs'.confidence == 1.0)
  {
    var fs' := Absorb(rs, fs, a).0;
    AbsorbNoReject(rs, fs, a);
    PartsNotRejected(fs, fs', a);
    PartsRebuild(fs, fs', a);
    AbsorbRefined(rs, fs, head, a);
    AbsorbKeepsInv(rs, fs, a);
  }

  lemma MatchingFecEvents(env: Env, s: AState, head: seq<Arrival>, a: Arrival)
    requires RecoversFromHalf(env.rs) && FecInv(FecOf(s, KeyOf(a))) && RefinedBy(FecOf(s, KeyOf(a)), head, KeyOf(a))
    requires a.index < 64
    requires FirstRoot(head, KeyOf(a)).None? || FirstRoot(head, KeyOf(a)) == Some(a.root)
    ensures forall e :: e in FecEvents(env, s, a) ==> !e.Rejected?
    ensures Rebuilds(FecEvents(env, s, a), KeyOf(a)) ==
      if |Indices(head, KeyOf(a))| < 32 <= |Indices(head + [a], KeyOf(a))|
      then [Reconstructed(KeyOf(a), a.root, 1.0)] else []
  {
    if !FecOf(s, KeyOf(a)).reconstructed {
      MatchingAbsorb(env.rs, FecOf(s, KeyOf(a)), head, a);
    }
  }

  lemma FinalIsNoRebuild(evs: seq<FecEvent>, tail: seq<FecEvent>, key: FecKey)
    requires forall i :: 0 <= i < |tail| ==> tail[i].SlotFinalized?
    ensures Rebuilds(evs + tail, key) == Rebuilds(evs, key)
    ensures (forall e :: e in evs ==> !e.Rejected?) ==> forall e :: e in evs + tail ==> !e.Rejected?
  {
    RebuildsAppend(evs, tail, key);
    NoRebuilds(tail, key);
  }

  lemma StepRebuilds(env: Env, s: AState, a: Arrival, key: FecKey)
    requires SlotInv(s, a.slot) && forall e :: e in FecEvents(env, s, a) ==> !e.Rejected?
    ensures forall e :: e in Accept(env, s, a).1 ==> !e.Rejected?
    ensures Rebuilds(Accept(env, s, a).1, key) == if key == KeyOf(a) then Rebuilds(FecEvents(env, s, a), key) else []
  {
    var evs := FecEvents(env, s, a);
    var tail := AcceptEvents(env, s, a);
    FinalIsNoRebuild(evs, tail, key);
    if key != KeyOf(a) {
      FecEventsKeyed(env, s, a, key);
      assert forall i :: 0 <= i < |evs| ==> evs[i] in evs;
      NoRebuilds(evs, key);
    }
  }

  lemma CoherentStep(env: Env, head: seq<Arrival>, a: Arrival, key: FecKey)
    requires RecoversFromHalf(env.rs) && Coherent(head + [a])
    ensures var events := Accept(env, Run(env, head).state, a).1;
      && (forall e :: e in events ==> !e.Rejected?)
      && Rebuilds(events, key) ==
           if key == KeyOf(a) && |Indices(head, key)| < 32 <= |Indices(head + [a], key)|
           then [Reconstructed(key, a.root, 1.0)] else []
  {
    var s := Run(env, head).state;
    assert a in head + [a];
    CoherentRoot(head + [a], a);
    FirstRootStep(head, a, KeyOf(a));
    FecRefinement(env, head, KeyOf(a));
    RunInv(env, head);
    MatchingFecEvents(env, s, head, a);
    StepRebuilds(env, s, a, key);
  }

  /** The reconstruction a history stands for. */
  function ExpectedRebuilds(h: seq<Arrival>, key: FecKey): seq<FecEvent> {
    if |Indices(h, key)| >= 32 && FirstRoot(h, key).Some?
    then [Reconstructed(key, FirstRoot(h, key).value, 1.0)] else []
  }

  lemma ExpectedRebuildsStep(head: seq<Arrival>, a: Arrival, key: FecKey)
    requires Coherent(head + [a])
    ensures ExpectedRebuilds(head + [a], key) == ExpectedRebuilds(head, key) +
      if key == KeyOf(a) && |Indices(head, key)| < 32 <= |Indices(head + [a], key)|
      then [Reconstructed(key, a.root, 1.0)] else []
  {
    assert a in head + [a];
    CoherentRoot(head + [a], a);
    FirstRootStep(head, a, key);
    IndicesStep(head, a, key);
    SubsetCardinality(Indices(head, key), Indices(head + [a], key));
    IndicesNeedRoot(head, key);
  }

  /** A coherent run rejects nothing, and each key has one Reconstructed, with its root, exactly from 32
      distinct indices on. */
  lemma {:induction false} CoherentRun(env: Env, h: seq<Arrival>, key: FecKey)
    requires RecoversFromHalf(env.rs) && Coherent(h)
    ensures forall e :: e in Run(env, h).log ==> !e.Rejected?
    ensures Rebuilds(Run(env, h).log, key) == ExpectedRebuilds(h, key)
  {
    if h == [] {
      assert Indices(h, key) == {};
    } else {
      var head, a := h[..|h| - 1], h[|h| - 1];
      assert h == head + [a];
      assert forall b :: b in head ==> b in h;
      CoherentRun(env, head, key);
      CoherentStep(env, head, a, key);
      ExpectedRebuildsStep(head, a, key);
      RebuildsAppend(Run(env, head).log, Accept(env, Run(env, head).state, a).1, key);
    }
  }
}
