/** Every event of a run, rejections included, as a function of what was delivered: for any erasure decoder the
    events of each FEC set, and for one that recovers from half of the shards the whole log. */
module AssemblerLog {
  import opened Common
  import opened ByteStrings
  import opened ReedSolomon
  import opened Assembler
  import opened AssemblerRuns
  import opened AssemblerHistory
  import opened EndToEnd
  import opened Admission

  // ---------------------------------------------------------------- what has been collected

  /** The shard of the first counted arrival at `i`. */
  function FirstShard(h: seq<Arrival>, key: FecKey, i: nat): Option<Shard> {
    if h == [] then None
    else
      var head, a := h[..|h| - 1], h[|h| - 1];
      var before := FirstShard(head, key, i);
      if before.Some? then before
      else if Counts(h, key, a) && a.index == i then Some(a.shard)
      else None
  }

  function Collected(h: seq<Arrival>, key: FecKey): (t: Table)
    ensures forall i :: 0 <= i < 64 ==> t[i] == FirstShard(h, key, i)
  {
    seq(64, i requires 0 <= i < 64 => FirstShard(h, key, i))
  }

  /** The arrival brings its set an index it did not have, under the set's root. */
  predicate IsNew(head: seq<Arrival>, a: Arrival) {
    Counts(head + [a], KeyOf(a), a) && a.index !in Indices(head, KeyOf(a))
  }

  /** At some arrival a new index made 32 or more and the decoder recovered the set from what was collected. */
  predicate Closed(rs: ErasureCode, h: seq<Arrival>, key: FecKey) {
    h != [] &&
    var head, a := h[..|h| - 1], h[|h| - 1];
    Closed(rs, head, key)
    || (KeyOf(a) == key && IsNew(head, a) && |Indices(h, key)| >= 32 && rs.reconstructs(Collected(h, key)))
  }

  lemma FirstShardStep(h: seq<Arrival>, a: Arrival, key: FecKey, i: nat)
    ensures FirstShard(h + [a], key, i) ==
      if FirstShard(h, key, i).Some? then FirstShard(h, key, i)
      else if Counts(h + [a], key, a) && a.index == i then Some(a.shard)
      else None
  {
    assert (h + [a])[..|h|] == h;
  }

  lemma ClosedStep(rs: ErasureCode, h: seq<Arrival>, a: Arrival, key: FecKey)
    ensures Closed(rs, h + [a], key) <==>
      || Closed(rs, h, key)
      || (KeyOf(a) == key && IsNew(h, a) && |Indices(h + [a], key)| >= 32 && rs.reconstructs(Collected(h + [a], key)))
  {
    assert (h + [a])[..|h|] == h;
  }

  /** What is collected are the indices delivered. */
  lemma {:induction false} FirstShardIff(h: seq<Arrival>, key: FecKey, i: nat)
    ensures FirstShard(h, key, i).Some? <==> i in Indices(h, key)
  {
    if h != [] {
      var head, a := h[..|h| - 1], h[|h| - 1];
      assert h == head + [a];
      FirstShardIff(head, key, i);
      FirstShardStep(head, a, key, i);
      IndicesStep(head, a, key);
    }
  }

  lemma CollectedStep(h: seq<Arrival>, a: Arrival, key: FecKey)
    ensures Collected(h + [a], key) ==
      if key == KeyOf(a) && IsNew(h, a) then Collected(h, key)[a.index := Some(a.shard)] else Collected(h, key)
  {
    forall i | 0 <= i < 64
      ensures FirstShard(h + [a], key, i) ==
        if key == KeyOf(a) && IsNew(h, a) && i == a.index then Some(a.shard) else FirstShard(h, key, i)
    {
      FirstShardStep(h, a, key, i);
      FirstShardIff(h, key, i);
    }
  }

  lemma CollectedFilled(h: seq<Arrival>, key: FecKey)
    ensures Filled(Collected(h, key)) == Indices(h, key)
  {
    IndicesNeedRoot(h, key);
    forall i: nat
      ensures i in Filled(Collected(h, key)) <==> i in Indices(h, key)
    {
      FirstShardIff(h, key, i);
    }
  }

  /** With fewer than 32 indices no set is closed, whatever the decoder. */
  lemma {:induction false} ClosedNeedsHalf(rs: ErasureCode, h: seq<Arrival>, key: FecKey)
    ensures Closed(rs, h, key) ==> |Indices(h, key)| >= 32
  {
    if h != [] {
      var head, a := h[..|h| - 1], h[|h| - 1];
      assert h == head + [a];
      ClosedNeedsHalf(rs, head, key);
      IndicesStep(head, a, key);
      SubsetCardinality(Indices(head, key), Indices(h, key));
    }
  }

  /** With a decoder that recovers from half, 32 indices close it. */
  lemma {:induction false} ClosedAtHalf(rs: ErasureCode, h: seq<Arrival>, key: FecKey)
    requires RecoversFromHalf(rs)
    ensures Closed(rs, h, key) <==> |Indices(h, key)| >= 32
  {
    ClosedNeedsHalf(rs, h, key);
    if h != [] {
      var head, a := h[..|h| - 1], h[|h| - 1];
      assert h == head + [a];
      ClosedAtHalf(rs, head, key);
      IndicesStep(head, a, key);
      CollectedFilled(h, key);
    }
  }

  // ---------------------------------------------------------------- events of a set

  /** The events of the arrival's FEC set. */
  function SetEvents(rs: ErasureCode, head: seq<Arrival>, a: Arrival): seq<FecEvent> {
    var key, first := KeyOf(a), FirstRoot(head, KeyOf(a));
    if Closed(rs, head, key) then []
    else if first.Some? && first.value != a.root then [Rejected(RootDiverges)]
    else
      (if first.None? then [Started(key, a.root)] else []) + ShardEvents(rs, head, a)
  }

  /** Of a shred under its set's root. */
  function ShardEvents(rs: ErasureCode, head: seq<Arrival>, a: Arrival): seq<FecEvent> {
    var key, h := KeyOf(a), head + [a];
    if a.index >= 64 then [Rejected(IndexOutOfRange(a.index))]
    else if a.index in Indices(head, key) then []
    else [ShredAccepted(key, |Indices(h, key)|, a.index)] + Decoded(rs, h, a)
  }

  function Decoded(rs: ErasureCode, h: seq<Arrival>, a: Arrival): seq<FecEvent> {
    if |Indices(h, KeyOf(a))| < 32 then []
    else if rs.reconstructs(Collected(h, KeyOf(a))) then [Reconstructed(KeyOf(a), a.root, 1.0)]
    else [Rejected(ReconstructFailed)]
  }

  ghost predicate OpenRefined(fs: FecState, rs: ErasureCode, h: seq<Arrival>, key: FecKey) {
    && fs.merkleRoot == FirstRoot(h, key)
    && (fs.reconstructed <==> Closed(rs, h, key))
    && (!fs.reconstructed ==> fs.shards == Collected(h, key) && fs.distinctSeen == |Indices(h, key)|)
  }

  lemma NewIndexCount(h: seq<Arrival>, a: Arrival)
    ensures |Indices(h + [a], KeyOf(a))| == |Indices(h, KeyOf(a))| + (if IsNew(h, a) then 1 else 0)
  {
    IndicesStep(h, a, KeyOf(a));
    if a.index in Indices(h, KeyOf(a)) {
      assert Indices(h, KeyOf(a)) + {a.index} == Indices(h, KeyOf(a));
    }
  }

  lemma AbsorbByHistory(rs: ErasureCode, fs: FecState, h: seq<Arrival>, a: Arrival)
    requires OpenRefined(fs, rs, h, KeyOf(a)) && !fs.reconstructed
    ensures Absorb(rs, fs, a).1 == SetEvents(rs, h, a)
    ensures OpenRefined(Absorb(rs, fs, a).0, rs, h + [a], KeyOf(a))
  {
    var key := KeyOf(a);
    FirstRootStep(h, a, key);
    NewIndexCount(h, a);
    CollectedStep(h, a, key);
    ClosedStep(rs, h, a, key);
    if a.index < 64 {
      FirstShardIff(h, key, a.index);
    }
  }

  lemma OtherSetOpen(fs: FecState, rs: ErasureCode, h: seq<Arrival>, a: Arrival, key: FecKey)
    requires OpenRefined(fs, rs, h, key) && key != KeyOf(a)
    ensures OpenRefined(fs, rs, h + [a], key)
  {
    FirstRootStep(h, a, key);
    IndicesStep(h, a, key);
    CollectedStep(h, a, key);
    ClosedStep(rs, h, a, key);
  }

  lemma ClosedStays(fs: FecState, rs: ErasureCode, h: seq<Arrival>, a: Arrival, key: FecKey)
    requires OpenRefined(fs, rs, h, key) && fs.reconstructed && fs.merkleRoot.Some?
    ensures OpenRefined(fs, rs, h + [a], key)
  {
    FirstRootStep(h, a, key);
    ClosedStep(rs, h, a, key);
  }

  /** For any decoder: a FEC set's root, flag, and, until it is closed, its table and counter. */
  lemma {:induction false} OpenRefinement(env: Env, h: seq<Arrival>, key: FecKey)
    ensures OpenRefined(FecOf(Run(env, h).state, key), env.rs, h, key)
  {
    if h == [] {
      assert Collected(h, key) == FreshFec().shards;
      assert Indices(h, key) == {};
    } else {
      var head, a := h[..|h| - 1], h[|h| - 1];
      var s := Run(env, head).state;
      assert h == head + [a];
      OpenRefinement(env, head, key);
      RunInv(env, head);
      StepFec(env, s, a, key);
      if key != KeyOf(a) {
        OtherSetOpen(FecOf(s, key), env.rs, head, a, key);
      } else if FecOf(s, key).reconstructed {
        assert FecInv(FecOf(s, key));
        ClosedStays(FecOf(s, key), env.rs, head, a, key);
      } else {
        AbsorbByHistory(env.rs, FecOf(s, key), head, a);
      }
    }
  }

  lemma FecEventsByHistory(env: Env, head: seq<Arrival>, a: Arrival)
    ensures FecEvents(env, Run(env, head).state, a) == SetEvents(env.rs, head, a)
    ensures NextFec(env, Run(env, head).state, a).reconstructed <==> Closed(env.rs, head + [a], KeyOf(a))
  {
    var fs := FecOf(Run(env, head).state, KeyOf(a));
    OpenRefinement(env, head, KeyOf(a));
    ClosedStep(env.rs, head, a, KeyOf(a));
    if !fs.reconstructed {
      AbsorbByHistory(env.rs, fs, head, a);
    }
  }

  /** One more arrival, any decoder: the log grows by the events of the arrival's set, every acceptance and
      every rejection among them, then by at most one finalization, and by none while the set is open. */
  lemma StepLog(env: Env, head: seq<Arrival>, a: Arrival) returns (tail: seq<FecEvent>)
    ensures Run(env, head + [a]).log == Run(env, head).log + SetEvents(env.rs, head, a) + tail
    ensures |tail| <= 1 && forall e :: e in tail ==> e.SlotFinalized? && e.slot == a.slot
    ensures !Closed(env.rs, head + [a], KeyOf(a)) ==> tail == []
  {
    var s := Run(env, head).state;
    assert (head + [a])[..|head|] == head;
    RunInv(env, head);
    assert SlotInv(s, a.slot);
    FecEventsByHistory(env, head, a);
    tail := AcceptEvents(env, s, a);
    assert Run(env, head + [a]).log == Run(env, head).log + Accept(env, s, a).1;
  }

  // ---------------------------------------------------------------- rejections

  /** Equivocation is reported: a shred whose root differs from its open set's first adds exactly that
      rejection, and leaves the set as it was. */
  lemma DivergingRootRejected(env: Env, head: seq<Arrival>, a: Arrival)
    requires FirstRoot(head, KeyOf(a)).Some? && FirstRoot(head, KeyOf(a)) != Some(a.root)
    requires |Indices(head, KeyOf(a))| < 32
    ensures Run(env, head + [a]).log == Run(env, head).log + [Rejected(RootDiverges)]
    ensures FecOf(Run(env, head + [a]).state, KeyOf(a)) == FecOf(Run(env, head).state, KeyOf(a))
  {
    OpenStep(env, head, a);
  }

  /** So is a position outside the set. */
  lemma OutOfRangeRejected(env: Env, head: seq<Arrival>, a: Arrival)
    requires FirstRoot(head, KeyOf(a)) == Some(a.root) && a.index >= 64
    requires |Indices(head, KeyOf(a))| < 32
    ensures Run(env, head + [a]).log == Run(env, head).log + [Rejected(IndexOutOfRange(a.index))]
    ensures FecOf(Run(env, head + [a]).state, KeyOf(a)) == FecOf(Run(env, head).state, KeyOf(a))
  {
    OpenStep(env, head, a);
  }

  lemma OpenStep(env: Env, head: seq<Arrival>, a: Arrival)
    requires |Indices(head, KeyOf(a))| < 32
    requires FirstRoot(head, KeyOf(a)).Some? && !(FirstRoot(head, KeyOf(a)) == Some(a.root) && a.index < 64)
    ensures Run(env, head + [a]).log == Run(env, head).log + SetEvents(env.rs, head, a)
    ensures !Closed(env.rs, head, KeyOf(a))
    ensures FecOf(Run(env, head + [a]).state, KeyOf(a)) == FecOf(Run(env, head).state, KeyOf(a))
  {
    ClosedNeedsHalf(env.rs, head, KeyOf(a));
    ClosedStep(env.rs, head, a, KeyOf(a));
    FirstRootStep(head, a, KeyOf(a));
    var tail := StepLog(env, head, a);
    assert (head + [a])[..|head|] == head;
    RunInv(env, head);
    StepFec(env, Run(env, head).state, a, KeyOf(a));
    OpenRefinement(env, head, KeyOf(a));
  }

  /** And a set that the decoder cannot recover: each new index from the thirty-second on that leaves it open
      is accepted and then rejected. */
  lemma DecoderFailureRejected(env: Env, head: seq<Arrival>, a: Arrival)
    requires IsNew(head, a) && FirstRoot(head, KeyOf(a)).Some? && !Closed(env.rs, head, KeyOf(a))
    requires |Indices(head, KeyOf(a))| >= 31 && !env.rs.reconstructs(Collected(head + [a], KeyOf(a)))
    ensures Run(env, head + [a]).log == Run(env, head).log +
      [ShredAccepted(KeyOf(a), |Indices(head, KeyOf(a))| + 1, a.index), Rejected(ReconstructFailed)]
  {
    var tail := StepLog(env, head, a);
    ClosedStep(env.rs, head, a, KeyOf(a));
    FailedEvents(env.rs, head, a);
  }

  lemma FailedEvents(rs: ErasureCode, head: seq<Arrival>, a: Arrival)
    requires IsNew(head, a) && FirstRoot(head, KeyOf(a)).Some? && !Closed(rs, head, KeyOf(a))
    requires |Indices(head, KeyOf(a))| >= 31 && !rs.reconstructs(Collected(head + [a], KeyOf(a)))
    ensures SetEvents(rs, head, a) ==
      [ShredAccepted(KeyOf(a), |Indices(head, KeyOf(a))| + 1, a.index), Rejected(ReconstructFailed)]
  {
    NewIndexCount(head, a);
    FirstRootStep(head, a, KeyOf(a));
  }

  function Rejections(log: seq<FecEvent>): seq<RejectReason> {
    if log == [] then []
    else
      var e := log[|log| - 1];
      Rejections(log[..|log| - 1]) + (if e.Rejected? then [e.reason] else [])
  }

  /** Why the arrival is rejected, if it is. */
  function ReasonFor(rs: ErasureCode, head: seq<Arrival>, a: Arrival): seq<RejectReason> {
    var first := FirstRoot(head, KeyOf(a));
    if Closed(rs, head, KeyOf(a)) then []
    else if first.Some? && first != Some(a.root) then [RootDiverges]
    else if a.index >= 64 then [IndexOutOfRange(a.index)]
    else if IsNew(head, a) && |Indices(head, KeyOf(a))| >= 31 && !rs.reconstructs(Collected(head + [a], KeyOf(a)))
    then [ReconstructFailed]
    else []
  }

  function ReasonsFor(rs: ErasureCode, h: seq<Arrival>): seq<RejectReason> {
    if h == [] then []
    else ReasonsFor(rs, h[..|h| - 1]) + ReasonFor(rs, h[..|h| - 1], h[|h| - 1])
  }

  lemma {:induction false} RejectionsAppend(log: seq<FecEvent>, more: seq<FecEvent>)
    ensures Rejections(log + more) == Rejections(log) + Rejections(more)
    decreases |more|
  {
    if more == [] {
      assert log + more == log;
    } else {
      var n := |more| - 1;
      RejectionsAppend(log, more[..n]);
      assert (log + more)[..|log + more| - 1] == log + more[..n];
    }
  }

  lemma RejectionsOfOne(e: FecEvent)
    ensures Rejections([e]) == if e.Rejected? then [e.reason] else []
  {
    assert [e][..0] == [];
  }

  lemma SetRejections(rs: ErasureCode, head: seq<Arrival>, a: Arrival)
    ensures Rejections(SetEvents(rs, head, a)) == ReasonFor(rs, head, a)
  {
    var first := FirstRoot(head, KeyOf(a));
    if Closed(rs, head, KeyOf(a)) {
    } else if first.Some? && first.value != a.root {
      RejectionsOfOne(Rejected(RootDiverges));
    } else {
      var started := if first.None? then [Started(KeyOf(a), a.root)] else [];
      RejectionsOfOne(Started(KeyOf(a), a.root));
      RejectionsAppend(started, ShardEvents(rs, head, a));
      ShardRejections(rs, head, a);
    }
  }

  lemma ShardRejections(rs: ErasureCode, head: seq<Arrival>, a: Arrival)
    requires FirstRoot(head, KeyOf(a)).None? || FirstRoot(head, KeyOf(a)) == Some(a.root)
    requires !Closed(rs, head, KeyOf(a))
    ensures Rejections(ShardEvents(rs, head, a)) == ReasonFor(rs, head, a)
  {
    var h, key := head + [a], KeyOf(a);
    var accepted := ShredAccepted(key, |Indices(h, key)|, a.index);
    FirstRootStep(head, a, key);
    NewIndexCount(head, a);
    RejectionsOfOne(Rejected(IndexOutOfRange(a.index)));
    RejectionsOfOne(accepted);
    RejectionsAppend([accepted], Decoded(rs, h, a));
    DecodedRejections(rs, h, a);
  }

  lemma DecodedRejections(rs: ErasureCode, h: seq<Arrival>, a: Arrival)
    ensures Rejections(Decoded(rs, h, a)) ==
      if |Indices(h, KeyOf(a))| >= 32 && !rs.reconstructs(Collected(h, KeyOf(a))) then [ReconstructFailed] else []
  {
    RejectionsOfOne(Reconstructed(KeyOf(a), a.root, 1.0));
    RejectionsOfOne(Rejected(ReconstructFailed));
  }

  lemma RejectionsThenFinal(log: seq<FecEvent>, events: seq<FecEvent>, tail: seq<FecEvent>)
    requires |tail| <= 1 && forall e :: e in tail ==> e.SlotFinalized?
    ensures Rejections(log + events + tail) == Rejections(log) + Rejections(events)
  {
    RejectionsAppend(log, events);
    if tail == [] {
      assert log + events + tail == log + events;
    } else {
      assert tail == [tail[0]] && tail[0] in tail;
      RejectionsOfOne(tail[0]);
      RejectionsAppend(log + events, tail);
      assert Rejections(log + events) + [] == Rejections(log + events);
    }
  }

  lemma StepRejections(env: Env, head: seq<Arrival>, a: Arrival)
    ensures Rejections(Run(env, head + [a]).log) == Rejections(Run(env, head).log) + ReasonFor(env.rs, head, a)
  {
    var tail := StepLog(env, head, a);
    RejectionsThenFinal(Run(env, head).log, SetEvents(env.rs, head, a), tail);
    SetRejections(env.rs, head, a);
  }

  /** All rejections of a run, in order, for any decoder. */
  lemma {:induction false} RejectionsExact(env: Env, h: seq<Arrival>)
    ensures Rejections(Run(env, h).log) == ReasonsFor(env.rs, h)
  {
    if h != [] {
      var head, a := h[..|h| - 1], h[|h| - 1];
      assert h == head + [a];
      RejectionsExact(env, head);
      StepRejections(env, head, a);
    }
  }

  // ---------------------------------------------------------------- the whole log

  /** The finalization that the arrival brings about, if any. */
  ghost function FinalEvents(env: Env, head: seq<Arrival>, a: Arrival): seq<FecEvent> {
    if FirstComplete(head, a.slot).None? && Complete(head + [a], a.slot)
    then [ExpectedFinal(env, head + [a], a.slot)] else []
  }

  ghost function ExpectedLog(env: Env, h: seq<Arrival>): seq<FecEvent> {
    if h == [] then []
    else
      var head, a := h[..|h| - 1], h[|h| - 1];
      ExpectedLog(env, head) + SetEvents(env.rs, head, a) + FinalEvents(env, head, a)
  }

  lemma StepExact(env: Env, head: seq<Arrival>, a: Arrival)
    requires RecoversFromHalf(env.rs)
    ensures Accept(env, Run(env, head).state, a).1 == SetEvents(env.rs, head, a) + FinalEvents(env, head, a)
  {
    var s := Run(env, head).state;
    RunInv(env, head);
    assert SlotInv(s, a.slot);
    FecEventsByHistory(env, head, a);
    AcceptShape(env, s, a);
    FinalizationExact(env, head, a.slot);
    FinalizedIff(env, head, a, a.slot);
    if Fires(Noted(env, s, a)) {
      FiringReports(env, head, a);
    }
  }

  /** The log of a run, event by event, is a function of what was delivered. */
  lemma {:induction false} LogExact(env: Env, h: seq<Arrival>)
    requires RecoversFromHalf(env.rs)
    ensures Run(env, h).log == ExpectedLog(env, h)
  {
    if h != [] {
      var head, a := h[..|h| - 1], h[|h| - 1];
      LogExact(env, head);
      StepExact(env, head, a);
    }
  }

  /** What one packet adds to the log, after the packets `head`. */
  ghost function PacketEvents(env: Env, head: seq<Bytes>, raw: Bytes): seq<FecEvent> {
    if WellFormed(raw) && SignedByLeader(env, raw) then
      var h, a := Arrivals(env, head), ArrivalRead(env.crypto.sha, raw);
      SetEvents(env.rs, h, a) + FinalEvents(env, h, a)
    else [Rejected(RefusalFor(env, raw))]
  }

  ghost function PacketLog(env: Env, raws: seq<Bytes>): seq<FecEvent> {
    if raws == [] then []
    else PacketLog(env, raws[..|raws| - 1]) + PacketEvents(env, raws[..|raws| - 1], raws[|raws| - 1])
  }

  lemma {:induction false} PacketLogWoven(env: Env, raws: seq<Bytes>)
    requires RecoversFromHalf(env.rs)
    ensures Woven(env, raws) == PacketLog(env, raws)
  {
    if raws != [] {
      var head, raw := raws[..|raws| - 1], raws[|raws| - 1];
      PacketLogWoven(env, head);
      AdmittedIsSigned(env, raw);
      RefusalExact(env, raw);
      if WellFormed(raw) && SignedByLeader(env, raw) {
        StepExact(env, Arrivals(env, head), ArrivalRead(env.crypto.sha, raw));
      }
    }
  }

  /** The log of the running object is a function of the packets it has ingested, with no state in it. */
  lemma AssemblerLogExact(asm: FecAssembler)
    requires asm.Valid() && RecoversFromHalf(asm.env.rs)
    ensures asm.log == PacketLog(asm.env, asm.history)
  {
    RawRun(asm.env, asm.history, 0, FecKey(0, 0));
    PacketLogWoven(asm.env, asm.history);
  }
}
