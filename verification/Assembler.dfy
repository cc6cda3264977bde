/** The FEC/slot assembler: per-(slot, FEC set) shard tables under per-slot bookkeeping.
    `Step` gives the meaning of one `ingest` on values; the class `FecAssembler` is the code,
    updating its two maps in place, and is proved to take exactly those steps. */
module Assembler {
  import opened Common
  import opened ByteStrings
  import opened Merkle
  import opened Shred
  import opened ReedSolomon
  import opened Das

  datatype FecKey = FecKey(slot: nat, fecSetIndex: nat)

  datatype RejectReason =
    | ParseFailed(parse: ShredError)
    | NoLeader(slot: nat)
    | VerifyFailed(verify: ShredError)
    | RootDiverges
    | IndexOutOfRange(index: nat)
    | ReconstructFailed

  datatype FecEvent =
    | Started(key: FecKey, merkleRoot: Hash)
    | ShredAccepted(key: FecKey, shredsPresent: nat, erasureShardIndex: nat)
    | Reconstructed(key: FecKey, merkleRoot: Hash, dasConfidence: real)
    | SlotFinalized(slot: nat, fecRoots: seq<Hash>, slotRoot: Hash, totalShredsObserved: nat, slotDasConfidence: real)
    | Rejected(reason: RejectReason)

  datatype FecState = FecState(
    merkleRoot: Option<Hash>, shards: Table, distinctSeen: nat, reconstructed: bool, confidence: real)

  datatype SlotState = SlotState(
    seen: set<nat>, reconstructed: set<nat>, lastShredSeen: bool, lastFecSetIndex: Option<nat>, finalized: bool)

  function FreshFec(): (fs: FecState)
    ensures fs.merkleRoot == None && fs.distinctSeen == 0 && !fs.reconstructed
    ensures forall i :: 0 <= i < 64 ==> fs.shards[i] == None
  {
    FecState(None, seq(64, i => None), 0, false, 0.0)
  }

  const FRESH_SLOT := SlotState({}, {}, false, None, false)

  /** The outside world: crypto, erasure code and the leader of each slot. */
  datatype Env = Env(crypto: Crypto, rs: ErasureCode, leader: nat -> Option<Hash>)

  // ---------------------------------------------------------------- admission

  /** What the assembler uses of a verified shred. */
  datatype Arrival = Arrival(slot: nat, fec: nat, root: Hash, index: nat, last: bool, shard: Shard)

  function KeyOf(a: Arrival): FecKey { FecKey(a.slot, a.fec) }

  datatype Admission = Refused(reason: RejectReason) | Admitted(arrival: Arrival)

  function ShardOffset(kind: ShredKind): nat { if kind.Data? then SIZE_OF_SIGNATURE else 89 }

  /** Parse, look up the leader, verify; then the erasure region and index. */
  function Admit(env: Env, raw: Bytes): Admission {
    var parsed := ParseShred(raw);
    if parsed.Err? then Refused(ParseFailed(parsed.error)) else
    var slot := parsed.value.header.slot;
    var leader := env.leader(slot);
    if leader.None? then Refused(NoLeader(slot)) else
    var verified := VerifyShred(env.crypto, raw, leader.value);
    if verified.Err? then Refused(VerifyFailed(verified.error)) else
    var v := verified.value;
    var off := ShardOffset(v.kind);
    Admitted(Arrival(v.slot, v.fecSetIndex, v.merkleRoot, parsed.value.erasureShardIndex, v.IsLastInSlot(),
                     raw[off..off + ERASURE_SHARD_SIZE]))
  }

  // ---------------------------------------------------------------- one step

  datatype AState = AState(states: map<FecKey, FecState>, slots: map<nat, SlotState>)

  function FecOf(s: AState, key: FecKey): FecState {
    if key in s.states then s.states[key] else FreshFec()
  }

  function SlotOf(s: AState, slot: nat): SlotState {
    if slot in s.slots then s.slots[slot] else FRESH_SLOT
  }

  /** The greatest FEC set index that carried a last-in-slot marker. */
  function Marked(last: Option<nat>, a: Arrival): Option<nat> {
    if !a.last then last
    else if last.None? then Some(a.fec)
    else Some(Max(last.value, a.fec))
  }

  /** Slot bookkeeping done for every admitted shred. */
  function Note(sl: SlotState, a: Arrival): SlotState {
    SlotState(sl.seen + {a.fec}, sl.reconstructed, sl.lastShredSeen || a.last,
              Marked(sl.lastFecSetIndex, a), sl.finalized)
  }

  /** Effect of an arrival on a FEC set that is not reconstructed yet. */
  ghost function Absorb(rs: ErasureCode, fs: FecState, a: Arrival): (FecState, seq<FecEvent>) {
    if fs.merkleRoot.Some? && fs.merkleRoot.value != a.root then (fs, [Rejected(RootDiverges)])
    else
      var started := if fs.merkleRoot.None? then [Started(KeyOf(a), a.root)] else [];
      var rooted := fs.(merkleRoot := Some(a.root));
      if a.index >= SHREDS_PER_FEC then (rooted, started + [Rejected(IndexOutOfRange(a.index))])
      else if fs.shards[a.index].Some? then (rooted, started)
      else
        var n := fs.distinctSeen + 1;
        var stored := rooted.(shards := fs.shards[a.index := Some(a.shard)], distinctSeen := n);
        var accepted := started + [ShredAccepted(KeyOf(a), n, a.index)];
        if n < THRESHOLD then (stored, accepted)
        else if rs.reconstructs(stored.shards) then
          (stored.(reconstructed := true, confidence := Confidence(n)),
           accepted + [Reconstructed(KeyOf(a), a.root, Confidence(n))])
        else (stored, accepted + [Rejected(ReconstructFailed)])
  }

  datatype Summary = Summary(roots: seq<Hash>, total: nat, undetected: real)

  function Extend(sum: Summary, st: FecState): Summary
    requires st.merkleRoot.Some?
  {
    Summary(sum.roots + [st.merkleRoot.value], sum.total + st.distinctSeen, sum.undetected * (1.0 - st.confidence))
  }

  /** Roots and statistics of the listed sets; nothing if one has no state or no root. */
  function Collect(states: map<FecKey, FecState>, slot: nat, indices: seq<nat>): Option<Summary> {
    if indices == [] then Some(Summary([], 0, 1.0))
    else
      var n := |indices| - 1;
      var before := Collect(states, slot, indices[..n]);
      var key := FecKey(slot, indices[n]);
      if before.None? || key !in states || states[key].merkleRoot.None? then None
      else
        Some(Extend(before.value, states[key]))
  }

  /** The seen sets a finalization has to wait for. */
  function Due(sl: SlotState): set<nat> {
    if sl.lastFecSetIndex.None? then {} else set i | i in sl.seen && i <= sl.lastFecSetIndex.value
  }

  /** A marker has been seen and every seen set up to the last marker is reconstructed. */
  predicate Ready(sl: SlotState) {
    && sl.lastShredSeen && sl.lastFecSetIndex.Some?
    && Due(sl) <= sl.reconstructed && sl.lastFecSetIndex.value in sl.seen
  }

  function FinalEvent(env: Env, slot: nat, sum: Summary): FecEvent {
    SlotFinalized(slot, sum.roots, SlotRoot(env.crypto.sha, sum.roots), sum.total, 1.0 - sum.undetected)
  }

  /** One attempt to finalize a slot. The flag is set before the roots are collected. */
  function Attempt(env: Env, states: map<FecKey, FecState>, slot: nat, sl: SlotState): (SlotState, seq<FecEvent>) {
    if sl.finalized || !Ready(sl) then (sl, [])
    else
      var sum := Collect(states, slot, Ascending(Due(sl)));
      (sl.(finalized := true), if sum.None? then [] else [FinalEvent(env, slot, sum.value)])
  }

  function TryFinalize(env: Env, s: AState, slot: nat): (AState, seq<FecEvent>) {
    if slot !in s.slots then (s, [])
    else
      var (sl, events) := Attempt(env, s.states, slot, s.slots[slot]);
      (AState(s.states, s.slots[slot := sl]), events)
  }

  ghost function Accept(env: Env, s: AState, a: Arrival): (AState, seq<FecEvent>) {
    var key := KeyOf(a);
    var fs := FecOf(s, key);
    var sl := Note(SlotOf(s, a.slot), a);
    if fs.reconstructed then
      TryFinalize(env, AState(s.states[key := fs], s.slots[a.slot := sl]), a.slot)
    else
      var (fs', events) := Absorb(env.rs, fs, a);
      if fs'.reconstructed then
        var sl' := sl.(reconstructed := sl.reconstructed + {a.fec});
        var (s', finals) := TryFinalize(env, AState(s.states[key := fs'], s.slots[a.slot := sl']), a.slot);
        (s', events + finals)
      else
        (AState(s.states[key := fs'], s.slots[a.slot := sl]), events)
  }

  ghost function Step(env: Env, s: AState, raw: Bytes): (AState, seq<FecEvent>) {
    match Admit(env, raw)
    case Refused(reason) => (s, [Rejected(reason)])
    case Admitted(a) => Accept(env, s, a)
  }

  const EMPTY := AState(map[], map[])

  datatype Outcome = Outcome(state: AState, log: seq<FecEvent>)

  /** A whole run over raw packets. */
  ghost function RunRaw(env: Env, raws: seq<Bytes>): Outcome {
    if raws == [] then Outcome(EMPTY, [])
    else
      var before := RunRaw(env, raws[..|raws| - 1]);
      var (s, events) := Step(env, before.state, raws[|raws| - 1]);
      Outcome(s, before.log + events)
  }

  // ---------------------------------------------------------------- the code

  class FecAssembler {
    const env: Env
    var states: map<FecKey, FecState>
    var slots: map<nat, SlotState>
    ghost var history: seq<Bytes>
    ghost var log: seq<FecEvent>

    ghost function State(): AState
      reads this
    {
      AState(states, slots)
    }

    /** The maps are what a run over everything ingested so far leaves, and the log is what it emitted. */
    ghost predicate Valid()
      reads this
    {
      RunRaw(env, history) == Outcome(State(), log)
    }

    constructor (env: Env)
      ensures this.env == env && Valid() && history == [] && log == []
    {
      this.env := env;
      states, slots, history, log := map[], map[], [], [];
    }

    /** `ingest`. */
    method Ingest(raw: Bytes) returns (events: seq<FecEvent>)
      requires Valid()
      modifies this
      ensures Valid() && history == old(history) + [raw] && log == old(log) + events
      ensures (State(), events) == Step(env, old(State()), raw)
    {
      events := Process(raw);
      history := history + [raw];
      log := log + events;
      assert history[..|history| - 1] == old(history);
    }

    method Process(raw: Bytes) returns (events: seq<FecEvent>)
      modifies this`states, this`slots
      ensures (State(), events) == Step(env, old(State()), raw)
    {
      var parsed := ParseShred(raw);
      if parsed.Err? {
        return [Rejected(ParseFailed(parsed.error))];
      }
      var leader := env.leader(parsed.value.header.slot);
      if leader.None? {
        return [Rejected(NoLeader(parsed.value.header.slot))];
      }
      var verified := VerifyShred(env.crypto, raw, leader.value);
      if verified.Err? {
        return [Rejected(VerifyFailed(verified.error))];
      }
      var v := verified.value;
      var off := ShardOffset(v.kind);
      var shard := raw[off..off + ERASURE_SHARD_SIZE];
      var index := parsed.value.erasureShardIndex;
      events := Route(Arrival(v.slot, v.fecSetIndex, v.merkleRoot, index, v.IsLastInSlot(), shard));
    }

    /** The part of `ingest` behind verification. */
    method Route(a: Arrival) returns (events: seq<FecEvent>)
      modifies this`states, this`slots
      ensures (State(), events) == Accept(env, old(State()), a)
    {
      var key := KeyOf(a);
      if key !in states {
        states := states[key := FreshFec()];
      }
      if a.slot !in slots {
        slots := slots[a.slot := FRESH_SLOT];
      }
      slots := slots[a.slot := Note(slots[a.slot], a)];
      assert states == old(states)[key := FecOf(old(State()), key)];
      assert slots == old(slots)[a.slot := Note(SlotOf(old(State()), a.slot), a)];
      if states[key].reconstructed {
        events := TryFinalizeSlot(a.slot);
        return;
      }
      events := Store(a);
      assert states == old(states)[key := states[key]];
      if states[key].reconstructed {
        var sl := slots[a.slot];
        slots := slots[a.slot := sl.(reconstructed := sl.reconstructed + {a.fec})];
        assert slots == old(slots)[a.slot := slots[a.slot]];
        var finals := TryFinalizeSlot(a.slot);
        events := events + finals;
      }
    }

    /** Root check, range check, duplicate check, storing and reconstruction. */
    method Store(a: Arrival) returns (events: seq<FecEvent>)
      requires KeyOf(a) in states && !states[KeyOf(a)].reconstructed
      modifies this`states
      ensures var (fs, evs) := Absorb(env.rs, old(states)[KeyOf(a)], a);
        states == old(states)[KeyOf(a) := fs] && events == evs
    {
      var key := KeyOf(a);
      events := [];
      var st := states[key];
      match st.merkleRoot {
        case None =>
          st := st.(merkleRoot := Some(a.root));
          states := states[key := st];
          events := events + [Started(key, a.root)];
        case Some(existing) =>
          if existing != a.root {
            return events + [Rejected(RootDiverges)];
          }
      }
      if a.index >= SHREDS_PER_FEC {
        return events + [Rejected(IndexOutOfRange(a.index))];
      }
      if st.shards[a.index].Some? {
        return;
      }
      st := st.(shards := st.shards[a.index := Some(a.shard)], distinctSeen := st.distinctSeen + 1);
      states := states[key := st];
      events := events + [ShredAccepted(key, st.distinctSeen, a.index)];
      if st.distinctSeen >= THRESHOLD {
        if env.rs.reconstructs(st.shards) {
          var das := DasConfidence(st.distinctSeen);
          states := states[key := st.(reconstructed := true, confidence := das)];
          events := events + [Reconstructed(key, st.merkleRoot.value, das)];
        } else {
          events := events + [Rejected(ReconstructFailed)];
        }
      }
    }

    /** `try_finalize_slot`. */
    method TryFinalizeSlot(slot: nat) returns (events: seq<FecEvent>)
      modifies this`slots
      ensures (State(), events) == TryFinalize(env, old(State()), slot)
    {
      assert slot in slots ==> slots == slots[slot := slots[slot]];
      if slot !in slots || slots[slot].finalized || !slots[slot].lastShredSeen || slots[slot].lastFecSetIndex.None? {
        return [];
      }
      var sl := slots[slot];
      var due := Ascending(Due(sl));
      var complete := AllIn(due, sl.reconstructed);
      assert complete <==> Due(sl) <= sl.reconstructed;
      if !complete || sl.lastFecSetIndex.value !in sl.seen {
        return [];
      }
      slots := slots[slot := sl.(finalized := true)];
      var sum := Gather(slot, due);
      if sum.None? {
        return [];
      }
      var slotRoot := AggregateRoot(env.crypto.sha, sum.value.roots);
      events := [SlotFinalized(slot, sum.value.roots, slotRoot, sum.value.total, 1.0 - sum.value.undetected)];
    }

    method Gather(slot: nat, due: seq<nat>) returns (sum: Option<Summary>)
      ensures sum == Collect(states, slot, due)
    {
      var acc := Summary([], 0, 1.0);
      for k := 0 to |due|
        invariant Collect(states, slot, due[..k]) == Some(acc)
      {
        var key := FecKey(slot, due[k]);
        assert due[..k + 1][..k] == due[..k];
        if key !in states || states[key].merkleRoot.None? {
          CollectFails(states, slot, due, k);
          return None;
        }
        acc := Extend(acc, states[key]);
      }
      assert due[..|due|] == due;
      sum := Some(acc);
    }
  }

  method AllIn(due: seq<nat>, done: set<nat>) returns (r: bool)
    ensures r <==> forall i :: i in due ==> i in done
  {
    for k := 0 to |due|
      invariant forall j :: 0 <= j < k ==> due[j] in done
    {
      if due[k] !in done {
        return false;
      }
    }
    return true;
  }

  lemma {:induction false} CollectFails(states: map<FecKey, FecState>, slot: nat, indices: seq<nat>, k: nat)
    requires k < |indices|
    requires FecKey(slot, indices[k]) !in states || states[FecKey(slot, indices[k])].merkleRoot.None?
    ensures Collect(states, slot, indices) == None
    decreases |indices|
  {
    if k < |indices| - 1 {
      CollectFails(states, slot, indices[..|indices| - 1], k);
    }
  }
}
