/** The leader cache: a bounded slot-to-leader map behind a read/write lock, filled under a mutex, and
    every interleaving of threads over it. The RPC response is a parameter. */
module LeaderCache {
  import opened Common
  import opened ByteStrings

  const BATCH_SIZE: nat := 1000
  const MAX_CACHE_ENTRIES: nat := 100_000
  const TWO_64: nat := 0x1_0000_0000_0000_0000

  type Pubkey = k: Bytes | |k| == 32 witness Zeros(32)
  type Cache = map<nat, Pubkey>
  type Schedule = nat -> Pubkey

  // ---------------------------------------------------------------- filling

  /** The first `n` leaders of a window written at consecutive slots (`u64` addition wraps). */
  function Written(cache: Cache, start: nat, window: seq<Pubkey>, n: nat): Cache
    requires n <= |window|
  {
    if n == 0 then cache else Written(cache, start, window, n - 1)[(start + n - 1) % TWO_64 := window[n - 1]]
  }

  function Excess(cache: Cache): nat {
    if |cache| > MAX_CACHE_ENTRIES then |cache| - MAX_CACHE_ENTRIES else 0
  }

  /** The slots dropped from an oversized cache: the smallest ones. */
  function Dropped(cache: Cache): set<nat> {
    Elems(Ascending(cache.Keys)[..Excess(cache)])
  }

  function Evict(cache: Cache): Cache { cache - Dropped(cache) }

  function Fill(cache: Cache, start: nat, window: seq<Pubkey>): Cache {
    Evict(Written(cache, start, window, |window|))
  }

  function Lookup(cache: Cache, slot: nat): Option<Pubkey> {
    if slot in cache then Some(cache[slot]) else None
  }

  class Resolver {
    var cache: Cache

    constructor ()
      ensures cache == map[]
    {
      cache := map[];
    }

    /** `fill_window`; `None` is a failed fetch. */
    method FillWindow(start: nat, response: Option<seq<Pubkey>>) returns (ok: bool)
      modifies this
      ensures ok == response.Some?
      ensures cache == if response.Some? then Fill(old(cache), start, response.value) else old(cache)
    {
      if response.None? {
        return false;
      }
      var leaders := response.value;
      for i := 0 to |leaders|
        invariant cache == Written(old(cache), start, leaders, i)
      {
        cache := cache[(start + i) % TWO_64 := leaders[i]];
      }
      EvictOldest();
      return true;
    }

    method EvictOldest()
      modifies this
      ensures cache == Evict(old(cache))
    {
      if |cache| > MAX_CACHE_ENTRIES {
        var keys := Ascending(cache.Keys);
        assert |keys| == |cache.Keys| == |cache|;
        cache := RemoveKeys(cache, keys, |cache| - MAX_CACHE_ENTRIES);
      } else {
        assert Dropped(cache) == {};
      }
    }

    static method RemoveKeys(full: Cache, keys: seq<nat>, dropN: nat) returns (kept: Cache)
      requires dropN <= |keys|
      ensures kept == full - Elems(keys[..dropN])
    {
      kept := full;
      assert Elems(keys[..0]) == {};
      for k := 0 to dropN
        invariant kept == full - Elems(keys[..k])
      {
        assert keys[..k + 1] == keys[..k] + [keys[k]];
        RemoveMore(full, Elems(keys[..k]), keys[k], Elems(keys[..k + 1]));
        kept := kept - {keys[k]};
      }
    }

    /** `leader_for_slot` with no other thread about; `response` is what a fetch would return. */
    method LeaderForSlot(slot: nat, response: Option<seq<Pubkey>>) returns (r: Option<Pubkey>)
      modifies this
      ensures slot in old(cache) ==> cache == old(cache) && r == Some(old(cache)[slot])
      ensures slot !in old(cache) && response.None? ==> cache == old(cache) && r == None
      ensures slot !in old(cache) && response.Some? ==>
        cache == Fill(old(cache), slot, response.value) && r == Lookup(cache, slot)
    {
      if slot in cache {
        return Some(cache[slot]);
      }
      var ok := FillWindow(slot, response);
      if !ok {
        return None;
      }
      r := Lookup(cache, slot);
    }
  }

  // ---------------------------------------------------------------- eviction

  lemma RemoveMore(m: Cache, gone: set<nat>, k: nat, more: set<nat>)
    requires more == gone + {k}
    ensures m - gone - {k} == m - more
  {
  }

  /** The first `n` of an increasing listing are the `n` smallest. */
  lemma SmallestFirst(s: set<nat>, n: nat)
    requires n <= |s|
    ensures var low := Elems(Ascending(s)[..n]);
      && |low| == n && low <= s
      && (forall x, y :: x in low && y in s && y !in low ==> x < y)
  {
    var a := Ascending(s);
    DistinctCount(a[..n]);
    assert forall j :: 0 <= j < n ==> a[j] in a[..n];
    forall x, y | x in Elems(a[..n]) && y in s && y !in Elems(a[..n])
      ensures x < y
    {
      var i :| 0 <= i < n && a[i] == x;
      var j :| 0 <= j < |a| && a[j] == y;
    }
  }

  lemma RemainingCount(keys: set<nat>, gone: set<nat>)
    requires gone <= keys
    ensures |keys - gone| == |keys| - |gone|
  {
  }

  /** Eviction keeps at most the bound, and drops exactly the excess, from the smallest slots up. */
  lemma EvictionExact(cache: Cache)
    ensures Evict(cache).Keys == cache.Keys - Dropped(cache)
    ensures |Evict(cache)| == |cache| - Excess(cache) <= MAX_CACHE_ENTRIES
    ensures Dropped(cache) <= cache.Keys && |Dropped(cache)| == Excess(cache)
    ensures forall x, y :: x in Dropped(cache) && y in Evict(cache) ==> x < y
  {
    var keys, n := cache.Keys, Excess(cache);
    SmallestFirst(keys, n);
    RemainingCount(keys, Dropped(cache));
    var kept := Evict(cache);
    assert kept.Keys == keys - Dropped(cache);
    assert |kept| == |kept.Keys|;
  }

  function Below(cache: Cache, slot: nat): set<nat> { set k | k in cache && k < slot }

  /** A slot survives exactly when at least as many smaller slots are cached as have to go. */
  lemma SurvivesIff(cache: Cache, slot: nat)
    requires slot in cache
    ensures slot in Evict(cache) <==> |Below(cache, slot)| >= Excess(cache)
  {
    EvictionExact(cache);
    RankIff(cache.Keys, Dropped(cache), Below(cache, slot), slot);
  }

  lemma RankIff(keys: set<nat>, gone: set<nat>, below: set<nat>, slot: nat)
    requires gone <= keys && slot in keys && below == set k | k in keys && k < slot
    requires forall x, y :: x in gone && y in keys && y !in gone ==> x < y
    ensures slot !in gone <==> |below| >= |gone|
  {
    if slot !in gone {
      assert gone <= below;
      SubsetCardinality(gone, below);
    } else {
      assert below + {slot} <= gone;
      SubsetCardinality(below + {slot}, gone);
    }
  }

  // ---------------------------------------------------------------- agreement with the schedule

  ghost predicate Agrees(cache: Cache, schedule: Schedule) {
    forall k :: k in cache ==> cache[k] == schedule(k)
  }

  /** A response is the schedule from the asked slot on, possibly cut short. */
  ghost predicate Honest(schedule: Schedule, start: nat, window: seq<Pubkey>) {
    && start + |window| <= TWO_64
    && forall i :: 0 <= i < |window| ==> window[i] == schedule(start + i)
  }

  /** Leader `i` of a response lands on the slot `i` after the first, as 64-bit integers add. */
  lemma {:induction false} WrittenAt(cache: Cache, start: nat, window: seq<Pubkey>, n: nat, i: nat)
    requires i < n <= |window| && n <= 0x1_0000_0000_0000_0000
    ensures Lookup(Written(cache, start, window, n), (start + i) % 0x1_0000_0000_0000_0000) == Some(window[i])
  {
    if i < n - 1 {
      WrittenAt(cache, start, window, n - 1, i);
      ApartModulo(start + i, start + n - 1);
    }
  }

  lemma ApartModulo(a: nat, b: nat)
    requires a < b < a + 0x1_0000_0000_0000_0000
    ensures a % 0x1_0000_0000_0000_0000 != b % 0x1_0000_0000_0000_0000
  {
  }

  lemma OneMoreAgrees(cache: Cache, schedule: Schedule, k: nat, leader: Pubkey)
    requires Agrees(cache, schedule) && leader == schedule(k) && k < TWO_64
    ensures Agrees(cache[k % TWO_64 := leader], schedule)
    ensures k in cache[k % TWO_64 := leader]
  {
  }

  lemma {:induction false} WrittenAgrees(cache: Cache, schedule: Schedule, start: nat, window: seq<Pubkey>, n: nat)
    requires Agrees(cache, schedule) && Honest(schedule, start, window) && n <= |window|
    ensures Agrees(Written(cache, start, window, n), schedule)
    ensures n > 0 ==> start in Written(cache, start, window, n)
  {
    if n > 0 {
      WrittenAgrees(cache, schedule, start, window, n - 1);
      assert window[n - 1] == schedule(start + (n - 1));
      OneMoreAgrees(Written(cache, start, window, n - 1), schedule, start + n - 1, window[n - 1]);
    }
  }

  lemma FillAgrees(cache: Cache, schedule: Schedule, start: nat, window: seq<Pubkey>)
    requires Agrees(cache, schedule) && Honest(schedule, start, window)
    ensures Agrees(Fill(cache, start, window), schedule)
    ensures |Fill(cache, start, window)| <= MAX_CACHE_ENTRIES
  {
    WrittenAgrees(cache, schedule, start, window, |window|);
    EvictionExact(Written(cache, start, window, |window|));
  }

  predicate InWindow(k: nat, start: nat, n: nat) { start <= k < start + n }

  /** The `n` slots from `start` on. */
  function WindowSlots(start: nat, n: nat): (r: set<nat>)
    ensures forall k :: k in r <==> start <= k < start + n
  {
    set k | start <= k < start + n && InWindow(k, start, n)
  }

  lemma {:induction false} WindowCount(start: nat, n: nat)
    ensures |WindowSlots(start, n)| == n
  {
    if n > 0 {
      WindowCount(start, n - 1);
      assert WindowSlots(start, n) == WindowSlots(start, n - 1) + {start + n - 1};
    }
  }

  lemma {:induction false} WrittenKeys(cache: Cache, start: nat, window: seq<Pubkey>, n: nat)
    requires start + n <= TWO_64 && n <= |window|
    ensures Written(cache, start, window, n).Keys == cache.Keys + WindowSlots(start, n)
  {
    if n > 0 {
      WrittenKeys(cache, start, window, n - 1);
      assert (start + n - 1) % TWO_64 == start + n - 1;
      assert WindowSlots(start, n) == WindowSlots(start, n - 1) + {start + n - 1};
    }
  }

  /** Writing `n` leaders from `slot` on overfills the cache by more than the smaller slots it holds. It
      speaks of the cache before the call and of the length of the response alone. */
  predicate Squeezed(cache: Cache, slot: nat, n: nat) {
    |Below(cache, slot)| + MAX_CACHE_ENTRIES < |cache.Keys + WindowSlots(slot, n)|
  }

  lemma WrittenBelow(cache: Cache, slot: nat, window: seq<Pubkey>)
    requires slot + |window| <= TWO_64
    ensures var full := Written(cache, slot, window, |window|);
      && |full| == |cache.Keys + WindowSlots(slot, |window|)|
      && Below(full, slot) == Below(cache, slot)
      && (|Below(full, slot)| < Excess(full) <==> Squeezed(cache, slot, |window|))
  {
    var full := Written(cache, slot, window, |window|);
    WrittenKeys(cache, slot, window, |window|);
    assert |full| == |full.Keys|;
    assert Below(full, slot) == Below(cache, slot);
  }

  /** A successful fetch for an uncached slot answers nothing exactly when the response was empty or the
      slot itself is evicted to make room, which is decided by the cache before the call. */
  lemma FetchedNoneIff(cache: Cache, schedule: Schedule, slot: nat, window: seq<Pubkey>)
    requires Agrees(cache, schedule) && Honest(schedule, slot, window) && slot !in cache
    ensures Lookup(Fill(cache, slot, window), slot) == None <==> window == [] || Squeezed(cache, slot, |window|)
  {
    var full := Written(cache, slot, window, |window|);
    WrittenAgrees(cache, schedule, slot, window, |window|);
    WrittenBelow(cache, slot, window);
    EvictionExact(full);
    if window != [] {
      SurvivesIff(full, slot);
    }
  }

  /** Whatever the response: if a full batch would not squeeze the slot out, every non-empty response of at
      most a batch is answered with the schedule's leader. */
  lemma BatchAnswers(cache: Cache, schedule: Schedule, slot: nat, window: seq<Pubkey>)
    requires Agrees(cache, schedule) && Honest(schedule, slot, window) && slot !in cache
    requires 0 < |window| <= BATCH_SIZE && !Squeezed(cache, slot, BATCH_SIZE)
    ensures Lookup(Fill(cache, slot, window), slot) == Some(schedule(slot))
  {
    SubsetCardinality(cache.Keys + WindowSlots(slot, |window|), cache.Keys + WindowSlots(slot, BATCH_SIZE));
    FetchedNoneIff(cache, schedule, slot, window);
    FillAgrees(cache, schedule, slot, window);
  }

  /** Two conditions under which a batch never squeezes a slot out: room for a batch, or a batch of smaller
      slots to evict first. */
  lemma BatchFits(cache: Cache, slot: nat)
    requires |cache| <= MAX_CACHE_ENTRIES
    requires |cache| + BATCH_SIZE <= MAX_CACHE_ENTRIES || |Below(cache, slot)| >= BATCH_SIZE
    ensures !Squeezed(cache, slot, BATCH_SIZE)
  {
    WindowCount(slot, BATCH_SIZE);
    var added := WindowSlots(slot, BATCH_SIZE) - cache.Keys;
    SubsetCardinality(added, WindowSlots(slot, BATCH_SIZE));
    assert cache.Keys + WindowSlots(slot, BATCH_SIZE) == cache.Keys + added;
    assert |cache.Keys| == |cache|;
  }

  // ---------------------------------------------------------------- threads

  datatype Source = CacheHit | FetchFailed | AfterFetch(window: seq<Pubkey>, prior: Cache)

  /** Where a call of `leader_for_slot` stands. */
  datatype PC =
    | FirstRead
    | WaitForMutex
    | Recheck
    | Fetching
    | Writing(window: seq<Pubkey>)
    | ReadBack(window: seq<Pubkey>, prior: Cache)
    | Done(result: Option<Pubkey>, source: Source)

  datatype Thread = Thread(slot: nat, pc: PC)

  datatype System = System(cache: Cache, holder: Option<nat>, threads: map<nat, Thread>)

  predicate Inside(pc: PC) { pc.Recheck? || pc.Fetching? || pc.Writing? || pc.ReadBack? }

  datatype Action =
    | Call(slot: nat)
    | Read
    | Lock
    | ReadAgain
    | FetchOk(window: seq<Pubkey>)
    | FetchErr
    | Write
    | Answer

  /** One atomic action of one thread; the write lock makes inserting and evicting one action. */
  predicate Step(s: System, t: System, id: nat, act: Action) {
    if act.Call? then
      && (id !in s.threads || s.threads[id].pc.Done?)
      && t == s.(threads := s.threads[id := Thread(act.slot, FirstRead)])
    else
      && id in s.threads
      && var slot, pc := s.threads[id].slot, s.threads[id].pc;
      match act
      case Read =>
        && pc.FirstRead?
        && t == s.(threads := s.threads[id := Thread(slot,
             if slot in s.cache then Done(Some(s.cache[slot]), CacheHit) else WaitForMutex)])
      case Lock =>
        && pc.WaitForMutex? && s.holder == None
        && t == System(s.cache, Some(id), s.threads[id := Thread(slot, Recheck)])
      case ReadAgain =>
        && pc.Recheck?
        && (if slot in s.cache
            then t == System(s.cache, None, s.threads[id := Thread(slot, Done(Some(s.cache[slot]), CacheHit))])
            else t == s.(threads := s.threads[id := Thread(slot, Fetching)]))
      case FetchOk(window) =>
        && pc.Fetching?
        && t == s.(threads := s.threads[id := Thread(slot, Writing(window))])
      case FetchErr =>
        && pc.Fetching?
        && t == System(s.cache, None, s.threads[id := Thread(slot, Done(None, FetchFailed))])
      case Write =>
        && pc.Writing?
        && t == System(Fill(s.cache, slot, pc.window), s.holder,
                       s.threads[id := Thread(slot, ReadBack(pc.window, s.cache))])
      case Answer =>
        && pc.ReadBack?
        && t == System(s.cache, None,
                       s.threads[id := Thread(slot, Done(Lookup(s.cache, slot), AfterFetch(pc.window, pc.prior)))])
  }

  const INITIAL := System(map[], None, map[])

  /** What is known of a thread, given the shared cache. */
  ghost predicate ThreadInv(schedule: Schedule, cache: Cache, th: Thread) {
    match th.pc
    case Fetching => th.slot !in cache
    case Writing(window) => Honest(schedule, th.slot, window) && th.slot !in cache
    case ReadBack(window, prior) =>
      && Honest(schedule, th.slot, window) && Agrees(prior, schedule) && th.slot !in prior
      && cache == Fill(prior, th.slot, window)
    case Done(result, source) =>
      && (result.Some? ==> result.value == schedule(th.slot))
      && (source.CacheHit? ==> result.Some?)
      && (source.FetchFailed? ==> result.None?)
      && (source.AfterFetch? ==>
            && Honest(schedule, th.slot, source.window) && Agrees(source.prior, schedule) && th.slot !in source.prior
            && result == Lookup(Fill(source.prior, th.slot, source.window), th.slot))
    case _ => true
  }

  ghost predicate CacheInv(schedule: Schedule, s: System) {
    && Agrees(s.cache, schedule) && |s.cache| <= MAX_CACHE_ENTRIES
    && (s.holder.Some? ==> s.holder.value in s.threads)
    && (forall id :: id in s.threads ==> (Inside(s.threads[id].pc) <==> s.holder == Some(id)))
    && (forall id :: id in s.threads ==> ThreadInv(schedule, s.cache, s.threads[id]))
  }

  lemma ThreadStep(schedule: Schedule, s: System, t: System, id: nat, act: Action)
    requires CacheInv(schedule, s) && Step(s, t, id, act)
    requires act.FetchOk? ==> Honest(schedule, s.threads[id].slot, act.window)
    ensures id in t.threads && ThreadInv(schedule, t.cache, t.threads[id])
    ensures Agrees(t.cache, schedule) && |t.cache| <= MAX_CACHE_ENTRIES
    ensures t.cache != s.cache ==> act.Write?
  {
    if act.Write? {
      FillAgrees(s.cache, schedule, s.threads[id].slot, s.threads[id].pc.window);
    } else if act.Answer? {
      assert ThreadInv(schedule, s.cache, s.threads[id]);
    }
  }

  /** Each action of each thread keeps the invariant. */
  lemma StepKeepsInv(schedule: Schedule, s: System, t: System, id: nat, act: Action)
    requires CacheInv(schedule, s) && Step(s, t, id, act)
    requires act.FetchOk? ==> Honest(schedule, s.threads[id].slot, act.window)
    ensures CacheInv(schedule, t)
  {
    ThreadStep(schedule, s, t, id, act);
    forall other | other in t.threads
      ensures Inside(t.threads[other].pc) <==> t.holder == Some(other)
      ensures ThreadInv(schedule, t.cache, t.threads[other])
    {
      if other != id {
        assert other in s.threads && t.threads[other] == s.threads[other];
        assert ThreadInv(schedule, s.cache, s.threads[other]);
        assert Inside(s.threads[other].pc) <==> s.holder == Some(other);
      }
    }
  }

  /** The thread alone moves, from `pc` to the end of its call. */
  ghost predicate Alone(s: seq<System>, acts: seq<Action>, id: nat, slot: nat, pc: PC) {
    && |s| == |acts| + 1
    && (forall i :: 0 <= i < |acts| ==> !acts[i].Call? && Step(s[i], s[i + 1], id, acts[i]))
    && id in s[0].threads && s[0].threads[id] == Thread(slot, pc)
    && id in s[|acts|].threads && s[|acts|].threads[id].pc.Done?
  }

  /** How such a call ends: the mutex free unless it was never asked for, and no other thread changed. */
  predicate Ended(s: System, end: System, id: nat, slot: nat, cache: Cache, result: Option<Pubkey>) {
    && id in end.threads && end.threads == s.threads[id := end.threads[id]] && end.threads[id].slot == slot
    && end.threads[id].pc.Done? && end.threads[id].pc.result == result && end.cache == cache
  }

  lemma FirstAlone(s: seq<System>, acts: seq<Action>, id: nat, slot: nat, pc: PC)
    requires Alone(s, acts, id, slot, pc) && !pc.Done?
    ensures |acts| > 0 && !acts[0].Call? && Step(s[0], s[1], id, acts[0]) && id in s[1].threads
    ensures s[1].threads[id].slot == slot && s[1].threads == s[0].threads[id := s[1].threads[id]]
    ensures Alone(s[1..], acts[1..], id, slot, s[1].threads[id].pc)
  {
    assert |acts| > 0;
    assert !acts[0].Call? && Step(s[0], s[1], id, acts[0]);
  }

  lemma DoneAlone(s: seq<System>, acts: seq<Action>, id: nat, slot: nat, pc: PC)
    requires Alone(s, acts, id, slot, pc) && pc.Done?
    ensures acts == []
  {
    assert |acts| > 0 ==> Step(s[0], s[1], id, acts[0]);
  }

  lemma EndedBefore(s: System, t: System, end: System, id: nat, slot: nat, cache: Cache, result: Option<Pubkey>)
    requires id in t.threads && t.threads == s.threads[id := t.threads[id]]
    requires Ended(t, end, id, slot, cache, result)
    ensures Ended(s, end, id, slot, cache, result)
  {
    UpdateTwice(s.threads, id, t.threads[id], end.threads[id]);
  }

  lemma AnswerAlone(s: seq<System>, acts: seq<Action>, id: nat, slot: nat, window: seq<Pubkey>, prior: Cache)
    requires Alone(s, acts, id, slot, ReadBack(window, prior))
    ensures acts == [Answer] && s[1].holder == None
    ensures Ended(s[0], s[1], id, slot, s[0].cache, Lookup(s[0].cache, slot))
  {
    FirstAlone(s, acts, id, slot, ReadBack(window, prior));
    DoneAlone(s[1..], acts[1..], id, slot, s[1].threads[id].pc);
    assert acts == [acts[0]] + acts[1..];
  }

  lemma WriteAlone(s: seq<System>, acts: seq<Action>, id: nat, slot: nat, window: seq<Pubkey>)
    requires Alone(s, acts, id, slot, Writing(window))
    ensures acts == [Write, Answer] && s[2].holder == None
    ensures var cache := Fill(s[0].cache, slot, window);
      Ended(s[0], s[2], id, slot, cache, Lookup(cache, slot))
  {
    FirstAlone(s, acts, id, slot, Writing(window));
    AnswerAlone(s[1..], acts[1..], id, slot, window, s[0].cache);
    EndedBefore(s[0], s[1], s[2], id, slot, s[1].cache, Lookup(s[1].cache, slot));
    assert acts == [acts[0]] + acts[1..];
  }

  /** What a fetch leads to: nothing changed and no answer, or the window filled in and read back. */
  predicate FetchEnds(s: System, end: System, acts: seq<Action>, id: nat, slot: nat) {
    && end.holder == None
    && if acts == [FetchErr] then Ended(s, end, id, slot, s.cache, None)
       else
         && |acts| == 3 && acts[0].FetchOk? && acts[1..] == [Write, Answer]
         && var cache := Fill(s.cache, slot, acts[0].window);
            Ended(s, end, id, slot, cache, Lookup(cache, slot))
  }

  lemma FetchAlone(s: seq<System>, acts: seq<Action>, id: nat, slot: nat)
    requires Alone(s, acts, id, slot, Fetching)
    ensures FetchEnds(s[0], s[|acts|], acts, id, slot)
  {
    FirstAlone(s, acts, id, slot, Fetching);
    assert acts == [acts[0]] + acts[1..];
    if acts[0].FetchErr? {
      DoneAlone(s[1..], acts[1..], id, slot, s[1].threads[id].pc);
    } else {
      var cache := Fill(s[0].cache, slot, acts[0].window);
      WriteAlone(s[1..], acts[1..], id, slot, acts[0].window);
      EndedBefore(s[0], s[1], s[3], id, slot, cache, Lookup(cache, slot));
    }
  }

  /** A call during which no other thread moves does what `Resolver.LeaderForSlot` does: a hit is answered at
      once, without the mutex; a miss locks, looks again and fetches, and a failed fetch changes nothing. */
  lemma CallAlone(s: seq<System>, acts: seq<Action>, id: nat, slot: nat)
    requires Alone(s, acts, id, slot, FirstRead)
    ensures var cache, end := s[0].cache, s[|acts|];
      if slot in cache then
        acts == [Read] && end.holder == s[0].holder && Ended(s[0], end, id, slot, cache, Some(cache[slot]))
      else
        |acts| > 3 && acts[..3] == [Read, Lock, ReadAgain] && FetchEnds(s[0], end, acts[3..], id, slot)
  {
    if slot in s[0].cache {
      FirstAlone(s, acts, id, slot, FirstRead);
      DoneAlone(s[1..], acts[1..], id, slot, s[1].threads[id].pc);
      assert acts == [acts[0]] + acts[1..];
    } else {
      MissAlone(s, acts, id, slot);
    }
  }

  lemma MissAlone(s: seq<System>, acts: seq<Action>, id: nat, slot: nat)
    requires Alone(s, acts, id, slot, FirstRead) && slot !in s[0].cache
    ensures |acts| > 3 && acts[..3] == [Read, Lock, ReadAgain]
    ensures FetchEnds(s[0], s[|acts|], acts[3..], id, slot)
  {
    FirstMissed(s, acts, id, slot);
    LockAlone(s[1..], acts[1..], id, slot);
    ReadThenLocked(acts);
    FetchEndsBefore(s[0], s[1], s[|acts|], acts[3..], id, slot);
  }

  lemma FirstMissed(s: seq<System>, acts: seq<Action>, id: nat, slot: nat)
    requires Alone(s, acts, id, slot, FirstRead) && slot !in s[0].cache
    ensures |acts| > 0 && acts[0] == Read && Alone(s[1..], acts[1..], id, slot, WaitForMutex)
    ensures s[1].cache == s[0].cache && s[1].threads == s[0].threads[id := s[1].threads[id]]
  {
    FirstAlone(s, acts, id, slot, FirstRead);
  }

  lemma ReadThenLocked(acts: seq<Action>)
    requires |acts| > 3 && acts[0] == Read && acts[1..][..2] == [Lock, ReadAgain]
    ensures acts[..3] == [Read, Lock, ReadAgain] && acts[1..][2..] == acts[3..]
  {
    assert acts[..3] == [acts[0]] + acts[1..][..2];
  }

  lemma FetchEndsBefore(s: System, t: System, end: System, acts: seq<Action>, id: nat, slot: nat)
    requires id in t.threads && t.threads == s.threads[id := t.threads[id]] && t.cache == s.cache
    requires FetchEnds(t, end, acts, id, slot)
    ensures FetchEnds(s, end, acts, id, slot)
  {
    if acts == [FetchErr] {
      EndedBefore(s, t, end, id, slot, s.cache, None);
    } else {
      var cache := Fill(s.cache, slot, acts[0].window);
      EndedBefore(s, t, end, id, slot, cache, Lookup(cache, slot));
    }
  }

  lemma LockAlone(s: seq<System>, acts: seq<Action>, id: nat, slot: nat)
    requires Alone(s, acts, id, slot, WaitForMutex) && slot !in s[0].cache
    ensures |acts| > 2 && acts[..2] == [Lock, ReadAgain] && FetchEnds(s[0], s[|acts|], acts[2..], id, slot)
  {
    FirstAlone(s, acts, id, slot, WaitForMutex);
    FirstAlone(s[1..], acts[1..], id, slot, Recheck);
    FetchAlone(s[2..], acts[2..], id, slot);
    FetchEndsBefore(s[1], s[2], s[|acts|], acts[2..], id, slot);
    FetchEndsBefore(s[0], s[1], s[|acts|], acts[2..], id, slot);
  }

  datatype Move = Move(id: nat, act: Action)

  /** A run: from the empty cache, each state follows by some thread's action, and every successful
      fetch answers from the schedule. */
  ghost predicate IsRun(schedule: Schedule, states: seq<System>, moves: seq<Move>) {
    && |states| == |moves| + 1 && states[0] == INITIAL
    && forall i :: 0 <= i < |moves| ==>
         && Step(states[i], states[i + 1], moves[i].id, moves[i].act)
         && (moves[i].act.FetchOk? ==> Honest(schedule, states[i].threads[moves[i].id].slot, moves[i].act.window))
  }

  lemma {:induction false} RunKeepsInv(schedule: Schedule, states: seq<System>, moves: seq<Move>, n: nat)
    requires IsRun(schedule, states, moves) && n < |states|
    ensures CacheInv(schedule, states[n])
  {
    if n > 0 {
      RunKeepsInv(schedule, states, moves, n - 1);
      StepKeepsInv(schedule, states[n - 1], states[n], moves[n - 1].id, moves[n - 1].act);
    }
  }

  /** At move `m` the thread wrote its window over the cache `prior`. */
  ghost predicate WroteAt(
    states: seq<System>, moves: seq<Move>, m: nat, id: nat, slot: nat, window: seq<Pubkey>, prior: Cache)
  {
    && m < |moves| <= |states| && moves[m] == Move(id, Write)
    && states[m].cache == prior
    && id in states[m].threads && states[m].threads[id] == Thread(slot, Writing(window))
  }

  predicate Remembers(th: Thread, slot: nat, window: seq<Pubkey>, prior: Cache) {
    && th.slot == slot
    && (th.pc == ReadBack(window, prior) || (th.pc.Done? && th.pc.source == AfterFetch(window, prior)))
  }

  lemma MemoryFrom(s: System, t: System, move: Move, id: nat, slot: nat, window: seq<Pubkey>, prior: Cache)
    requires Step(s, t, move.id, move.act)
    requires id in t.threads && Remembers(t.threads[id], slot, window, prior)
    ensures id in s.threads
    ensures if move == Move(id, Write) then s.cache == prior && s.threads[id] == Thread(slot, Writing(window))
            else Remembers(s.threads[id], slot, window, prior)
  {
  }

  /** What a thread remembers of its fetch is what the run did. */
  lemma {:induction false} FetchHappened(schedule: Schedule, states: seq<System>, moves: seq<Move>, n: nat, id: nat,
                                         slot: nat, window: seq<Pubkey>, prior: Cache) returns (m: nat)
    requires IsRun(schedule, states, moves) && n < |states| && id in states[n].threads
    requires Remembers(states[n].threads[id], slot, window, prior)
    ensures m < n && WroteAt(states, moves, m, id, slot, window, prior)
  {
    MemoryFrom(states[n - 1], states[n], moves[n - 1], id, slot, window, prior);
    if moves[n - 1] == Move(id, Write) {
      m := n - 1;
    } else {
      m := FetchHappened(schedule, states, moves, n - 1, id, slot, window, prior);
    }
  }

  /** The cache refines the schedule in every interleaving: no reader ever sees more entries than the
      bound or a wrong leader, every returned leader is the schedule's, and fetches and writes are
      serialized. After a successful fetch the answer is missing exactly when the response was empty or
      the slot was squeezed out of the cache that was there when the thread wrote. */
  lemma CacheRefinesSchedule(schedule: Schedule, states: seq<System>, moves: seq<Move>, n: nat, id: nat, other: nat)
    requires IsRun(schedule, states, moves) && n < |states|
    requires id in states[n].threads && other in states[n].threads
    ensures |states[n].cache| <= MAX_CACHE_ENTRIES && Agrees(states[n].cache, schedule)
    ensures Inside(states[n].threads[id].pc) && Inside(states[n].threads[other].pc) ==> id == other
    ensures var th := states[n].threads[id];
      th.pc.Done? ==>
        && (th.pc.result.Some? ==> th.pc.result.value == schedule(th.slot))
        && (th.pc.source.CacheHit? ==> th.pc.result.Some?)
        && (th.pc.source.FetchFailed? ==> th.pc.result.None?)
        && (th.pc.source.AfterFetch? ==>
              && (exists m: nat :: m < n &&
                    WroteAt(states, moves, m, id, th.slot, th.pc.source.window, th.pc.source.prior))
              && (th.pc.result == None <==>
                    th.pc.source.window == [] || Squeezed(th.pc.source.prior, th.slot, |th.pc.source.window|)))
  {
    RunKeepsInv(schedule, states, moves, n);
    var th := states[n].threads[id];
    assert ThreadInv(schedule, states[n].cache, th);
    if th.pc.Done? && th.pc.source.AfterFetch? {
      var m := FetchHappened(schedule, states, moves, n, id, th.slot, th.pc.source.window, th.pc.source.prior);
      FetchedNoneIff(th.pc.source.prior, schedule, th.slot, th.pc.source.window);
    }
  }

  // ---------------------------------------------------------------- a fetch that answers nothing

  function Last(states: seq<System>): System
    requires states != []
  {
    states[|states| - 1]
  }

  /** Every successful fetch of the run brings a full batch. */
  predicate FullBatches(moves: seq<Move>) {
    forall i :: 0 <= i < |moves| && moves[i].act.FetchOk? ==> |moves[i].act.window| == BATCH_SIZE
  }

  lemma ExtendRun(schedule: Schedule, states: seq<System>, moves: seq<Move>, t: System, act: Action)
    returns (states': seq<System>, moves': seq<Move>)
    requires IsRun(schedule, states, moves) && FullBatches(moves) && Step(Last(states), t, 0, act)
    requires act.FetchOk? ==> Honest(schedule, Last(states).threads[0].slot, act.window) && |act.window| == BATCH_SIZE
    ensures IsRun(schedule, states', moves') && FullBatches(moves') && Last(states') == t
  {
    states', moves' := states + [t], moves + [Move(0, act)];
    forall i | 0 <= i < |moves'|
      ensures Step(states'[i], states'[i + 1], moves'[i].id, moves'[i].act)
      ensures moves'[i].act.FetchOk? ==> Honest(schedule, states'[i].threads[moves'[i].id].slot, moves'[i].act.window)
    {
      assert states'[i] == states[i];
      if i < |moves| {
        assert states'[i + 1] == states[i + 1] && moves'[i] == moves[i];
      }
    }
  }

  /** Nobody is inside the mutex and thread 0 may call. */
  predicate Quiet(s: System) {
    s.holder == None && (0 !in s.threads || s.threads[0].pc.Done?)
  }

  /** Thread 0 moves on, the mutex then held by `holder`. */
  function At(s: System, holder: Option<nat>, slot: nat, pc: PC): System {
    System(s.cache, holder, s.threads[0 := Thread(slot, pc)])
  }

  /** A call that misses twice and is about to fetch. */
  lemma CallUntilFetch(schedule: Schedule, states: seq<System>, moves: seq<Move>, slot: nat)
    returns (states': seq<System>, moves': seq<Move>)
    requires IsRun(schedule, states, moves) && Quiet(Last(states)) && FullBatches(moves)
    requires slot !in Last(states).cache
    ensures IsRun(schedule, states', moves') && FullBatches(moves')
    ensures Last(states').cache == Last(states).cache && Last(states').holder == Some(0)
    ensures 0 in Last(states').threads && Last(states').threads[0] == Thread(slot, Fetching)
  {
    states', moves' := ExtendRun(schedule, states, moves, At(Last(states), None, slot, FirstRead), Call(slot));
    states', moves' := ExtendRun(schedule, states', moves', At(Last(states'), None, slot, WaitForMutex), Read);
    states', moves' := ExtendRun(schedule, states', moves', At(Last(states'), Some(0), slot, Recheck), Lock);
    states', moves' := ExtendRun(schedule, states', moves', At(Last(states'), Some(0), slot, Fetching), ReadAgain);
  }

  /** A whole call of `leader_for_slot` that misses, fetches and reads back. */
  lemma MissingCall(schedule: Schedule, states: seq<System>, moves: seq<Move>, slot: nat, window: seq<Pubkey>)
    returns (states': seq<System>, moves': seq<Move>)
    requires IsRun(schedule, states, moves) && Quiet(Last(states)) && FullBatches(moves)
    requires slot !in Last(states).cache && Honest(schedule, slot, window) && |window| == BATCH_SIZE
    ensures IsRun(schedule, states', moves') && FullBatches(moves') && Quiet(Last(states'))
    ensures var cache := Last(states).cache;
      && Last(states').cache == Fill(cache, slot, window)
      && 0 in Last(states').threads
      && Last(states').threads[0]
           == Thread(slot, Done(Lookup(Fill(cache, slot, window), slot), AfterFetch(window, cache)))
  {
    var cache := Last(states).cache;
    var filled := Fill(cache, slot, window);
    states', moves' := CallUntilFetch(schedule, states, moves, slot);
    var fetched := At(Last(states'), Some(0), slot, Writing(window));
    states', moves' := ExtendRun(schedule, states', moves', fetched, FetchOk(window));
    var written := Last(states').(cache := filled);
    states', moves' := ExtendRun(schedule, states', moves', At(written, Some(0), slot, ReadBack(window, cache)), Write);
    var result := Done(Lookup(filled, slot), AfterFetch(window, cache));
    states', moves' := ExtendRun(schedule, states', moves', At(Last(states'), None, slot, result), Answer);
  }

  function Batch(schedule: Schedule, start: nat): (w: seq<Pubkey>)
    requires start + BATCH_SIZE <= TWO_64
    ensures |w| == BATCH_SIZE && Honest(schedule, start, w)
  {
    seq(BATCH_SIZE, i requires 0 <= i < BATCH_SIZE => schedule(start + i))
  }

  lemma FillWithRoom(cache: Cache, start: nat, window: seq<Pubkey>)
    requires start + |window| <= TWO_64
    requires |cache.Keys + WindowSlots(start, |window|)| <= MAX_CACHE_ENTRIES
    ensures Fill(cache, start, window).Keys == cache.Keys + WindowSlots(start, |window|)
  {
    var full := Written(cache, start, window, |window|);
    WrittenKeys(cache, start, window, |window|);
    assert |full| == |full.Keys|;
    EvictionExact(full);
    assert Dropped(full) == {};
  }

  /** The cache is filled from slot 1 on, a batch a call. */
  lemma {:induction false} FilledByBatches(schedule: Schedule, n: nat) returns (states: seq<System>, moves: seq<Move>)
    requires n <= 100
    ensures IsRun(schedule, states, moves) && Quiet(Last(states)) && FullBatches(moves)
    ensures Last(states).cache.Keys == WindowSlots(1, n * BATCH_SIZE)
  {
    if n == 0 {
      states, moves := [INITIAL], [];
    } else {
      states, moves := FilledByBatches(schedule, n - 1);
      var cache, slot := Last(states).cache, 1 + (n - 1) * BATCH_SIZE;
      var window := Batch(schedule, slot);
      assert cache.Keys + WindowSlots(slot, BATCH_SIZE) == WindowSlots(1, n * BATCH_SIZE);
      WindowCount(1, n * BATCH_SIZE);
      FillWithRoom(cache, slot, window);
      states, moves := MissingCall(schedule, states, moves, slot, window);
    }
  }

  /** A run at which a successful fetch answers nothing: slots 1 to 100000 are cached a batch at a time, then
      slot 0 is asked for, its full batch arrives, and slot 0 is what gets evicted. */
  lemma FetchedYetUnanswered(schedule: Schedule) returns (states: seq<System>, moves: seq<Move>, prior: Cache)
    ensures IsRun(schedule, states, moves) && FullBatches(moves)
    ensures prior.Keys == WindowSlots(1, MAX_CACHE_ENTRIES)
    ensures 0 in Last(states).threads
    ensures Last(states).threads[0] == Thread(0, Done(None, AfterFetch(Batch(schedule, 0), prior)))
  {
    states, moves := FilledByBatches(schedule, 100);
    prior := Last(states).cache;
    RunKeepsInv(schedule, states, moves, |states| - 1);
    var window := Batch(schedule, 0);
    assert Below(prior, 0) == {};
    assert prior.Keys + WindowSlots(0, BATCH_SIZE) == WindowSlots(0, MAX_CACHE_ENTRIES + 1);
    WindowCount(0, MAX_CACHE_ENTRIES + 1);
    FetchedNoneIff(prior, schedule, 0, window);
    states, moves := MissingCall(schedule, states, moves, 0, window);
  }
}
