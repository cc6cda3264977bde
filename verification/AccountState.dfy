/** State-level homomorphism: the incremental slot delta agrees with a full recomputation over the
    account map. */
module AccountState {
  import opened Common
  import opened LtHash

  type Accounts = map<Key, Account>

  ghost function Pick(m: Accounts): (k: Key)
    requires m != map[]
    ensures k in m
  {
    var k :| k in m; k
  }

  /** The full sum over every account, taken in an arbitrary order. */
  ghost function Total(xof: Xof, m: Accounts): Vector
    decreases |m.Keys|
  {
    if m == map[] then Zero()
    else Add(Total(xof, m - {Pick(m)}), AccountHash(xof, m[Pick(m)]))
  }

  lemma RemoveTwo(m: Accounts, j: Key, k: Key)
    requires j in m && k in m && j != k
    ensures m - {j} - {k} == m - {k} - {j}
    ensures k in m - {j} && j in m - {k} && (m - {j})[k] == m[k] && (m - {k})[j] == m[j]
    ensures |(m - {j}).Keys| < |m.Keys| && |(m - {k}).Keys| < |m.Keys|
  {
  }

  lemma SwapLast(rest: Vector, x: Vector, y: Vector)
    ensures Add(Add(rest, x), y) == Add(Add(rest, y), x)
  {
    AddAssociates(rest, x, y);
    AddCommutes(x, y);
    AddAssociates(rest, y, x);
  }

  /** The order does not matter: any account may be split off. */
  lemma {:induction false} TotalSplit(xof: Xof, m: Accounts, k: Key)
    requires k in m
    ensures Total(xof, m) == Add(Total(xof, m - {k}), AccountHash(xof, m[k]))
    decreases |m.Keys|
  {
    var j := Pick(m);
    assert Total(xof, m) == Add(Total(xof, m - {j}), AccountHash(xof, m[j]));
    if j != k {
      RemoveTwo(m, j, k);
      TotalSplit(xof, m - {j}, k);
      TotalSplit(xof, m - {k}, j);
      SwapLast(Total(xof, m - {j} - {k}), AccountHash(xof, m[k]), AccountHash(xof, m[j]));
    }
  }

  function Entry(m: Accounts, k: Key): Option<Account> {
    if k in m then Some(m[k]) else None
  }

  lemma LiveSide(xof: Xof, a: Option<Account>)
    ensures Side(xof, Live(a)) == Side(xof, a)
  {
  }

  lemma TotalRemove(xof: Xof, m: Accounts, k: Key)
    ensures Total(xof, m - {k}) == Sub(Total(xof, m), Side(xof, Entry(m, k)))
  {
    if k in m {
      TotalSplit(xof, m, k);
      MixInverse(Total(xof, m - {k}), AccountHash(xof, m[k]));
    } else {
      assert m - {k} == m;
      AddZero(Total(xof, m));
    }
  }

  lemma TotalInsert(xof: Xof, m: Accounts, a: Account)
    requires Live(Entry(m, a.pubkey)) == None
    ensures Total(xof, m[a.pubkey := a]) == Add(Total(xof, m), AccountHash(xof, a))
  {
    var k := a.pubkey;
    TotalSplit(xof, m[k := a], k);
    assert m[k := a] - {k} == m - {k};
    TotalRemove(xof, m, k);
    AddZero(Total(xof, m));
  }

  /** The claimed old side is what the state holds (up to tombstones), and a created account is new. */
  ghost predicate Matches(m: Accounts, t: Transition) {
    && (t.before.Some? ==> Live(Entry(m, t.before.value.pubkey)) == Live(t.before))
    && (t.after.Some? ==>
          || (t.before.Some? && t.before.value.pubkey == t.after.value.pubkey)
          || Live(Entry(m, t.after.value.pubkey)) == None)
  }

  function Apply(m: Accounts, t: Transition): Accounts {
    var removed := if t.before.Some? then m - {t.before.value.pubkey} else m;
    if t.after.Some? then removed[t.after.value.pubkey := t.after.value] else removed
  }

  function ApplyAll(m: Accounts, ts: seq<Transition>): Accounts {
    if ts == [] then m else Apply(ApplyAll(m, ts[..|ts| - 1]), ts[|ts| - 1])
  }

  ghost predicate Consistent(m: Accounts, ts: seq<Transition>) {
    forall n :: 0 <= n < |ts| ==> Matches(ApplyAll(m, ts[..n]), ts[n])
  }

  lemma ApplyShiftsTotal(xof: Xof, m: Accounts, t: Transition)
    requires Matches(m, t)
    ensures Total(xof, Apply(m, t)) == Add(Total(xof, m), Contribution(xof, t))
  {
    var total := Total(xof, m);
    var removed := if t.before.Some? then m - {t.before.value.pubkey} else m;
    AddZero(total);
    if t.before.Some? {
      var k := t.before.value.pubkey;
      TotalRemove(xof, m, k);
      LiveSide(xof, Entry(m, k));
      LiveSide(xof, t.before);
    }
    assert Total(xof, removed) == Sub(total, Side(xof, t.before));
    if t.after.Some? {
      TotalInsert(xof, removed, t.after.value);
    } else {
      AddZero(Total(xof, removed));
    }
    MixAddsDifference(total, Side(xof, t.before), Side(xof, t.after));
  }

  lemma ConsistentHead(m: Accounts, head: seq<Transition>, t: Transition)
    requires Consistent(m, head + [t])
    ensures Consistent(m, head) && Matches(ApplyAll(m, head), t)
    ensures ApplyAll(m, head + [t]) == Apply(ApplyAll(m, head), t)
  {
    var ts := head + [t];
    assert ts[..|head|] == head;
    forall i | 0 <= i < |head|
      ensures Matches(ApplyAll(m, head[..i]), head[i])
    {
      assert head[..i] == ts[..i];
      assert Matches(ApplyAll(m, ts[..i]), ts[i]);
    }
  }

  /** Recomputing the whole state after a slot gives the sum before plus the slot delta. */
  lemma {:induction false} StateHomomorphism(xof: Xof, m: Accounts, ts: seq<Transition>)
    requires Consistent(m, ts)
    ensures Total(xof, ApplyAll(m, ts)) == Add(Total(xof, m), Delta(xof, ts))
  {
    if ts == [] {
      AddZero(Total(xof, m));
    } else {
      var head, t := ts[..|ts| - 1], ts[|ts| - 1];
      assert ts == head + [t];
      ConsistentHead(m, head, t);
      StateHomomorphism(xof, m, head);
      ApplyShiftsTotal(xof, ApplyAll(m, head), t);
      DeltaSnoc(xof, head, t);
      AddAssociates(Total(xof, m), Delta(xof, head), Contribution(xof, t));
    }
  }

  // ---------------------------------------------------------------- rollup

  function Joined(slots: seq<seq<Transition>>): seq<Transition> {
    if slots == [] then [] else Joined(slots[..|slots| - 1]) + slots[|slots| - 1]
  }

  function DeltaSum(xof: Xof, slots: seq<seq<Transition>>): Vector {
    if slots == [] then Zero() else Add(DeltaSum(xof, slots[..|slots| - 1]), Delta(xof, slots[|slots| - 1]))
  }

  lemma {:induction false} DeltaSumIsJoined(xof: Xof, slots: seq<seq<Transition>>)
    ensures DeltaSum(xof, slots) == Delta(xof, Joined(slots))
  {
    if slots != [] {
      var n := |slots| - 1;
      DeltaSumIsJoined(xof, slots[..n]);
      DeltaAppend(xof, Joined(slots[..n]), slots[n]);
    }
  }

  /** One vector, the sum of any number of consecutive slot deltas, carries the state across all of them. */
  lemma RollupCheckpoint(xof: Xof, m: Accounts, slots: seq<seq<Transition>>)
    requires Consistent(m, Joined(slots))
    ensures Total(xof, ApplyAll(m, Joined(slots))) == Add(Total(xof, m), DeltaSum(xof, slots))
  {
    StateHomomorphism(xof, m, Joined(slots));
    DeltaSumIsJoined(xof, slots);
  }
}
