/** The all-or-nothing slot verifier over an attested delta. */
module Attest {
  import opened Common
  import opened ByteStrings
  import opened LtHash

  datatype Attestation = Attestation(
    slot: U64, fecSetIndex: U32, leaderPubkey: Key, fecMerkleRoot: Key, leaderSig: Bytes, deltaLthash: seq<U16>)

  datatype VerifyError =
    | EmptyTransition
    | MalformedDelta
    | DeltaMismatch(attested: Key, recomputed: Key)

  predicate IsEmpty(t: Transition) { t.before.None? && t.after.None? }

  ghost predicate HasEmpty(ts: seq<Transition>) { exists i :: 0 <= i < |ts| && IsEmpty(ts[i]) }

  lemma EmptyMember(ts: seq<Transition>)
    ensures HasEmpty(ts) <==> exists t :: t in ts && t.before == None && t.after == None
  {
    if HasEmpty(ts) {
      var i :| 0 <= i < |ts| && IsEmpty(ts[i]);
      assert ts[i] in ts;
    }
    if t :| t in ts && t.before == None && t.after == None {
      var i :| 0 <= i < |ts| && ts[i] == t;
      assert IsEmpty(ts[i]);
    }
  }

  /** Acceptance in terms of the claim alone: right limb count, no empty transition, and the
      attested vector is the sum of h(new) - h(old). */
  ghost predicate Accepts(xof: Xof, a: Attestation, ts: seq<Transition>) {
    && |a.deltaLthash| == N_LIMBS && !HasEmpty(ts)
    && a.deltaLthash == Delta(xof, ts)
  }

  ghost function Verdict(xof: Xof, blake: Bytes -> Key, a: Attestation, ts: seq<Transition>): Result<(), VerifyError> {
    if |a.deltaLthash| != N_LIMBS then Err(MalformedDelta)
    else if HasEmpty(ts) then Err(EmptyTransition)
    else if a.deltaLthash == Delta(xof, ts) then Ok(())
    else Err(DeltaMismatch(blake(Serialize(a.deltaLthash)), blake(Serialize(Delta(xof, ts)))))
  }

  /** The accumulation loop, stopping at the first empty transition. */
  method Recompute(xof: Xof, ts: seq<Transition>) returns (sum: Option<Vector>)
    ensures sum == if HasEmpty(ts) then None else Some(Delta(xof, ts))
  {
    var acc := new Accumulator();
    for i := 0 to |ts|
      invariant acc.Valid() && fresh(acc.limbs)
      invariant forall k :: 0 <= k < i ==> !IsEmpty(ts[k])
      invariant acc.Value() == Running(xof, ts, i)
    {
      if IsEmpty(ts[i]) {
        return None;
      }
      acc.MixTransition(xof, ts[i]);
    }
    sum := Some(acc.limbs[..]);
  }

  method ChecksumOf(blake: Bytes -> Key, v: Vector) returns (r: Key)
    ensures r == blake(Serialize(v))
  {
    var acc := new Accumulator();
    AddZero(v);
    acc.MixIn(v);
    r := acc.Checksum(blake);
  }

  /** `verify_slot_delta`. */
  method VerifySlotDelta(xof: Xof, blake: Bytes -> Key, a: Attestation, ts: seq<Transition>)
    returns (r: Result<(), VerifyError>)
    ensures r.Ok? <==> Accepts(xof, a, ts)
    ensures r == Err(MalformedDelta) <==> |a.deltaLthash| != 1024
    ensures r == Err(EmptyTransition) <==>
      |a.deltaLthash| == 1024 && exists t :: t in ts && t.before == None && t.after == None
    ensures r.Err? && r.error.DeltaMismatch? ==>
      && |a.deltaLthash| == 1024 && a.deltaLthash != Delta(xof, ts)
      && r.error.attested == blake(Serialize(a.deltaLthash))
      && r.error.recomputed == blake(Serialize(Delta(xof, ts)))
    ensures r == Verdict(xof, blake, a, ts)
  {
    if |a.deltaLthash| != N_LIMBS {
      return Err(MalformedDelta);
    }
    EmptyMember(ts);
    var recomputed := Recompute(xof, ts);
    if recomputed.None? {
      return Err(EmptyTransition);
    }
    if recomputed.value == a.deltaLthash {
      return Ok(());
    }
    var attested := ChecksumOf(blake, a.deltaLthash);
    var sum := ChecksumOf(blake, recomputed.value);
    return Err(DeltaMismatch(attested, sum));
  }

  /** The whole verdict, error and checksums included, is the same for every order of the list. */
  lemma VerdictPermutation(xof: Xof, blake: Bytes -> Key, a: Attestation, ts: seq<Transition>, us: seq<Transition>)
    requires multiset(ts) == multiset(us)
    ensures Verdict(xof, blake, a, ts) == Verdict(xof, blake, a, us)
  {
    DeltaPermutation(xof, ts, us);
    if HasEmpty(ts) {
      EmptyPermutation(ts, us);
    }
    if HasEmpty(us) {
      EmptyPermutation(us, ts);
    }
  }

  lemma EmptyPermutation(ts: seq<Transition>, us: seq<Transition>)
    requires multiset(ts) == multiset(us) && HasEmpty(ts)
    ensures HasEmpty(us)
  {
    var i :| 0 <= i < |ts| && IsEmpty(ts[i]);
    assert ts[i] in multiset(us);
    var j :| 0 <= j < |us| && us[j] == ts[i];
  }

  /** A delta built over transitions that are not empty is accepted with those transitions. */
  method AttestSlot(
    xof: Xof, slot: U64, fec: U32, leader: Key, root: Key, sig: Bytes, ts: seq<Transition>)
    returns (a: Attestation)
    ensures a.slot == slot && a.fecSetIndex == fec && a.leaderPubkey == leader
    ensures a.fecMerkleRoot == root && a.leaderSig == sig
    ensures Accepts(xof, a, ts) <==> !HasEmpty(ts)
  {
    var delta := BuildSlotDelta(xof, ts);
    a := Attestation(slot, fec, leader, root, sig, delta);
  }

  // ---------------------------------------------------------------- tampering

  lemma HasEmptySplit(xs: seq<Transition>, ys: seq<Transition>)
    ensures HasEmpty(xs + ys) <==> HasEmpty(xs) || HasEmpty(ys)
  {
    var s := xs + ys;
    if HasEmpty(xs) {
      var i :| 0 <= i < |xs| && IsEmpty(xs[i]);
      assert s[i] == xs[i];
    }
    if HasEmpty(ys) {
      var i :| 0 <= i < |ys| && IsEmpty(ys[i]);
      assert s[|xs| + i] == ys[i];
    }
  }

  lemma HasEmptyAround(xs: seq<Transition>, t: Transition, ys: seq<Transition>)
    ensures HasEmpty(xs + [t] + ys) <==> HasEmpty(xs + ys) || IsEmpty(t)
  {
    HasEmptySplit(xs + [t], ys);
    HasEmptySplit(xs, [t]);
    HasEmptySplit(xs, ys);
    assert IsEmpty([t][0]) <==> IsEmpty(t);
  }

  /** Replacing one transition keeps acceptance exactly when the contributions are equal. */
  lemma ReplaceSensitivity(
    xof: Xof, a: Attestation, xs: seq<Transition>, t: Transition, u: Transition, ys: seq<Transition>)
    requires Accepts(xof, a, xs + [t] + ys) && !IsEmpty(u)
    ensures Accepts(xof, a, xs + [u] + ys) <==> Contribution(xof, t) == Contribution(xof, u)
  {
    HasEmptyAround(xs, t, ys);
    HasEmptyAround(xs, u, ys);
    DeltaExtract(xof, xs, t, ys);
    DeltaExtract(xof, xs, u, ys);
    if Accepts(xof, a, xs + [u] + ys) {
      Cancel(Delta(xof, xs + ys), Contribution(xof, t), Contribution(xof, u));
    }
  }

  lemma ContributionShift(xof: Xof, d: Vector, t: Transition)
    ensures Add(d, Contribution(xof, t)) == d <==> Contribution(xof, t) == Zero()
  {
  }

  /** Leaving one transition out keeps acceptance exactly when it contributes nothing. */
  lemma DropSensitivity(xof: Xof, a: Attestation, xs: seq<Transition>, t: Transition, ys: seq<Transition>)
    requires Accepts(xof, a, xs + [t] + ys)
    ensures Accepts(xof, a, xs + ys) <==> Contribution(xof, t) == Zero()
  {
    HasEmptyAround(xs, t, ys);
    DeltaExtract(xof, xs, t, ys);
    ContributionShift(xof, Delta(xof, xs + ys), t);
  }

  /** Adding one transition keeps acceptance exactly when it contributes nothing. */
  lemma AddSensitivity(xof: Xof, a: Attestation, xs: seq<Transition>, t: Transition, ys: seq<Transition>)
    requires Accepts(xof, a, xs + ys) && !IsEmpty(t)
    ensures Accepts(xof, a, xs + [t] + ys) <==> Contribution(xof, t) == Zero()
  {
    HasEmptyAround(xs, t, ys);
    DeltaExtract(xof, xs, t, ys);
    ContributionShift(xof, Delta(xof, xs + ys), t);
  }

  /** When the dropped or added transition goes unnoticed, in terms of its two sides. */
  lemma SilentTransition(xof: Xof, t: Transition)
    ensures Contribution(xof, t) == Zero() <==> Side(xof, t.after) == Side(xof, t.before)
  {
  }

  // ---------------------------------------------------------------- what going unnoticed takes

  /** The hash broken at two sides that differ: the canonical strings of their accounts have one output, or
      that of the only live one has the output that is all zero. */
  predicate HashBreak(xof: Xof, a: Option<Account>, b: Option<Account>) {
    match (Live(a), Live(b))
    case (None, None) => false
    case (Some(x), None) => xof(Canonical(x)) == Serialize(Zero())
    case (None, Some(y)) => xof(Canonical(y)) == Serialize(Zero())
    case (Some(x), Some(y)) => Canonical(x) != Canonical(y) && xof(Canonical(x)) == xof(Canonical(y))
  }

  lemma OutputsAlike(x: XofBytes, y: XofBytes)
    ensures DecodeLimbs(x) == DecodeLimbs(y) <==> x == y
    ensures DecodeLimbs(x) == Zero() <==> x == Serialize(Zero())
  {
    LimbRoundTrip(x, Zero());
    LimbRoundTrip(y, Zero());
  }

  /** Two sides hash alike exactly when they hold the same live account or the hash is broken at them. */
  lemma SidesAlike(xof: Xof, a: Option<Account>, b: Option<Account>)
    ensures Side(xof, a) == Side(xof, b) <==> Live(a) == Live(b) || HashBreak(xof, a, b)
  {
    match (Live(a), Live(b)) {
      case (None, None) =>
      case (Some(x), None) =>
        OutputsAlike(xof(Canonical(x)), Serialize(Zero()));
      case (None, Some(y)) =>
        OutputsAlike(xof(Canonical(y)), Serialize(Zero()));
      case (Some(x), Some(y)) =>
        OutputsAlike(xof(Canonical(x)), xof(Canonical(y)));
        if Canonical(x) == Canonical(y) {
          CanonicalInjective(x, y);
        }
    }
  }

  /** A transition left out of an accepted list goes unnoticed exactly when it changes no live account or the
      hash is broken at its two sides. */
  lemma UnnoticedTransition(xof: Xof, a: Attestation, xs: seq<Transition>, t: Transition, ys: seq<Transition>)
    requires Accepts(xof, a, xs + [t] + ys)
    ensures Accepts(xof, a, xs + ys) <==> Live(t.before) == Live(t.after) || HashBreak(xof, t.after, t.before)
  {
    DropSensitivity(xof, a, xs, t, ys);
    SilentTransition(xof, t);
    SidesAlike(xof, t.after, t.before);
  }

  /** And so does one added to it. */
  lemma UnnoticedAddition(xof: Xof, a: Attestation, xs: seq<Transition>, t: Transition, ys: seq<Transition>)
    requires Accepts(xof, a, xs + ys) && !IsEmpty(t)
    ensures Accepts(xof, a, xs + [t] + ys) <==>
      Live(t.before) == Live(t.after) || HashBreak(xof, t.after, t.before)
  {
    AddSensitivity(xof, a, xs, t, ys);
    SilentTransition(xof, t);
    SidesAlike(xof, t.after, t.before);
  }

  lemma DifferencesEqual(a: Vector, b: Vector, c: Vector, d: Vector)
    ensures Sub(a, b) == Sub(c, d) <==> Add(a, d) == Add(c, b)
  {
    if Sub(a, b) == Sub(c, d) {
      forall i | 0 <= i < N_LIMBS
        ensures Add(a, d)[i] == Add(c, b)[i]
      {
        assert Sub(a, b)[i] == Sub(c, d)[i];
        LimbDifferences(a[i], b[i], c[i], d[i]);
      }
    }
    if Add(a, d) == Add(c, b) {
      forall i | 0 <= i < N_LIMBS
        ensures Sub(a, b)[i] == Sub(c, d)[i]
      {
        assert Add(a, d)[i] == Add(c, b)[i];
        LimbDifferences(a[i], b[i], c[i], d[i]);
      }
    }
  }

  lemma LimbDifferences(a: U16, b: U16, c: U16, d: U16)
    ensures SubLimb(a, b) == SubLimb(c, d) <==> AddLimb(a, d) == AddLimb(c, b)
  {
  }

  /** A transition replaced in an accepted list goes unnoticed exactly when h(new) + h(old') = h(new') + h(old);
      if one side is kept, as when a single account state is tampered with, exactly when the other side holds
      the same live account or the hash is broken at the two states. */
  lemma UnnoticedReplacement(
    xof: Xof, a: Attestation, xs: seq<Transition>, t: Transition, u: Transition, ys: seq<Transition>)
    requires Accepts(xof, a, xs + [t] + ys) && !IsEmpty(u)
    ensures Accepts(xof, a, xs + [u] + ys) <==>
      Add(Side(xof, t.after), Side(xof, u.before)) == Add(Side(xof, u.after), Side(xof, t.before))
    ensures t.before == u.before ==>
      (Accepts(xof, a, xs + [u] + ys) <==> Live(t.after) == Live(u.after) || HashBreak(xof, t.after, u.after))
    ensures t.after == u.after ==>
      (Accepts(xof, a, xs + [u] + ys) <==> Live(t.before) == Live(u.before) || HashBreak(xof, u.before, t.before))
  {
    ReplaceSensitivity(xof, a, xs, t, u, ys);
    DifferencesEqual(Side(xof, t.after), Side(xof, t.before), Side(xof, u.after), Side(xof, u.before));
    if t.before == u.before {
      CancelRight(Side(xof, t.after), Side(xof, u.after), Side(xof, t.before));
      SidesAlike(xof, t.after, u.after);
    }
    if t.after == u.after {
      CancelLeft(Side(xof, t.after), Side(xof, u.before), Side(xof, t.before));
      SidesAlike(xof, u.before, t.before);
    }
  }

  lemma CancelLeft(a: Vector, b: Vector, c: Vector)
    ensures Add(a, b) == Add(a, c) <==> b == c
  {
    if Add(a, b) == Add(a, c) {
      Cancel(a, b, c);
    }
  }

  lemma CancelRight(a: Vector, b: Vector, c: Vector)
    ensures Add(a, c) == Add(b, c) <==> a == b
  {
    AddCommutes(a, c);
    AddCommutes(b, c);
    CancelLeft(c, a, b);
  }

  /** The documented claim that any missing transition is noticed fails: closing an account that
      holds no lamports contributes nothing, so the list with it and the list without it are both accepted. */
  lemma MissingTransitionUnnoticed(xof: Xof, a: Attestation, dead: Account)
    requires dead.lamports == 0 && a.deltaLthash == Zero()
    ensures Accepts(xof, a, [Transition(Some(dead), None)]) && Accepts(xof, a, [])
  {
    var t := Transition(Some(dead), None);
    SilentTransition(xof, t);
    DeltaSingle(xof, t);
  }
}
