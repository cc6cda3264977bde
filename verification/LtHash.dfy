/** The lattice hash of account state: vectors of 1024 limbs modulo 2^16, mixed in and out in place.
    Blake3 and its XOF are arbitrary functions. */
module LtHash {
  import opened Common
  import opened ByteStrings

  const N_LIMBS: nat := 1024
  const MODULUS: nat := 0x1_0000

  type Vector = v: seq<U16> | |v| == N_LIMBS witness seq<U16>(1024, i => 0)
  type Key = k: Bytes | |k| == 32 witness Zeros(32)
  type XofBytes = b: Bytes | |b| == 2048 witness Zeros(2048)
  type Xof = Bytes -> XofBytes

  // ---------------------------------------------------------------- the group

  function Zero(): Vector { seq<U16>(N_LIMBS, i => 0) }

  function AddLimb(x: U16, y: U16): U16 { (x + y) % MODULUS }

  function SubLimb(x: U16, y: U16): U16 { (x - y) % MODULUS }

  function Add(a: Vector, b: Vector): (r: Vector)
    ensures forall i :: 0 <= i < N_LIMBS ==> r[i] == AddLimb(a[i], b[i])
  {
    seq<U16>(N_LIMBS, i requires 0 <= i < N_LIMBS => AddLimb(a[i], b[i]))
  }

  function Sub(a: Vector, b: Vector): (r: Vector)
    ensures forall i :: 0 <= i < N_LIMBS ==> r[i] == SubLimb(a[i], b[i])
  {
    seq<U16>(N_LIMBS, i requires 0 <= i < N_LIMBS => SubLimb(a[i], b[i]))
  }

  lemma AddCommutes(a: Vector, b: Vector)
    ensures Add(a, b) == Add(b, a)
  {
  }

  lemma LimbAssociates(x: U16, y: U16, z: U16)
    ensures AddLimb(AddLimb(x, y), z) == AddLimb(x, AddLimb(y, z))
  {
  }

  lemma AddAssociates(a: Vector, b: Vector, c: Vector)
    ensures Add(Add(a, b), c) == Add(a, Add(b, c))
  {
    forall i | 0 <= i < N_LIMBS
      ensures Add(Add(a, b), c)[i] == Add(a, Add(b, c))[i]
    {
      LimbAssociates(a[i], b[i], c[i]);
    }
  }

  lemma AddZero(a: Vector)
    ensures Add(a, Zero()) == a && Add(Zero(), a) == a && Sub(a, Zero()) == a && Sub(a, a) == Zero()
  {
  }

  lemma LimbMix(x: U16, o: U16, n: U16)
    ensures AddLimb(SubLimb(x, o), n) == AddLimb(x, SubLimb(n, o))
  {
  }

  /** Mixing out then in adds the difference. */
  lemma MixAddsDifference(acc: Vector, o: Vector, n: Vector)
    ensures Add(Sub(acc, o), n) == Add(acc, Sub(n, o))
  {
    forall i | 0 <= i < N_LIMBS
      ensures Add(Sub(acc, o), n)[i] == Add(acc, Sub(n, o))[i]
    {
      LimbMix(acc[i], o[i], n[i]);
    }
  }

  lemma LimbCancel(x: U16, y: U16, z: U16)
    ensures AddLimb(x, y) == AddLimb(x, z) ==> y == z
    ensures SubLimb(AddLimb(x, y), y) == x && AddLimb(SubLimb(x, y), y) == x
  {
  }

  lemma Cancel(a: Vector, b: Vector, c: Vector)
    requires Add(a, b) == Add(a, c)
    ensures b == c
  {
    forall i | 0 <= i < N_LIMBS
      ensures b[i] == c[i]
    {
      assert Add(a, b)[i] == Add(a, c)[i];
      LimbCancel(a[i], b[i], c[i]);
    }
  }

  /** `mix_out` undoes `mix_in` and the other way round. */
  lemma MixInverse(a: Vector, b: Vector)
    ensures Sub(Add(a, b), b) == a && Add(Sub(a, b), b) == a
  {
    forall i | 0 <= i < N_LIMBS
      ensures Sub(Add(a, b), b)[i] == a[i] && Add(Sub(a, b), b)[i] == a[i]
    {
      LimbCancel(a[i], b[i], b[i]);
    }
  }

  // ---------------------------------------------------------------- serialization

  function Serialize(v: Vector): XofBytes {
    seq<Byte>(2048, k requires 0 <= k < 2048 => if k % 2 == 0 then v[k / 2] % 256 else v[k / 2] / 256)
  }

  /** `u16::from_le_bytes`. */
  function LimbFrom(lo: Byte, hi: Byte): U16 { (lo as int) + 256 * (hi as int) }

  function DecodeLimbs(b: XofBytes): (v: Vector)
    ensures forall i :: 0 <= i < N_LIMBS ==> v[i] == LimbFrom(b[2 * i], b[2 * i + 1])
  {
    seq<U16>(N_LIMBS, i requires 0 <= i < N_LIMBS => LimbFrom(b[2 * i], b[2 * i + 1]))
  }

  /** Limb decoding and checksum serialization are inverse. */
  lemma LimbRoundTrip(b: XofBytes, v: Vector)
    ensures Serialize(DecodeLimbs(b)) == b
    ensures DecodeLimbs(Serialize(v)) == v
  {
    forall k | 0 <= k < 2048
      ensures Serialize(DecodeLimbs(b))[k] == b[k]
    {
      var i := k / 2;
      assert DecodeLimbs(b)[i] == LimbFrom(b[2 * i], b[2 * i + 1]);
      assert k == 2 * i || k == 2 * i + 1;
    }
    forall i | 0 <= i < N_LIMBS
      ensures DecodeLimbs(Serialize(v))[i] == v[i]
    {
      assert Serialize(v)[2 * i] == v[i] % 256 && Serialize(v)[2 * i + 1] == v[i] / 256;
    }
  }

  // ---------------------------------------------------------------- accounts

  datatype Account = Account(lamports: U64, data: Bytes, executable: bool, owner: Key, pubkey: Key)

  /** lamports (8, little endian), data, executable (1), owner (32), pubkey (32). */
  function Canonical(a: Account): Bytes {
    ToLE(a.lamports, 8) + a.data + [if a.executable then 1 else 0] + a.owner + a.pubkey
  }

  /** Where each field lies, counting the fixed tail from the end. */
  lemma CanonicalParts(a: Account)
    ensures var s := Canonical(a);
      var n := |s|;
      && n == |a.data| + 73
      && s[..8] == ToLE(a.lamports, 8) && s[8..n - 65] == a.data
      && s[n - 65] == (if a.executable then 1 else 0)
      && s[n - 64..n - 32] == a.owner && s[n - 32..] == a.pubkey
  {
    var s := Canonical(a);
    var fixed := [if a.executable then 1 else 0] + a.owner + a.pubkey;
    assert s == ToLE(a.lamports, 8) + a.data + fixed;
    assert s[|s| - 65..] == fixed;
  }

  /** Only the data has variable length, so the concatenation determines the account. */
  lemma CanonicalInjective(a: Account, b: Account)
    requires Canonical(a) == Canonical(b)
    ensures a == b
  {
    CanonicalParts(a);
    CanonicalParts(b);
    Pow256Values();
    DecodeEncode(a.lamports, 8);
    DecodeEncode(b.lamports, 8);
  }

  /** An account with no lamports counts as absent. */
  function Live(a: Option<Account>): Option<Account> {
    if a.Some? && a.value.lamports == 0 then None else a
  }

  function AccountHash(xof: Xof, a: Account): Vector {
    if a.lamports == 0 then Zero() else DecodeLimbs(xof(Canonical(a)))
  }

  /** Limb `i` is two bytes of the string, the low-order byte first. */
  predicate ReadsAs(out: XofBytes, v: Vector) {
    forall i :: 0 <= i < 1024 ==> v[i] as int == out[2 * i] as int + 256 * (out[2 * i + 1] as int)
  }

  /** Serializing is reading backwards: the one string that reads as the vector. */
  lemma SerializeReads(out: XofBytes, v: Vector)
    ensures ReadsAs(out, v) <==> out == Serialize(v)
  {
    LimbRoundTrip(out, v);
    ReadsAsDecoded(out, v);
  }

  lemma ReadsAsDecoded(out: XofBytes, v: Vector)
    ensures ReadsAs(out, v) <==> DecodeLimbs(out) == v
  {
    var w := DecodeLimbs(out);
    forall i | 0 <= i < 1024
      ensures w[i] as int == out[2 * i] as int + 256 * (out[2 * i + 1] as int)
    {
      assert w[i] == LimbFrom(out[2 * i], out[2 * i + 1]);
    }
    if ReadsAs(out, v) {
      assert forall i :: 0 <= i < 1024 ==> w[i] == v[i];
    }
  }

  /** `hash_account`. */
  method HashAccount(xof: Xof, a: Account) returns (v: Vector)
    ensures v == AccountHash(xof, a)
    ensures a.lamports == 0 ==> forall i :: 0 <= i < 1024 ==> v[i] == 0
    ensures a.lamports != 0 ==>
      ReadsAs(xof(ToLE(a.lamports, 8) + a.data + [if a.executable then 1 else 0] + a.owner + a.pubkey), v)
  {
    if a.lamports == 0 {
      return Zero();
    }
    var bytes := xof(Canonical(a));
    var limbs := new U16[N_LIMBS](i => 0);
    for i := 0 to N_LIMBS
      invariant forall k :: 0 <= k < i ==> limbs[k] == DecodeLimbs(bytes)[k]
    {
      limbs[i] := LimbFrom(bytes[2 * i], bytes[2 * i + 1]);
    }
    v := limbs[..];
  }

  // ---------------------------------------------------------------- accumulators

  /** `LtHash`: a limb array rewritten in place. */
  class Accumulator {
    const limbs: array<U16>

    ghost predicate Valid() { limbs.Length == N_LIMBS }

    ghost function Value(): Vector
      requires Valid()
      reads limbs
    {
      limbs[..]
    }

    /** The identity. */
    constructor ()
      ensures Valid() && fresh(limbs) && Value() == Zero()
    {
      limbs := new U16[N_LIMBS](i => 0);
    }

    method MixIn(other: Vector)
      requires Valid()
      modifies limbs
      ensures Value() == Add(old(Value()), other)
      ensures forall i :: 0 <= i < 1024 ==> limbs[i] as int == (old(limbs[i]) as int + other[i] as int) % 0x1_0000
    {
      for i := 0 to N_LIMBS
        invariant forall k :: 0 <= k < i ==> limbs[k] == AddLimb(old(limbs[k]), other[k])
        invariant forall k :: i <= k < N_LIMBS ==> limbs[k] == old(limbs[k])
      {
        limbs[i] := (limbs[i] + other[i]) % MODULUS;
      }
    }

    method MixOut(other: Vector)
      requires Valid()
      modifies limbs
      ensures Value() == Sub(old(Value()), other)
      ensures forall i :: 0 <= i < 1024 ==> limbs[i] as int == (old(limbs[i]) as int - other[i] as int) % 0x1_0000
    {
      for i := 0 to N_LIMBS
        invariant forall k :: 0 <= k < i ==> limbs[k] == SubLimb(old(limbs[k]), other[k])
        invariant forall k :: i <= k < N_LIMBS ==> limbs[k] == old(limbs[k])
      {
        limbs[i] := (limbs[i] - other[i]) % MODULUS;
      }
    }

    /** The 32-byte commitment, over the serialized limbs. */
    method Checksum(blake: Bytes -> Key) returns (r: Key)
      requires Valid()
      ensures r == blake(Serialize(Value()))
      ensures exists out: XofBytes :: r == blake(out) && ReadsAs(out, limbs[..])
    {
      var bytes := new Byte[2048](i => 0);
      for i := 0 to N_LIMBS
        invariant forall k :: 0 <= k < 2 * i ==> bytes[k] == Serialize(Value())[k]
      {
        bytes[2 * i] := limbs[i] % 256;
        bytes[2 * i + 1] := limbs[i] / 256;
      }
      assert bytes[..] == Serialize(Value());
      SerializeReads(bytes[..], Value());
      r := blake(bytes[..]);
    }

    /** One transition, as both `SlotDelta::mix` and the slot verifier apply it. */
    method MixTransition(xof: Xof, t: Transition)
      requires Valid()
      modifies limbs
      ensures Value() == Add(old(Value()), Contribution(xof, t))
    {
      ghost var start := Value();
      AddZero(start);
      MixAddsDifference(start, Side(xof, t.before), Side(xof, t.after));
      if t.before.Some? {
        var h := HashAccount(xof, t.before.value);
        MixOut(h);
      }
      assert Value() == Sub(start, Side(xof, t.before));
      AddZero(Value());
      if t.after.Some? {
        var h := HashAccount(xof, t.after.value);
        MixIn(h);
      }
    }
  }

  datatype Transition = Transition(before: Option<Account>, after: Option<Account>)

  function Side(xof: Xof, a: Option<Account>): Vector {
    if a.None? then Zero() else AccountHash(xof, a.value)
  }

  /** h(new) - h(old), an absent side contributing the identity. */
  function Contribution(xof: Xof, t: Transition): Vector {
    Sub(Side(xof, t.after), Side(xof, t.before))
  }

  /** The running sum after `n` transitions. */
  function Running(xof: Xof, ts: seq<Transition>, n: nat): Vector
    requires n <= |ts|
  {
    if n == 0 then Zero() else Add(Running(xof, ts, n - 1), Contribution(xof, ts[n - 1]))
  }

  /** The sum of h(new) - h(old) over the list. */
  function Delta(xof: Xof, ts: seq<Transition>): Vector { Running(xof, ts, |ts|) }

  lemma {:induction false} RunningPrefix(xof: Xof, ts: seq<Transition>, us: seq<Transition>, n: nat)
    requires n <= |ts| && n <= |us| && forall i :: 0 <= i < n ==> ts[i] == us[i]
    ensures Running(xof, ts, n) == Running(xof, us, n)
  {
    if n > 0 {
      RunningPrefix(xof, ts, us, n - 1);
    }
  }

  lemma DeltaSnoc(xof: Xof, ts: seq<Transition>, t: Transition)
    ensures Delta(xof, ts + [t]) == Add(Delta(xof, ts), Contribution(xof, t))
  {
    RunningPrefix(xof, ts + [t], ts, |ts|);
  }

  /** `SlotDelta`: feed every transition of a slot. */
  method BuildSlotDelta(xof: Xof, ts: seq<Transition>) returns (delta: Vector)
    ensures delta == Delta(xof, ts)
  {
    var acc := new Accumulator();
    for i := 0 to |ts|
      invariant acc.Valid() && fresh(acc.limbs)
      invariant acc.Value() == Running(xof, ts, i)
    {
      acc.MixTransition(xof, ts[i]);
    }
    delta := acc.limbs[..];
  }

  lemma {:induction false} DeltaAppend(xof: Xof, ts: seq<Transition>, us: seq<Transition>)
    ensures Delta(xof, ts + us) == Add(Delta(xof, ts), Delta(xof, us))
    decreases |us|
  {
    if us == [] {
      AddZero(Delta(xof, ts));
      assert ts + us == ts;
    } else {
      var head, t := us[..|us| - 1], us[|us| - 1];
      assert us == head + [t] && ts + us == (ts + head) + [t];
      DeltaAppend(xof, ts, head);
      DeltaSnoc(xof, head, t);
      DeltaSnoc(xof, ts + head, t);
      AddAssociates(Delta(xof, ts), Delta(xof, head), Contribution(xof, t));
    }
  }

  lemma DeltaSingle(xof: Xof, t: Transition)
    ensures Delta(xof, [t]) == Contribution(xof, t)
  {
    AddZero(Contribution(xof, t));
    assert [] + [t] == [t];
    DeltaSnoc(xof, [], t);
  }

  /** A transition may be taken out of its place in the list. */
  lemma DeltaExtract(xof: Xof, xs: seq<Transition>, t: Transition, ys: seq<Transition>)
    ensures Delta(xof, xs + [t] + ys) == Add(Delta(xof, xs + ys), Contribution(xof, t))
  {
    var dx, dy, ct := Delta(xof, xs), Delta(xof, ys), Contribution(xof, t);
    DeltaAppend(xof, xs + [t], ys);
    DeltaAppend(xof, xs, [t]);
    DeltaAppend(xof, xs, ys);
    DeltaSingle(xof, t);
    AddAssociates(dx, ct, dy);
    AddCommutes(ct, dy);
    AddAssociates(dx, dy, ct);
  }

  /** The last element of one list, found and taken out of a permutation of it. */
  lemma FindLast(ts: seq<Transition>, us: seq<Transition>) returns (xs: seq<Transition>, ys: seq<Transition>)
    requires multiset(ts) == multiset(us) && ts != []
    ensures us == xs + [ts[|ts| - 1]] + ys
    ensures multiset(ts[..|ts| - 1]) == multiset(xs + ys)
  {
    var n, t := |ts| - 1, ts[|ts| - 1];
    assert t in multiset(us);
    var k :| 0 <= k < |us| && us[k] == t;
    xs, ys := us[..k], us[k + 1..];
    assert us == xs + [t] + ys;
    assert ts == ts[..n] + [t];
    assert multiset(us) == multiset(xs) + multiset{t} + multiset(ys);
    assert multiset(ts) == multiset(ts[..n]) + multiset{t};
    assert multiset(ts[..n]) == multiset(us) - multiset{t};
  }

  /** The delta depends on the transitions as a multiset only. */
  lemma {:induction false} DeltaPermutation(xof: Xof, ts: seq<Transition>, us: seq<Transition>)
    requires multiset(ts) == multiset(us)
    ensures Delta(xof, ts) == Delta(xof, us)
    decreases |ts|
  {
    if ts == [] {
      assert |multiset(us)| == 0;
    } else {
      var head, t := ts[..|ts| - 1], ts[|ts| - 1];
      var xs, ys := FindLast(ts, us);
      assert ts == head + [t];
      DeltaSnoc(xof, head, t);
      DeltaPermutation(xof, head, xs + ys);
      DeltaExtract(xof, xs, t, ys);
    }
  }
}
