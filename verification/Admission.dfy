/** Which packets are admitted, read off their bytes: every refusal with its reason, what a signature decides,
    and what becomes of packets that nobody entitled signed. */
module Admission {
  import opened Common
  import opened ByteStrings
  import opened Merkle
  import opened Shred
  import opened ReedSolomon
  import opened FecSet
  import opened RoundTrip
  import opened Assembler
  import opened EndToEnd

  // ---------------------------------------------------------------- where things lie

  /** The upper half of the variant byte tells data (9, 11) from coding shreds (6, 7) and resigned ones
      (7, 11); the lower half is the number of proof entries. */
  predicate KnownVariant(raw: Bytes)
    requires |raw| >= 83
  {
    raw[64] / 16 == 6 || raw[64] / 16 == 7 || raw[64] / 16 == 9 || raw[64] / 16 == 11
  }

  predicate IsData(raw: Bytes)
    requires |raw| >= 83
  {
    raw[64] / 16 >= 9
  }

  function SizeOf(raw: Bytes): nat
    requires |raw| >= 83
  {
    if IsData(raw) then 1203 else 1228
  }

  predicate WellFormed(raw: Bytes) { |raw| >= 83 && KnownVariant(raw) && |raw| >= SizeOf(raw) }

  function ProofTo(raw: Bytes): (n: nat)
    requires WellFormed(raw)
    ensures 1139 <= n <= |raw|
  {
    if raw[64] / 16 == 7 || raw[64] / 16 == 11 then SizeOf(raw) - 64 else SizeOf(raw)
  }

  function ProofFrom(raw: Bytes): (n: nat)
    requires WellFormed(raw)
    ensures 839 <= n <= ProofTo(raw)
  {
    ProofTo(raw) - 20 * ((raw[64] as int) % 16)
  }

  /** The position in the FEC set; the subtraction wraps. */
  function PositionOf(raw: Bytes): nat
    requires WellFormed(raw)
  {
    if IsData(raw) then (FromLE(raw[73..77]) - FromLE(raw[79..83])) % 0x1_0000_0000 else 32 + FromLE(raw[87..89])
  }

  /** The root a packet leads to, from the hash of the bytes between signature and proof. */
  function RootLedTo(sha: Sha, raw: Bytes): Result<Hash, MerkleError>
    requires WellFormed(raw)
  {
    var leaf := sha([0] + Ascii("SOLANA_MERKLE_SHREDS_LEAF") + raw[64..ProofFrom(raw)]);
    RecoverRoot(sha, PositionOf(raw), leaf, raw[ProofFrom(raw)..ProofTo(raw)])
  }

  /** A packet leads to a root exactly if its position fits its proof. */
  lemma LeadsToRoot(sha: Sha, raw: Bytes)
    requires WellFormed(raw)
    ensures RootLedTo(sha, raw).Ok? <==> PositionOf(raw) < Pow2(raw[64] % 16)
  {
    var leaf := sha([0] + Ascii("SOLANA_MERKLE_SHREDS_LEAF") + raw[64..ProofFrom(raw)]);
    RecoverAccepts(sha, PositionOf(raw), leaf, raw[ProofFrom(raw)..ProofTo(raw)]);
  }

  // ---------------------------------------------------------------- parsing and verifying

  /** The parser, case by case. */
  lemma ParseExact(raw: Bytes)
    ensures |raw| < 83 ==> ParseShred(raw) == Err(PayloadTooSmall(|raw|))
    ensures |raw| >= 83 && !KnownVariant(raw) ==> ParseShred(raw) == Err(UnknownVariant(raw[64]))
    ensures |raw| >= 83 && KnownVariant(raw) && |raw| < SizeOf(raw) ==> ParseShred(raw) == Err(PayloadTooSmall(|raw|))
    ensures ParseShred(raw).Ok? <==> WellFormed(raw)
    ensures WellFormed(raw) ==>
      var p := ParseShred(raw).value;
      && p.header.signature == raw[..64] && p.header.slot == FromLE(raw[65..73])
      && p.header.index == FromLE(raw[73..77]) && p.header.fecSetIndex == FromLE(raw[79..83])
      && p.proofStart == ProofFrom(raw) && p.proofEnd == ProofTo(raw) && p.erasureShardIndex == PositionOf(raw)
      && p.chainedRoot == Some(raw[ProofFrom(raw) - 32..ProofFrom(raw)])
      && (p.header.variant.kind.Data? <==> IsData(raw))
      && p.dataFlags == if IsData(raw) then Some(raw[85]) else None
  {
    if |raw| >= 83 {
      VariantNibbles(raw[64]);
    }
  }

  lemma VerifiedRoot(c: Crypto, raw: Bytes)
    requires WellFormed(raw) && ParseShred(raw).Ok?
    ensures var p := ParseShred(raw).value;
      RecoverRoot(c.sha, p.erasureShardIndex, c.sha(LeafInput(raw, p.proofStart)), raw[p.proofStart..p.proofEnd])
        == RootLedTo(c.sha, raw)
  {
    ParseExact(raw);
    LeafPrefix();
  }

  /** The verifier, check by check: position, key, signature over the root. */
  lemma VerifyExact(c: Crypto, raw: Bytes, leader: Hash)
    requires WellFormed(raw)
    ensures var r, root := VerifyShred(c, raw, leader), RootLedTo(c.sha, raw);
      if PositionOf(raw) >= Pow2(raw[64] % 16) then r == Err(RootMismatch)
      else if !c.validKey(leader) then r == Err(InvalidPubkeyBytes)
      else if root.Err? || !c.verify(leader, root.value, raw[..64]) then r == Err(SignatureVerifyFailed)
      else r == Ok(VerifiedShred(FromLE(raw[65..73]), FromLE(raw[79..83]), FromLE(raw[73..77]), PositionOf(raw),
                                 root.value, Some(raw[ProofFrom(raw) - 32..ProofFrom(raw)]),
                                 if IsData(raw) then Data else Code, if IsData(raw) then Some(raw[85]) else None))
  {
    ParseExact(raw);
    VerifiedRoot(c, raw);
    LeadsToRoot(c.sha, raw);
  }

  // ---------------------------------------------------------------- admission

  function SlotNamed(raw: Bytes): nat
    requires |raw| >= 83
  {
    FromLE(raw[65..73])
  }

  /** The leader of the packet's slot signed the root the packet leads to. */
  predicate SignedByLeader(env: Env, raw: Bytes)
    requires WellFormed(raw)
  {
    var leader, root := env.leader(SlotNamed(raw)), RootLedTo(env.crypto.sha, raw);
    leader.Some? && root.Ok? && env.crypto.validKey(leader.value)
    && env.crypto.verify(leader.value, root.value, raw[..64])
  }

  /** What is kept of an admitted packet. */
  function ArrivalRead(sha: Sha, raw: Bytes): Arrival
    requires WellFormed(raw) && RootLedTo(sha, raw).Ok?
  {
    Arrival(SlotNamed(raw), FromLE(raw[79..83]), RootLedTo(sha, raw).value, PositionOf(raw),
            IsData(raw) && raw[85] >= 128, if IsData(raw) then raw[64..1051] else raw[89..1076])
  }

  /** Admission is a leader's signature over the root the packet leads to; nothing else gets in. */
  lemma AdmittedIsSigned(env: Env, raw: Bytes)
    ensures Admit(env, raw).Admitted? <==> WellFormed(raw) && SignedByLeader(env, raw)
    ensures WellFormed(raw) && SignedByLeader(env, raw) ==>
      Admit(env, raw) == Admitted(ArrivalRead(env.crypto.sha, raw))
  {
    ParseExact(raw);
    if WellFormed(raw) && env.leader(SlotNamed(raw)).Some? {
      VerifyExact(env.crypto, raw, env.leader(SlotNamed(raw)).value);
      LeadsToRoot(env.crypto.sha, raw);
    }
  }

  /** Why a packet is refused, the first that applies. */
  function RefusalFor(env: Env, raw: Bytes): RejectReason {
    if |raw| < 83 then ParseFailed(PayloadTooSmall(|raw|))
    else if !KnownVariant(raw) then ParseFailed(UnknownVariant(raw[64]))
    else if |raw| < SizeOf(raw) then ParseFailed(PayloadTooSmall(|raw|))
    else if env.leader(SlotNamed(raw)).None? then NoLeader(SlotNamed(raw))
    else if PositionOf(raw) >= Pow2(raw[64] % 16) then VerifyFailed(RootMismatch)
    else if !env.crypto.validKey(env.leader(SlotNamed(raw)).value) then VerifyFailed(InvalidPubkeyBytes)
    else VerifyFailed(SignatureVerifyFailed)
  }

  lemma RefusalExact(env: Env, raw: Bytes)
    ensures !(WellFormed(raw) && SignedByLeader(env, raw)) ==> Admit(env, raw) == Refused(RefusalFor(env, raw))
  {
    AdmittedIsSigned(env, raw);
    ParseExact(raw);
    if WellFormed(raw) && env.leader(SlotNamed(raw)).Some? {
      VerifyExact(env.crypto, raw, env.leader(SlotNamed(raw)).value);
      LeadsToRoot(env.crypto.sha, raw);
    }
  }

  // ---------------------------------------------------------------- what a signature decides

  /** A built shred under any signature and any leader key: admitted as built if the signature verifies under
      that key, refused for its signature if not. */
  lemma SignatureDecides(env: Env, payload: Bytes, p: FecSetParams, f: FecSet, i: nat, sig: Signature, leader: Hash)
    requires IsFecSet(env.crypto, env.rs, payload, p, f) && i < SHREDS_PER_FEC
    requires env.leader(p.slot) == Some(leader) && env.crypto.validKey(leader)
    ensures Admit(env, sig + f.shreds[i][64..]) ==
      if env.crypto.verify(leader, f.merkleRoot, sig) then Admitted(BuiltArrival(p, f, i))
      else Refused(VerifyFailed(SignatureVerifyFailed))
  {
    var c, built, raw := env.crypto, f.shreds[i], sig + f.shreds[i][64..];
    BuiltShredParses(c, env.rs, payload, p, f, i);
    BuiltProofRecovers(c, p, f, i);
    SameBehindSignature(raw, built);
    SignedBytesDetermine(built, raw);
    PartsBehindSignature(raw, built, ProofStart(i), if i < 32 then SIZE_OF_SIGNATURE else 89);
  }

  lemma PartsBehindSignature(raw: Bytes, built: Bytes, n: nat, off: nat)
    requires 64 <= n <= |raw| == |built| && raw[64..] == built[64..] && 64 <= off <= |raw| - ERASURE_SHARD_SIZE
    ensures LeafInput(raw, n) == LeafInput(built, n) && raw[n..|raw|] == built[n..|built|]
    ensures raw[off..off + ERASURE_SHARD_SIZE] == built[off..off + ERASURE_SHARD_SIZE]
  {
    assert raw[64..] == raw[64..|raw|] && built[64..] == built[64..|built|];
    SubSlice(raw, built, 64, |raw|, 64, n);
    SubSlice(raw, built, 64, |raw|, n, |raw|);
    SubSlice(raw, built, 64, |raw|, off, off + ERASURE_SHARD_SIZE);
  }

  lemma SameBehindSignature(raw: Bytes, built: Bytes)
    requires |raw| == |built| && |built| >= 83 && raw[64..] == built[64..] && ParseShred(built).Ok?
    ensures ParseShred(raw).Ok?
    ensures raw[SIZE_OF_SIGNATURE..ParseShred(raw).value.proofStart]
         == built[SIZE_OF_SIGNATURE..ParseShred(built).value.proofStart]
  {
    ParseAccepts(raw);
    ParseAccepts(built);
    assert raw[64] == raw[64..][0] && built[64] == built[64..][0];
    var n := ParseShred(built).value.proofStart;
    assert raw[64..n] == raw[64..][..n - 64] && built[64..n] == built[64..][..n - 64];
  }

  lemma {:induction false} RefusedRun(env: Env, raws: seq<Bytes>)
    requires forall j :: 0 <= j < |raws| ==> Admit(env, raws[j]).Refused?
    ensures RunRaw(env, raws).state == EMPTY && |RunRaw(env, raws).log| == |raws|
    ensures forall j :: 0 <= j < |raws| ==> RunRaw(env, raws).log[j] == Rejected(Admit(env, raws[j]).reason)
  {
    if raws != [] {
      RefusedRun(env, raws[..|raws| - 1]);
    }
  }

  /** Packets of which none is signed by the leader of its slot leave nothing but one rejection each, with the
      reason. */
  lemma UnsignedLeaveNothing(env: Env, raws: seq<Bytes>)
    requires forall raw :: raw in raws && WellFormed(raw) ==> !SignedByLeader(env, raw)
    ensures RunRaw(env, raws).state == EMPTY && |RunRaw(env, raws).log| == |raws|
    ensures forall j :: 0 <= j < |raws| ==> RunRaw(env, raws).log[j] == Rejected(RefusalFor(env, raws[j]))
  {
    forall j | 0 <= j < |raws|
      ensures Admit(env, raws[j]) == Refused(RefusalFor(env, raws[j]))
    {
      assert raws[j] in raws;
      RefusalExact(env, raws[j]);
    }
    RefusedRun(env, raws);
  }
}
