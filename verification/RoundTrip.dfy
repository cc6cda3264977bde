/** The constructor undone by the parser and verifier: every built shred parses to what was put in,
    verifies to the builder's root, and the size fields delimit exactly the payload. */
module RoundTrip {
  import opened Common
  import opened ByteStrings
  import opened Merkle
  import opened Shred
  import opened ReedSolomon
  import opened FecSet

  lemma WrapCancels(fec: U32, i: nat)
    requires i < TWO_32
    ensures WrappingSub32(WrappingAdd32(fec, i), fec) == i
  {
  }

  lemma HeaderDecodes(raw: Bytes, v: ShredVariant, p: FecSetParams, index: U32)
    requires HeaderFields(raw, v, p, index)
    ensures raw[64] == EncodeVariant(v)
    ensures FromLE(raw[65..73]) == p.slot && FromLE(raw[73..77]) == index
    ensures FromLE(raw[77..79]) == p.version && FromLE(raw[79..83]) == p.fecSetIndex
  {
    assert raw[64..65][0] == raw[64];
    Pow256Values();
    DecodeEncode(p.slot, 8);
    DecodeEncode(index, 4);
    DecodeEncode(p.version, 2);
    DecodeEncode(p.fecSetIndex, 4);
  }

  lemma DataShredParses(raw: Bytes, p: FecSetParams, chunk: Bytes, i: nat)
    requires DataLayout(raw, p, chunk, i) && i < 32
    ensures ParseShred(raw) == Ok(ParsedShred(
      CommonHeader(raw[..SIZE_OF_SIGNATURE], DATA_VARIANT, p.slot,
                   WrappingAdd32(p.fecSetIndex, i), p.version, p.fecSetIndex),
      DATA_PROOF, DATA_PROOF + PROOF_BYTES, Some(p.chainedRoot), i, Some(p.flags)))
  {
    HeaderDecodes(raw, DATA_VARIANT, p, WrappingAdd32(p.fecSetIndex, i));
    WrapCancels(p.fecSetIndex, i);
    assert raw[85..86][0] == raw[85];
  }

  lemma CodeShredParses(raw: Bytes, p: FecSetParams, parity: Bytes, j: nat)
    requires CodeLayout(raw, p, parity, j) && j < 32
    ensures ParseShred(raw) == Ok(ParsedShred(
      CommonHeader(raw[..SIZE_OF_SIGNATURE], CODE_VARIANT, p.slot,
                   WrappingAdd32(p.fecSetIndex, j), p.version, p.fecSetIndex),
      CODE_PROOF, CODE_PROOF + PROOF_BYTES, Some(p.chainedRoot), 32 + j, None))
  {
    HeaderDecodes(raw, CODE_VARIANT, p, WrappingAdd32(p.fecSetIndex, j));
    Pow256Values();
    DecodeEncode(j, 2);
  }

  /** What shred `i` of a set built from `p` verifies to. */
  function ExpectedShred(p: FecSetParams, root: Hash, i: nat): VerifiedShred {
    if i < 32 then
      VerifiedShred(p.slot, p.fecSetIndex, WrappingAdd32(p.fecSetIndex, i), i, root,
                    Some(p.chainedRoot), Data, Some(p.flags))
    else
      VerifiedShred(p.slot, p.fecSetIndex, WrappingAdd32(p.fecSetIndex, i - 32), i, root,
                    Some(p.chainedRoot), Code, None)
  }

  lemma BuiltShredParses(c: Crypto, rs: ErasureCode, payload: Bytes, p: FecSetParams, f: FecSet, i: nat)
    requires IsFecSet(c, rs, payload, p, f) && i < SHREDS_PER_FEC
    ensures var r := ParseShred(f.shreds[i]);
      && r.Ok?
      && r.value.header.slot == p.slot && r.value.header.version == p.version
      && r.value.header.fecSetIndex == p.fecSetIndex && r.value.chainedRoot == Some(p.chainedRoot)
      && r.value.header.signature == f.signature
      && r.value.header.index == ExpectedShred(p, f.merkleRoot, i).index
      && r.value.header.variant.kind == ExpectedShred(p, f.merkleRoot, i).kind
      && r.value.dataFlags == ExpectedShred(p, f.merkleRoot, i).dataFlags
      && r.value.erasureShardIndex == i
      && r.value.proofStart == ProofStart(i) && r.value.proofEnd == |f.shreds[i]|
  {
    assert ShredSealed(c.sha, Leaves(c.sha, f.shreds), f, i);
    if i < 32 {
      DataShredParses(f.shreds[i], p, Chunk(payload, i), i);
    } else {
      CodeShredParses(f.shreds[i], p, rs.encode(DataShards(f.shreds))[i - 32], i - 32);
    }
  }

  /** The leaf a verifier hashes from a built shred is the builder's, and so is the proof it reads. */
  lemma BuiltLeafAndProof(c: Crypto, p: FecSetParams, f: FecSet, i: nat)
    requires Sealed(c, p, f) && i < SHREDS_PER_FEC
    ensures c.sha(LeafInput(f.shreds[i], ProofStart(i))) == Leaves(c.sha, f.shreds)[i]
    ensures f.shreds[i][ProofStart(i)..|f.shreds[i]|] == Flatten(Path(c.sha, Leaves(c.sha, f.shreds), i))
  {
    var raw := f.shreds[i];
    assert ShredSealed(c.sha, Leaves(c.sha, f.shreds), f, i);
    assert raw[ProofStart(i)..] == raw[ProofStart(i)..|raw|];
  }

  lemma BuiltProofRecovers(c: Crypto, p: FecSetParams, f: FecSet, i: nat)
    requires Sealed(c, p, f) && i < SHREDS_PER_FEC
    ensures RecoverRoot(c.sha, i, c.sha(LeafInput(f.shreds[i], ProofStart(i))),
                        f.shreds[i][ProofStart(i)..|f.shreds[i]|]) == Ok(f.merkleRoot)
  {
    BuiltLeafAndProof(c, p, f, i);
    PathAccepted(c.sha, Leaves(c.sha, f.shreds), i);
  }

  /** Constructor, then verifier: every one of the 64 shreds verifies under the leader's key and
      yields the builder's root and its own position. */
  lemma BuiltShredVerifies(c: Crypto, rs: ErasureCode, payload: Bytes, p: FecSetParams, f: FecSet, i: nat)
    requires IsFecSet(c, rs, payload, p, f) && i < SHREDS_PER_FEC
    requires SignaturesVerify(c)
    ensures VerifyShred(c, f.shreds[i], f.leaderPubkey) == Ok(ExpectedShred(p, f.merkleRoot, i))
  {
    BuiltShredParses(c, rs, payload, p, f, i);
    BuiltProofRecovers(c, p, f, i);
    assert c.verify(f.leaderPubkey, f.merkleRoot, c.sign(p.signingKey, f.merkleRoot));
    VerifyFromParts(c, f.shreds[i], f.leaderPubkey, f.merkleRoot);
  }

  lemma VerifyFromParts(c: Crypto, raw: Bytes, leader: Hash, root: Hash)
    requires ParseShred(raw).Ok?
    requires var q := ParseShred(raw).value;
      && RecoverRoot(c.sha, q.erasureShardIndex, c.sha(LeafInput(raw, q.proofStart)),
                     raw[q.proofStart..q.proofEnd]) == Ok(root)
      && c.validKey(leader) && c.verify(leader, root, q.header.signature)
    ensures var q := ParseShred(raw).value;
      VerifyShred(c, raw, leader) == Ok(VerifiedShred(q.header.slot, q.header.fecSetIndex, q.header.index,
        q.erasureShardIndex, root, q.chainedRoot, q.header.variant.kind, q.dataFlags))
  {
  }

  // ---------------------------------------------------------------- on the wire

  predicate HeaderBytesAre(raw: Bytes, sig: Signature, variant: Byte, p: FecSetParams, index: nat) {
    && |raw| >= 83 && raw[..64] == sig && raw[64] == variant
    && raw[65..73] == ToLE(p.slot, 8) && raw[73..77] == ToLE(index, 4)
    && raw[77..79] == ToLE(p.version, 2) && raw[79..83] == ToLE(p.fecSetIndex, 4)
  }

  lemma HeaderOnWire(raw: Bytes, sig: Signature, v: ShredVariant, p: FecSetParams, index: U32)
    requires |raw| >= 83 && raw[..64] == sig && HeaderFields(raw, v, p, index)
    ensures HeaderBytesAre(raw, sig, EncodeVariant(v), p, index)
  {
    assert raw[64..65][0] == raw[64];
  }

  /** How much of the payload data shred `i` carries: 963 bytes, or what is left. */
  lemma ChunkBytes(payload: Bytes, i: nat)
    ensures |Chunk(payload, i)| ==
      if 963 * i >= |payload| then 0 else if 963 * (i + 1) <= |payload| then 963 else |payload| - 963 * i
    ensures forall j :: 0 <= j < |Chunk(payload, i)| ==> Chunk(payload, i)[j] == payload[963 * i + j]
  {
  }

  lemma RegionBytes(raw: Bytes, chunk: Bytes)
    requires |raw| == 1203 && |chunk| <= 963
    requires raw[88..88 + |chunk|] == chunk && raw[88 + |chunk|..1051] == Zeros(963 - |chunk|)
    ensures forall b :: 88 <= b < 1051 ==> raw[b] == if b < 88 + |chunk| then chunk[b - 88] else 0
  {
    forall b | 88 <= b < 1051
      ensures raw[b] == if b < 88 + |chunk| then chunk[b - 88] else 0
    {
      if b < 88 + |chunk| {
        assert raw[88..88 + |chunk|][b - 88] == raw[b];
      } else {
        assert raw[88 + |chunk|..1051][b - 88 - |chunk|] == raw[b];
      }
    }
  }

  lemma PayloadOnWire(raw: Bytes, p: FecSetParams, payload: Bytes, i: nat)
    requires DataLayout(raw, p, Chunk(payload, i), i)
    ensures forall b :: 88 <= b < 1051 ==>
      raw[b] == if b < 88 + |Chunk(payload, i)| then payload[963 * i + (b - 88)] else 0
  {
    ChunkBytes(payload, i);
    RegionBytes(raw, Chunk(payload, i));
  }

  /** Every byte of a data shred up to the proof. */
  ghost predicate DataBytesAre(raw: Bytes, sig: Signature, payload: Bytes, p: FecSetParams, i: nat) {
    var n := |Chunk(payload, i)|;
    && |raw| == 1203
    && HeaderBytesAre(raw, sig, 0x96, p, (p.fecSetIndex + i) % 0x1_0000_0000)
    && raw[83..85] == ToLE(p.parentOffset, 2) && raw[85] == p.flags && raw[86..88] == ToLE(88 + n, 2)
    && (forall b :: 88 <= b < 1051 ==> raw[b] == if b < 88 + n then payload[963 * i + (b - 88)] else 0)
    && raw[1051..1083] == p.chainedRoot
  }

  lemma DataLayoutOnWire(raw: Bytes, sig: Signature, payload: Bytes, p: FecSetParams, i: nat)
    requires DataLayout(raw, p, Chunk(payload, i), i) && raw[..64] == sig
    ensures DataBytesAre(raw, sig, payload, p, i)
  {
    HeaderOnWire(raw, sig, DATA_VARIANT, p, WrappingAdd32(p.fecSetIndex, i));
    assert raw[85..86][0] == raw[85];
    PayloadOnWire(raw, p, payload, i);
  }

  lemma DataShredOnWire(c: Crypto, rs: ErasureCode, payload: Bytes, p: FecSetParams, f: FecSet, i: nat)
    requires IsFecSet(c, rs, payload, p, f) && i < 32
    ensures DataBytesAre(f.shreds[i], c.sign(p.signingKey, f.merkleRoot), payload, p, i)
  {
    assert DataLayout(f.shreds[i], p, Chunk(payload, i), i);
    assert ShredSealed(c.sha, Leaves(c.sha, f.shreds), f, i);
    DataLayoutOnWire(f.shreds[i], f.signature, payload, p, i);
  }

  /** A shred whose 963 bytes are all inside the payload carries exactly them, and its size field is 1051. */
  lemma FullShred(c: Crypto, rs: ErasureCode, payload: Bytes, p: FecSetParams, f: FecSet, i: nat)
    requires IsFecSet(c, rs, payload, p, f) && i < 32 && (i + 1) * 963 <= |payload|
    ensures f.shreds[i][86..88] == ToLE(1051, 2)
    ensures f.shreds[i][88..1051] == payload[963 * i..963 * (i + 1)]
  {
    DataShredOnWire(c, rs, payload, p, f, i);
    ChunkBytes(payload, i);
  }

  /** Every byte of coding shred `j` up to the proof; the parity is over bytes 64 to 1051 of the data shreds. */
  lemma CodeShredOnWire(c: Crypto, rs: ErasureCode, payload: Bytes, p: FecSetParams, f: FecSet, j: nat, data: Half)
    requires IsFecSet(c, rs, payload, p, f) && j < 32
    requires forall i :: 0 <= i < 32 ==> data[i] == f.shreds[i][64..1051]
    ensures var raw := f.shreds[32 + j];
      && |raw| == 1228
      && HeaderBytesAre(raw, c.sign(p.signingKey, f.merkleRoot), 0x66, p, (p.fecSetIndex + j) % 0x1_0000_0000)
      && raw[83..85] == [32, 0] && raw[85..87] == [32, 0] && raw[87..89] == [j, 0]
      && raw[89..1076] == rs.encode(data)[j] && raw[1076..1108] == p.chainedRoot
  {
    var raw := f.shreds[32 + j];
    assert data == DataShards(f.shreds);
    assert CodeLayout(raw, p, rs.encode(data)[j], j);
    assert ShredSealed(c.sha, Leaves(c.sha, f.shreds), f, 32 + j);
    HeaderOnWire(raw, f.signature, CODE_VARIANT, p, WrappingAdd32(p.fecSetIndex, j));
    TwoBytes(32);
    TwoBytes(j);
  }

  lemma TwoBytes(n: nat)
    requires n < 256
    ensures ToLE(n, 2) == [n, 0]
  {
    assert ToLE(n / 256, 1) == [0] + ToLE(0, 0);
  }

  // ---------------------------------------------------------------- payload

  /** The data region of a data shred as its own size field delimits it. */
  function DataRegion(raw: Bytes): Bytes
    requires |raw| == DATA_SHRED_PAYLOAD_SIZE
  {
    var size := FromLE(raw[86..88]);
    if DATA_BUF <= size <= DATA_BUF_END then raw[DATA_BUF..size] else []
  }

  function Reassemble(shreds: seq<Bytes>, n: nat): Bytes
    requires Sized(shreds) && n <= 32
  {
    if n == 0 then [] else Reassemble(shreds, n - 1) + DataRegion(shreds[n - 1])
  }

  lemma RegionIsChunk(raw: Bytes, p: FecSetParams, chunk: Bytes, i: nat)
    requires DataLayout(raw, p, chunk, i)
    ensures DataRegion(raw) == chunk
  {
    Pow256Values();
    DecodeEncode(DATA_BUF + |chunk|, 2);
  }

  function Covered(payload: Bytes, n: nat): (r: nat)
    ensures r <= |payload|
  {
    if n * DATA_CAPACITY < |payload| then n * DATA_CAPACITY else |payload|
  }

  lemma ChunkExtends(payload: Bytes, i: nat)
    ensures payload[..Covered(payload, i)] + Chunk(payload, i) == payload[..Covered(payload, i + 1)]
  {
  }

  lemma {:induction false} ReassemblePrefix(
    rs: ErasureCode, payload: Bytes, p: FecSetParams, shreds: seq<Bytes>, n: nat)
    requires Bodies(rs, payload, p, shreds) && n <= 32
    ensures Reassemble(shreds, n) == payload[..Covered(payload, n)]
  {
    if n > 0 {
      ReassemblePrefix(rs, payload, p, shreds, n - 1);
      RegionIsChunk(shreds[n - 1], p, Chunk(payload, n - 1), n - 1);
      ChunkExtends(payload, n - 1);
    }
  }

  /** Chunking loses nothing: the delimited regions concatenate to the payload. */
  lemma PayloadRecovered(c: Crypto, rs: ErasureCode, payload: Bytes, p: FecSetParams, f: FecSet)
    requires IsFecSet(c, rs, payload, p, f)
    requires |payload| <= 32 * DATA_CAPACITY
    ensures Reassemble(f.shreds, 32) == payload
  {
    ReassemblePrefix(rs, payload, p, f.shreds, 32);
  }
}
