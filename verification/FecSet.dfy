/** The byte-level FEC-set constructor: 64 buffers filled in place, hashed, proved and signed.
    `u32` additions wrap, as in a release build. */
module FecSet {
  import opened Common
  import opened ByteStrings
  import opened Merkle
  import opened Shred
  import opened ReedSolomon

  const DATA_BUF: nat := 88
  const DATA_BUF_END: nat := 1051
  const DATA_PROOF: nat := 1083
  const ERASURE_BUF: nat := 89
  const ERASURE_BUF_END: nat := 1076
  const CODE_PROOF: nat := 1108
  const PROOF_BYTES: nat := 120
  const DATA_CAPACITY: nat := 963

  const DATA_VARIANT := ShredVariant(Data, 6, true, false)
  const CODE_VARIANT := ShredVariant(Code, 6, true, false)

  datatype FecSetParams = FecSetParams(
    slot: U64, fecSetIndex: U32, version: U16, parentOffset: U16, flags: Byte,
    chainedRoot: Hash, signingKey: Bytes)

  datatype FecSet = FecSet(shreds: seq<Bytes>, merkleRoot: Hash, leaderPubkey: Hash, signature: Signature)

  function WrappingAdd32(a: U32, b: nat): U32 { (a + b) % TWO_32 }

  /** The payload slice carried by data shred `i`. */
  function Chunk(payload: Bytes, i: nat): (r: Bytes)
    ensures |r| <= DATA_CAPACITY
  {
    var off := i * DATA_CAPACITY;
    if off < |payload| then
      payload[off..if off + DATA_CAPACITY < |payload| then off + DATA_CAPACITY else |payload|]
    else []
  }

  // ---------------------------------------------------------------- layout

  predicate HeaderFields(buf: Bytes, variant: ShredVariant, p: FecSetParams, index: U32) {
    && |buf| >= 83
    && buf[64..65] == [EncodeVariant(variant)]
    && buf[65..73] == ToLE(p.slot, 8)
    && buf[73..77] == ToLE(index, 4)
    && buf[77..79] == ToLE(p.version, 2)
    && buf[79..83] == ToLE(p.fecSetIndex, 4)
  }

  /** Every byte of data shred `i` between the signature and the proof. */
  predicate DataLayout(buf: Bytes, p: FecSetParams, chunk: Bytes, i: nat) {
    && |buf| == DATA_SHRED_PAYLOAD_SIZE && |chunk| <= DATA_CAPACITY
    && HeaderFields(buf, DATA_VARIANT, p, WrappingAdd32(p.fecSetIndex, i))
    && buf[83..85] == ToLE(p.parentOffset, 2)
    && buf[85..86] == [p.flags]
    && buf[86..88] == ToLE(DATA_BUF + |chunk|, 2)
    && buf[DATA_BUF..DATA_BUF + |chunk|] == chunk
    && buf[DATA_BUF + |chunk|..DATA_BUF_END] == Zeros(DATA_CAPACITY - |chunk|)
    && buf[DATA_BUF_END..DATA_PROOF] == p.chainedRoot
  }

  /** Every byte of coding shred `j` between the signature and the proof. */
  predicate CodeLayout(buf: Bytes, p: FecSetParams, parity: Bytes, j: nat) {
    && |buf| == CODING_SHRED_PAYLOAD_SIZE
    && HeaderFields(buf, CODE_VARIANT, p, WrappingAdd32(p.fecSetIndex, j))
    && buf[83..85] == ToLE(32, 2)
    && buf[85..87] == ToLE(32, 2)
    && buf[87..89] == ToLE(j, 2)
    && buf[ERASURE_BUF..ERASURE_BUF_END] == parity
    && buf[ERASURE_BUF_END..CODE_PROOF] == p.chainedRoot
  }

  function ProofStart(i: nat): nat { if i < DATA_SHREDS_PER_FEC then DATA_PROOF else CODE_PROOF }

  predicate Sized(shreds: seq<Bytes>) {
    && |shreds| == SHREDS_PER_FEC
    && forall i :: 0 <= i < SHREDS_PER_FEC ==> |shreds[i]| == ProofStart(i) + PROOF_BYTES
  }

  function Leaf(sha: Sha, shreds: seq<Bytes>, i: nat): Hash
    requires Sized(shreds) && i < SHREDS_PER_FEC
  {
    sha(LeafInput(shreds[i], ProofStart(i)))
  }

  function Leaves(sha: Sha, shreds: seq<Bytes>): (r: seq<Hash>)
    requires Sized(shreds)
    ensures |r| == SHREDS_PER_FEC && forall i :: 0 <= i < SHREDS_PER_FEC ==> r[i] == Leaf(sha, shreds, i)
  {
    seq(SHREDS_PER_FEC, i requires 0 <= i < SHREDS_PER_FEC => Leaf(sha, shreds, i))
  }

  function DataShards(shreds: seq<Bytes>): Half
    requires Sized(shreds)
  {
    seq(32, i requires 0 <= i < 32 => shreds[i][SIZE_OF_SIGNATURE..DATA_BUF_END])
  }

  /** The 64 bodies: data layouts, then coding layouts over the parity of the data regions. */
  ghost predicate Bodies(rs: ErasureCode, payload: Bytes, p: FecSetParams, shreds: seq<Bytes>) {
    && Sized(shreds)
    && (forall i :: 0 <= i < 32 ==> DataLayout(shreds[i], p, Chunk(payload, i), i))
    && (forall i :: 32 <= i < 64 ==> CodeLayout(shreds[i], p, rs.encode(DataShards(shreds))[i - 32], i - 32))
  }

  predicate ShredSealed(sha: Sha, leaves: seq<Hash>, f: FecSet, i: nat)
    requires Sized(f.shreds) && |leaves| == SHREDS_PER_FEC && i < SHREDS_PER_FEC
  {
    && f.shreds[i][..SIZE_OF_SIGNATURE] == f.signature
    && f.shreds[i][ProofStart(i)..] == Flatten(Path(sha, leaves, i))
  }

  /** One signed root over all 64 leaves, and each shred's own proof. */
  ghost predicate Sealed(c: Crypto, p: FecSetParams, f: FecSet) {
    && Sized(f.shreds)
    && f.merkleRoot == Root(c.sha, Leaves(c.sha, f.shreds))
    && f.leaderPubkey == c.publicKey(p.signingKey)
    && f.signature == c.sign(p.signingKey, f.merkleRoot)
    && (forall i {:trigger ShredSealed(c.sha, Leaves(c.sha, f.shreds), f, i)} :: 0 <= i < SHREDS_PER_FEC ==>
          ShredSealed(c.sha, Leaves(c.sha, f.shreds), f, i))
  }

  /** A complete FEC set. */
  ghost predicate IsFecSet(c: Crypto, rs: ErasureCode, payload: Bytes, p: FecSetParams, f: FecSet) {
    Bodies(rs, payload, p, f.shreds) && Sealed(c, p, f)
  }

  // ---------------------------------------------------------------- constructor

  /** The five header fields both kinds share. */
  method FillHeader(blank: Bytes, variant: ShredVariant, p: FecSetParams, index: U32) returns (buf: Bytes)
    requires |blank| >= 83
    ensures |buf| == |blank| && HeaderFields(buf, variant, p, index)
    ensures forall a, b {:trigger buf[a..b]} :: 83 <= a <= b <= |buf| ==> buf[a..b] == blank[a..b]
  {
    buf := CopyInto(blank, 64, [EncodeVariant(variant)]);
    buf := CopyInto(buf, 65, ToLE(p.slot, 8));
    buf := CopyInto(buf, 73, ToLE(index, 4));
    buf := CopyInto(buf, 77, ToLE(p.version, 2));
    buf := CopyInto(buf, 79, ToLE(p.fecSetIndex, 4));
  }

  /** Payload slice, size field and chained root over a buffer that is still blank from the slice on. */
  method FillDataTail(head: Bytes, slice: Bytes, chainedRoot: Hash) returns (buf: Bytes)
    requires |head| == DATA_SHRED_PAYLOAD_SIZE && |slice| <= DATA_CAPACITY
    ensures |buf| == |head|
    ensures forall a, b {:trigger buf[a..b]} :: 0 <= a <= b <= 86 ==> buf[a..b] == head[a..b]
    ensures buf[86..88] == ToLE(DATA_BUF + |slice|, 2)
    ensures buf[DATA_BUF..DATA_BUF + |slice|] == slice
    ensures buf[DATA_BUF + |slice|..DATA_BUF_END] == head[DATA_BUF + |slice|..DATA_BUF_END]
    ensures buf[DATA_BUF_END..DATA_PROOF] == chainedRoot
  {
    buf := CopyInto(head, DATA_BUF, slice);
    buf := CopyInto(buf, 86, ToLE((DATA_BUF + |slice|) % 0x1_0000, 2));
    buf := CopyInto(buf, DATA_BUF_END, chainedRoot);
  }

  method FillDataShred(blank: Bytes, p: FecSetParams, slice: Bytes, i: nat) returns (buf: Bytes)
    requires blank == Zeros(DATA_SHRED_PAYLOAD_SIZE) && |slice| <= DATA_CAPACITY
    ensures DataLayout(buf, p, slice, i)
  {
    var end := DATA_BUF + |slice|;
    buf := FillHeader(blank, DATA_VARIANT, p, WrappingAdd32(p.fecSetIndex, i));
    buf := CopyInto(buf, 83, ToLE(p.parentOffset, 2));
    buf := CopyInto(buf, 85, [p.flags]);
    assert buf[end..DATA_BUF_END] == blank[end..DATA_BUF_END];
    buf := FillDataTail(buf, slice, p.chainedRoot);
    assert blank[end..DATA_BUF_END] == Zeros(DATA_CAPACITY - |slice|);
  }

  method FillCodeHeader(blank: Bytes, p: FecSetParams, j: nat) returns (buf: Bytes)
    requires |blank| == CODING_SHRED_PAYLOAD_SIZE
    ensures |buf| == |blank| && CodeLayout(buf, p, buf[ERASURE_BUF..ERASURE_BUF_END], j)
  {
    buf := FillHeader(blank, CODE_VARIANT, p, WrappingAdd32(p.fecSetIndex, j));
    buf := CopyInto(buf, 83, ToLE(32, 2));
    buf := CopyInto(buf, 85, ToLE(32, 2));
    buf := CopyInto(buf, 87, ToLE(j, 2));
    buf := CopyInto(buf, ERASURE_BUF_END, p.chainedRoot);
  }

  method WriteParity(header: Bytes, p: FecSetParams, parity: Shard, j: nat) returns (buf: Bytes)
    requires |header| == CODING_SHRED_PAYLOAD_SIZE
    requires CodeLayout(header, p, header[ERASURE_BUF..ERASURE_BUF_END], j)
    ensures CodeLayout(buf, p, parity, j)
  {
    buf := CopyInto(header, ERASURE_BUF, parity);
  }

  ghost predicate DataDone(shreds: seq<Bytes>, p: FecSetParams, payload: Bytes, n: nat) {
    Sized(shreds) && n <= 32 && forall k :: 0 <= k < n ==> DataLayout(shreds[k], p, Chunk(payload, k), k)
  }

  method FillDataShreds(payload: Bytes, p: FecSetParams) returns (shreds: seq<Bytes>)
    ensures DataDone(shreds, p, payload, 32)
  {
    shreds := seq(32, i => Zeros(DATA_SHRED_PAYLOAD_SIZE)) + seq(32, i => Zeros(CODING_SHRED_PAYLOAD_SIZE));
    for i := 0 to 32
      invariant DataDone(shreds, p, payload, i)
      invariant forall k :: i <= k < 32 ==> shreds[k] == Zeros(DATA_SHRED_PAYLOAD_SIZE)
    {
      var buf := FillDataShred(shreds[i], p, Chunk(payload, i), i);
      shreds := shreds[i := buf];
    }
  }

  predicate HeaderDone(shreds: seq<Bytes>, p: FecSetParams, k: nat)
    requires Sized(shreds) && 32 <= k < 64
  {
    CodeLayout(shreds[k], p, shreds[k][ERASURE_BUF..ERASURE_BUF_END], k - 32)
  }

  ghost predicate HeadersDone(shreds: seq<Bytes>, p: FecSetParams, n: nat) {
    && Sized(shreds) && n <= 64
    && forall k {:trigger HeaderDone(shreds, p, k)} :: 32 <= k < n ==> HeaderDone(shreds, p, k)
  }

  method FillCodeHeaders(input: seq<Bytes>, p: FecSetParams, ghost payload: Bytes) returns (shreds: seq<Bytes>)
    requires DataDone(input, p, payload, 32)
    ensures DataDone(shreds, p, payload, 32) && HeadersDone(shreds, p, 64)
  {
    shreds := input;
    for i := 32 to 64
      invariant Sized(shreds) && HeadersDone(shreds, p, i)
      invariant shreds[..32] == input[..32]
    {
      var buf := FillCodeHeader(shreds[i], p, i - 32);
      ghost var before := shreds;
      shreds := shreds[i := buf];
      assert forall k :: 32 <= k < i ==> HeaderDone(before, p, k) && shreds[k] == before[k];
      assert HeaderDone(shreds, p, i);
    }
    assert forall k :: 0 <= k < 32 ==> shreds[k] == shreds[..32][k] && input[k] == input[..32][k];
  }

  /** Headers, payload slices and parity: everything the Merkle leaves cover. */
  method FillBodies(rs: ErasureCode, payload: Bytes, p: FecSetParams) returns (shreds: seq<Bytes>)
    ensures Bodies(rs, payload, p, shreds)
  {
    shreds := FillDataShreds(payload, p);
    shreds := FillCodeHeaders(shreds, p, payload);
    ghost var filled := shreds;
    var parity := rs.encode(DataShards(shreds));
    for i := 32 to 64
      invariant Sized(shreds)
      invariant forall k :: 0 <= k < 32 ==> shreds[k] == filled[k]
      invariant forall k :: i <= k < 64 ==> shreds[k] == filled[k]
      invariant forall k :: 32 <= k < i ==> CodeLayout(shreds[k], p, parity[k - 32], k - 32)
    {
      assert shreds[i] == filled[i] && HeaderDone(filled, p, i);
      var buf := WriteParity(shreds[i], p, parity[i - 32], i - 32);
      shreds := shreds[i := buf];
    }
    assert DataShards(shreds) == DataShards(filled);
  }

  ghost predicate SameBodies(s: seq<Bytes>, t: seq<Bytes>) {
    && Sized(s) && Sized(t)
    && forall i :: 0 <= i < SHREDS_PER_FEC ==>
         s[i][SIZE_OF_SIGNATURE..ProofStart(i)] == t[i][SIZE_OF_SIGNATURE..ProofStart(i)]
  }

  lemma SameHeader(a: Bytes, b: Bytes, v: ShredVariant, p: FecSetParams, index: U32)
    requires |a| >= 83 && |b| >= 83 && a[64..83] == b[64..83]
    requires HeaderFields(a, v, p, index)
    ensures HeaderFields(b, v, p, index)
  {
    SubSlice(a, b, 64, 83, 64, 65);
    SubSlice(a, b, 64, 83, 65, 73);
    SubSlice(a, b, 64, 83, 73, 77);
    SubSlice(a, b, 64, 83, 77, 79);
    SubSlice(a, b, 64, 83, 79, 83);
  }

  lemma SameDataLayout(a: Bytes, b: Bytes, p: FecSetParams, chunk: Bytes, i: nat)
    requires |b| == |a| && DataLayout(a, p, chunk, i)
    requires a[64..DATA_PROOF] == b[64..DATA_PROOF]
    ensures DataLayout(b, p, chunk, i)
  {
    SubSlice(a, b, 64, DATA_PROOF, 64, 83);
    SameHeader(a, b, DATA_VARIANT, p, WrappingAdd32(p.fecSetIndex, i));
    SubSlice(a, b, 64, DATA_PROOF, 83, 85);
    SubSlice(a, b, 64, DATA_PROOF, 85, 86);
    SubSlice(a, b, 64, DATA_PROOF, 86, 88);
    SubSlice(a, b, 64, DATA_PROOF, DATA_BUF, DATA_BUF + |chunk|);
    SubSlice(a, b, 64, DATA_PROOF, DATA_BUF + |chunk|, DATA_BUF_END);
    SubSlice(a, b, 64, DATA_PROOF, DATA_BUF_END, DATA_PROOF);
  }

  lemma SameCodeLayout(a: Bytes, b: Bytes, p: FecSetParams, parity: Bytes, j: nat)
    requires |b| == |a| && CodeLayout(a, p, parity, j)
    requires a[64..CODE_PROOF] == b[64..CODE_PROOF]
    ensures CodeLayout(b, p, parity, j)
  {
    SubSlice(a, b, 64, CODE_PROOF, 64, 83);
    SameHeader(a, b, CODE_VARIANT, p, WrappingAdd32(p.fecSetIndex, j));
    SubSlice(a, b, 64, CODE_PROOF, 83, 85);
    SubSlice(a, b, 64, CODE_PROOF, 85, 87);
    SubSlice(a, b, 64, CODE_PROOF, 87, 89);
    SubSlice(a, b, 64, CODE_PROOF, ERASURE_BUF, ERASURE_BUF_END);
    SubSlice(a, b, 64, CODE_PROOF, ERASURE_BUF_END, CODE_PROOF);
  }

  /** The bodies and the leaves depend on the hashed regions alone. */
  lemma SameBodiesKeep(c: Crypto, rs: ErasureCode, payload: Bytes, p: FecSetParams, s: seq<Bytes>, t: seq<Bytes>)
    requires SameBodies(s, t) && Bodies(rs, payload, p, s)
    ensures Bodies(rs, payload, p, t)
    ensures Leaves(c.sha, s) == Leaves(c.sha, t)
  {
    forall i | 0 <= i < 32
      ensures DataLayout(t[i], p, Chunk(payload, i), i)
      ensures s[i][SIZE_OF_SIGNATURE..DATA_BUF_END] == t[i][SIZE_OF_SIGNATURE..DATA_BUF_END]
    {
      SameDataLayout(s[i], t[i], p, Chunk(payload, i), i);
      SubSlice(s[i], t[i], 64, DATA_PROOF, 64, DATA_BUF_END);
    }
    assert DataShards(s) == DataShards(t);
    forall i | 32 <= i < 64
      ensures CodeLayout(t[i], p, rs.encode(DataShards(t))[i - 32], i - 32)
    {
      SameCodeLayout(s[i], t[i], p, rs.encode(DataShards(s))[i - 32], i - 32);
    }
    forall i | 0 <= i < SHREDS_PER_FEC
      ensures Leaf(c.sha, s, i) == Leaf(c.sha, t, i)
    {
    }
  }

  /** `build_fec_set`. */
  method BuildFecSet(c: Crypto, rs: ErasureCode, payload: Bytes, p: FecSetParams)
    returns (r: Result<FecSet, ShredError>)
    ensures r.Err? <==> |payload| > 32 * DATA_CAPACITY
    ensures r.Err? ==> r.error == PayloadTooSmall(|payload|)
    ensures r.Ok? ==> IsFecSet(c, rs, payload, p, r.value)
  {
    if |payload| > DATA_CAPACITY * 32 {
      return Err(PayloadTooSmall(|payload|));
    }
    var bodies := FillBodies(rs, payload, p);
    var leaves := HashLeaves(c.sha, bodies);
    var tree := BuildTree(c.sha, leaves);
    TreeFrom(c.sha, leaves, tree, 0);
    var proved := WriteProofs(c.sha, bodies, leaves, tree);
    var signature := c.sign(p.signingKey, tree.root);
    var shreds := WriteSignature(c.sha, bodies, proved, leaves, signature);
    SameBodiesKeep(c, rs, payload, p, bodies, shreds);
    r := Ok(FecSet(shreds, tree.root, c.publicKey(p.signingKey), signature));
  }

  method HashLeaves(sha: Sha, shreds: seq<Bytes>) returns (leaves: seq<Hash>)
    requires Sized(shreds)
    ensures leaves == Leaves(sha, shreds)
  {
    leaves := [];
    for i := 0 to SHREDS_PER_FEC
      invariant |leaves| == i && forall k :: 0 <= k < i ==> leaves[k] == Leaf(sha, shreds, k)
    {
      leaves := leaves + [sha(LeafInput(shreds[i], ProofStart(i)))];
    }
  }

  ghost predicate ProofsWritten(sha: Sha, shreds: seq<Bytes>, leaves: seq<Hash>, n: nat) {
    && Sized(shreds) && |leaves| == SHREDS_PER_FEC && n <= SHREDS_PER_FEC
    && forall k :: 0 <= k < n ==> shreds[k][ProofStart(k)..] == Flatten(Path(sha, leaves, k))
  }

  lemma ProofBytes(sha: Sha, leaves: seq<Hash>, i: nat)
    requires |leaves| == SHREDS_PER_FEC && i < SHREDS_PER_FEC
    ensures |Flatten(Path(sha, leaves, i))| == PROOF_BYTES
  {
    assert Pow2(6) == 64;
    PathLength(sha, leaves, i, 6);
    ChunksFlatten(Path(sha, leaves, i));
  }

  method WriteProofs(sha: Sha, bodies: seq<Bytes>, leaves: seq<Hash>, tree: Tree) returns (shreds: seq<Bytes>)
    requires Sized(bodies) && |leaves| == SHREDS_PER_FEC && IsTree(sha, leaves, tree)
    ensures SameBodies(bodies, shreds) && ProofsWritten(sha, shreds, leaves, SHREDS_PER_FEC)
  {
    shreds := bodies;
    for i := 0 to SHREDS_PER_FEC
      invariant SameBodies(bodies, shreds) && ProofsWritten(sha, shreds, leaves, i)
    {
      var proof := MerkleProof(sha, leaves, tree, i);
      ProofBytes(sha, leaves, i);
      var buf := CopyInto(shreds[i], ProofStart(i), proof);
      assert buf[ProofStart(i)..] == buf[ProofStart(i)..ProofStart(i) + PROOF_BYTES];
      shreds := shreds[i := buf];
    }
  }

  method WriteSignature(
    ghost sha: Sha, ghost bodies: seq<Bytes>, input: seq<Bytes>, ghost leaves: seq<Hash>, signature: Signature)
    returns (shreds: seq<Bytes>)
    requires SameBodies(bodies, input) && ProofsWritten(sha, input, leaves, SHREDS_PER_FEC)
    ensures SameBodies(bodies, shreds) && ProofsWritten(sha, shreds, leaves, SHREDS_PER_FEC)
    ensures forall k :: 0 <= k < SHREDS_PER_FEC ==> shreds[k][..SIZE_OF_SIGNATURE] == signature
  {
    shreds := input;
    for i := 0 to SHREDS_PER_FEC
      invariant SameBodies(bodies, shreds) && ProofsWritten(sha, shreds, leaves, SHREDS_PER_FEC)
      invariant forall k :: 0 <= k < i ==> shreds[k][..SIZE_OF_SIGNATURE] == signature
    {
      var buf := CopyInto(shreds[i], 0, signature);
      assert buf[..SIZE_OF_SIGNATURE] == buf[0..SIZE_OF_SIGNATURE];
      assert buf[ProofStart(i)..] == buf[ProofStart(i)..|buf|];
      assert shreds[i][ProofStart(i)..] == shreds[i][ProofStart(i)..|buf|];
      shreds := shreds[i := buf];
    }
  }
}
