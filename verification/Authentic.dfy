/** What is stored is authentic: packets from anyone, against the sets a leader built. No collision
    resistance is assumed: the alternative to each claim is a collision between strings that verifying the
    packets and building the sets hash. */
module Authentic {
  import opened Common
  import opened ByteStrings
  import opened Merkle
  import opened Shred
  import opened ReedSolomon
  import opened FecSet
  import opened RoundTrip
  import opened Assembler
  import opened AssemblerRuns
  import opened AssemblerHistory
  import opened EndToEnd
  import opened ManySets

  // ---------------------------------------------------------------- the stored region

  /** What the erasure code covers: up to the chained root, from the signature on in a data shred and from
      the coding header on in a coding shred. */
  function ErasureRegion(p: ParsedShred): (int, int) {
    (ShardOffset(p.header.variant.kind), p.proofStart - SIZE_OF_MERKLE_ROOT)
  }

  /** The fixed 987 bytes are the erasure region exactly in a shred with six proof entries that is not
      resigned: no resigned shred is stored right, whatever its proof size. */
  lemma FixedRegionIff(raw: Bytes)
    requires ParseShred(raw).Ok?
    ensures var p := ParseShred(raw).value;
      var off := ShardOffset(p.header.variant.kind);
      (off, off + ERASURE_SHARD_SIZE) == ErasureRegion(p) <==>
        p.header.variant.proofSize == 6 && !p.header.variant.resigned
  {
  }

  /** The root that the proof of a shred at position 0 leads to. */
  function RootAtZero(sha: Sha, body: Bytes, chained: Hash, proof: Bytes): Hash
    requires |proof| % ENTRY == 0
  {
    Climb(sha, 0, sha(LEAF_PREFIX + (body + chained)), Chunks(proof)).1
  }

  /** A resigned data shred whose signature covers the root that its own proof leads to. */
  function ResignedShred(c: Crypto, sk: Bytes, body: Bytes, chained: Hash, proof: Bytes, resign: Bytes): Bytes
    requires |proof| % ENTRY == 0
  {
    c.sign(sk, RootAtZero(c.sha, body, chained, proof)) + body + chained + proof + resign
  }

  /** Header and content of the first data shred of a set, resigned, with `k` proof entries. */
  predicate ResignedBody(body: Bytes, k: nat) {
    && k < 16 && |body| == 1043 - 20 * k
    && body[0] == EncodeVariant(ShredVariant(Data, k, true, true)) && body[9..13] == body[15..19]
  }

  lemma ResignedHeader(sig: Signature, body: Bytes, k: nat)
    requires ResignedBody(body, k)
    ensures var front := sig + body;
      && front[64] == body[0] && front[..64] == sig && front[64..] == body
      && front[65..73] == body[1..9] && front[73..77] == front[79..83]
  {
    var front := sig + body;
    assert front[73..77] == body[9..13] && front[79..83] == body[15..19];
  }

  lemma ResignedParses(sig: Signature, body: Bytes, k: nat, chained: Hash, proof: Bytes, resign: Bytes)
    requires ResignedBody(body, k) && |proof| == k * ENTRY && |resign| == SIZE_OF_RETRANSMITTER_SIG
    ensures var raw := sig + body + chained + proof + resign;
      && ParseShred(raw).Ok?
      && var p := ParseShred(raw).value;
      && p.header.variant == ShredVariant(Data, k, true, true)
      && p.header.signature == sig && p.header.slot == FromLE(body[1..9]) && p.erasureShardIndex == 0
      && raw[SIZE_OF_SIGNATURE..p.proofStart] == body + chained && raw[p.proofStart..p.proofEnd] == proof
  {
    var front, raw := sig + body, sig + body + chained + proof + resign;
    ResignedHeader(sig, body, k);
    assert raw == front + chained + proof + resign + [];
    TailTakenApart(ShredVariant(Data, k, true, true), front, chained, proof, resign, []);
    assert raw[65..73] == front[65..73] && raw[73..77] == front[73..77] && raw[79..83] == front[79..83];
  }

  lemma ResignedVerifies(c: Crypto, sk: Bytes, k: nat, body: Bytes, chained: Hash, proof: Bytes, resign: Bytes)
    requires SignaturesVerify(c) && ResignedBody(body, k)
    requires |proof| == k * ENTRY && |resign| == SIZE_OF_RETRANSMITTER_SIG
    ensures VerifyShred(c, ResignedShred(c, sk, body, chained, proof, resign), c.publicKey(sk)).Ok?
  {
    var root, leaf := RootAtZero(c.sha, body, chained, proof), c.sha(LEAF_PREFIX + (body + chained));
    ResignedParses(c.sign(sk, root), body, k, chained, proof, resign);
    ClimbIndex(c.sha, 0, leaf, Chunks(proof));
    AncestorBound(0, |Chunks(proof)|);
    assert c.verify(c.publicKey(sk), root, c.sign(sk, root));
    VerifyFromParts(c, ResignedShred(c, sk, body, chained, proof, resign), c.publicKey(sk), root);
  }

  lemma VerifiedIsAdmitted(env: Env, raw: Bytes)
    requires ParseShred(raw).Ok? && env.leader(ParseShred(raw).value.header.slot).Some?
    requires VerifyShred(env.crypto, raw, env.leader(ParseShred(raw).value.header.slot).value).Ok?
    ensures Admit(env, raw).Admitted?
  {
  }

  lemma ResignedRegion(sig: Signature, body: Bytes, k: nat, chained: Hash, proof: Bytes, resign: Bytes)
    requires ResignedBody(body, k) && |proof| == k * ENTRY && |resign| == SIZE_OF_RETRANSMITTER_SIG
    ensures var raw := sig + body + chained + proof + resign;
      && ParseShred(raw).Ok?
      && ErasureRegion(ParseShred(raw).value) == (SIZE_OF_SIGNATURE, SIZE_OF_SIGNATURE + |body|)
      && raw[SIZE_OF_SIGNATURE..SIZE_OF_SIGNATURE + |body|] == body
  {
    var raw := sig + body + chained + proof + resign;
    ResignedParses(sig, body, k, chained, proof, resign);
    var n := ParseShred(raw).value.proofStart;
    assert n - SIZE_OF_SIGNATURE == |raw[SIZE_OF_SIGNATURE..n]| == |body| + SIZE_OF_MERKLE_ROOT;
  }

  /** Any proof size and any content: such a shred signed by the slot's leader is admitted, and what is stored
      of it is not its erasure region. */
  lemma ResignedMisread(env: Env, sk: Bytes, k: nat, body: Bytes, chained: Hash, proof: Bytes, resign: Bytes)
    requires SignaturesVerify(env.crypto) && ResignedBody(body, k)
    requires |proof| == k * ENTRY && |resign| == SIZE_OF_RETRANSMITTER_SIG
    requires env.leader(FromLE(body[1..9])) == Some(env.crypto.publicKey(sk))
    ensures var raw := ResignedShred(env.crypto, sk, body, chained, proof, resign);
      && Admit(env, raw).Admitted?
      && ErasureRegion(ParseShred(raw).value) == (SIZE_OF_SIGNATURE, SIZE_OF_SIGNATURE + |body|)
      && raw[SIZE_OF_SIGNATURE..SIZE_OF_SIGNATURE + |body|] == body != Admit(env, raw).arrival.shard
  {
    var c := env.crypto;
    var sig := c.sign(sk, RootAtZero(c.sha, body, chained, proof));
    ResignedParses(sig, body, k, chained, proof, resign);
    ResignedRegion(sig, body, k, chained, proof, resign);
    ResignedVerifies(c, sk, k, body, chained, proof, resign);
    VerifiedIsAdmitted(env, ResignedShred(c, sk, body, chained, proof, resign));
  }

  /** Two admitted packets with one root, one index and one proof size are the same arrival, stored bytes
      included, or a string hashed in verifying one collides with one hashed in verifying the other. */
  lemma AdmittedBinding(env: Env, raw: Bytes, raw': Bytes)
    requires Admit(env, raw).Admitted? && Admit(env, raw').Admitted?
    requires Admit(env, raw).arrival.root == Admit(env, raw').arrival.root
    requires Admit(env, raw).arrival.index == Admit(env, raw').arrival.index
    requires ParseShred(raw).value.header.variant.proofSize == ParseShred(raw').value.header.variant.proofSize
    ensures Admit(env, raw) == Admit(env, raw') ||
      Clash(env.crypto.sha, VerifyInputs(env.crypto.sha, raw), VerifyInputs(env.crypto.sha, raw'))
  {
    var c, p, p' := env.crypto, ParseShred(raw).value, ParseShred(raw').value;
    var found := CommitmentCollision(c, raw, raw', env.leader(p.header.slot).value, env.leader(p'.header.slot).value);
    if found.None? {
      SameSignedSameArrival(env, raw, raw');
    }
  }

  lemma SameSignedSameArrival(env: Env, raw: Bytes, raw': Bytes)
    requires Admit(env, raw).Admitted? && ParseShred(raw').Ok?
    requires var p, p' := ParseShred(raw).value, ParseShred(raw').value;
      && raw[SIZE_OF_SIGNATURE..p.proofStart] == raw'[SIZE_OF_SIGNATURE..p'.proofStart]
      && raw[p.proofStart..p.proofEnd] == raw'[p'.proofStart..p'.proofEnd]
    ensures Admit(env, raw').Admitted? ==> Admit(env, raw) == Admit(env, raw')
  {
    var p := ParseShred(raw).value;
    SignedBytesDetermine(raw, raw');
    assert raw[SIZE_OF_SIGNATURE..p.proofEnd]
        == raw[SIZE_OF_SIGNATURE..p.proofStart] + raw[p.proofStart..p.proofEnd];
    assert raw'[SIZE_OF_SIGNATURE..p.proofEnd]
        == raw'[SIZE_OF_SIGNATURE..p.proofStart] + raw'[p.proofStart..p.proofEnd];
    var off := ShardOffset(p.header.variant.kind);
    SubSlice(raw, raw', SIZE_OF_SIGNATURE, p.proofEnd, off, off + ERASURE_SHARD_SIZE);
  }

  // ---------------------------------------------------------------- forgeries

  /** An admitted packet is an opening of its root at its own position. */
  lemma AdmittedOpening(env: Env, raw: Bytes)
    requires Admit(env, raw).Admitted?
    ensures var p, a := ParseShred(raw).value, Admit(env, raw).arrival;
      var es := Chunks(raw[p.proofStart..p.proofEnd]);
      && |es| == p.header.variant.proofSize
      && Climb(env.crypto.sha, a.index, env.crypto.sha(LeafInput(raw, p.proofStart)), es) == (0, a.root)
      && Ancestor(a.index, |es|) == 0
  {
    var p, a := ParseShred(raw).value, Admit(env, raw).arrival;
    var leaf := env.crypto.sha(LeafInput(raw, p.proofStart));
    ClimbIndex(env.crypto.sha, a.index, leaf, Chunks(raw[p.proofStart..p.proofEnd]));
  }

  lemma BuiltOpening(c: Crypto, p: FecSetParams, f: FecSet, i: nat)
    requires Sealed(c, p, f) && i < SHREDS_PER_FEC
    ensures var es := Path(c.sha, Leaves(c.sha, f.shreds), i);
      && |es| == 6
      && Climb(c.sha, i, c.sha(LeafInput(f.shreds[i], ProofStart(i))), es) == (0, f.merkleRoot)
  {
    assert Pow2(6) == 64;
    PathLength(c.sha, Leaves(c.sha, f.shreds), i, 6);
    ClimbReachesRoot(c.sha, Leaves(c.sha, f.shreds), i);
  }

  /** The leaf position of a six-level tree that shares a path with position `i`, `k` levels down. */
  function LeafOnPath(i: nat, k: nat): (j: nat)
    requires Ancestor(i, k) == 0
    ensures j < SHREDS_PER_FEC
    ensures k <= 6 ==> Ancestor(j, 6 - k) == i
    ensures k >= 6 ==> Ancestor(i, k - 6) == j
  {
    var j := if k <= 6 then Descendant(i, 6 - k) else Ancestor(i, k - 6);
    assert Ancestor(j, 6) == 0 by {
      if k <= 6 {
        AncestorOfDescendant(i, 6 - k);
        AncestorAdd(j, 6 - k, k);
      } else {
        AncestorAdd(i, k - 6, 6);
      }
    }
    AncestorBound(j, 6);
    assert Pow2(6) == 64;
    if k <= 6 then AncestorOfDescendant(i, 6 - k); j else j
  }

  /** The strings hashed in building a set: for its leaves and for the tree over them. */
  function BuildInputs(sha: Sha, shreds: seq<Bytes>): set<Bytes>
    requires Sized(shreds)
  {
    (set i | 0 <= i < SHREDS_PER_FEC :: LeafInput(shreds[i], ProofStart(i))) + TreeInputs(sha, Leaves(sha, shreds))
  }

  lemma BuiltInputs(c: Crypto, p: FecSetParams, f: FecSet, i: nat)
    requires Sealed(c, p, f) && i < SHREDS_PER_FEC
    ensures OpeningInputs(c.sha, i, LeafInput(f.shreds[i], ProofStart(i)), Path(c.sha, Leaves(c.sha, f.shreds), i))
         <= BuildInputs(c.sha, f.shreds)
  {
    assert Leaves(c.sha, f.shreds)[i] == Leaf(c.sha, f.shreds, i);
    PathInputs(c.sha, Leaves(c.sha, f.shreds), i);
  }

  /** Verifying a built shred hashes nothing that building its set did not. */
  lemma GenuineInputs(c: Crypto, rs: ErasureCode, payload: Bytes, p: FecSetParams, f: FecSet, i: nat)
    requires IsFecSet(c, rs, payload, p, f) && i < SHREDS_PER_FEC
    ensures ParseShred(f.shreds[i]).Ok? && VerifyInputs(c.sha, f.shreds[i]) <= BuildInputs(c.sha, f.shreds)
  {
    BuiltShredParses(c, rs, payload, p, f, i);
    BuiltLeafAndProof(c, p, f, i);
    ChunksFlatten(Path(c.sha, Leaves(c.sha, f.shreds), i));
    BuiltInputs(c, p, f, i);
  }

  lemma DepthClash(sha: Sha, i: nat, x: Bytes, es: seq<Entry>, j: nat, y: Bytes, es': seq<Entry>)
    requires |es| < |es'| && Ancestor(j, |es'| - |es|) == i && LEAF_PREFIX <= x
    requires Climb(sha, i, sha(x), es).1 == Climb(sha, j, sha(y), es').1
    ensures Clash(sha, OpeningInputs(sha, i, x, es), OpeningInputs(sha, j, y, es'))
  {
    var (v, w) := FindDepthCollision(sha, i, x, es, j, sha(y), es');
    assert v in OpeningInputs(sha, i, x, es) && w in OpeningInputs(sha, j, y, es');
  }

  lemma EqualClash(sha: Sha, i: nat, x: Bytes, es: seq<Entry>, y: Bytes, es': seq<Entry>)
    requires |es| == |es'| && Climb(sha, i, sha(x), es).1 == Climb(sha, i, sha(y), es').1
    ensures (x == y && es == es') || Clash(sha, OpeningInputs(sha, i, x, es), OpeningInputs(sha, i, y, es'))
  {
    var found := FindCollision(sha, i, sha(x), es, sha(y), es');
    if found.Some? {
      var (v, w) := found.value;
      assert v in OpeningInputs(sha, i, x, es) && w in OpeningInputs(sha, i, y, es');
    } else if x != y {
      assert Collides(sha, x, y);
    }
  }

  /** Two openings with one root along one path, of any two lengths, are the same opening or clash. */
  lemma OpeningsMeet(sha: Sha, i: nat, x: Bytes, es: seq<Entry>, j: nat, y: Bytes, es': seq<Entry>)
    requires |es| <= |es'| ==> Ancestor(j, |es'| - |es|) == i
    requires |es| >= |es'| ==> Ancestor(i, |es| - |es'|) == j
    requires LEAF_PREFIX <= x && LEAF_PREFIX <= y
    requires Climb(sha, i, sha(x), es).1 == Climb(sha, j, sha(y), es').1
    ensures (i == j && x == y && es == es') || Clash(sha, OpeningInputs(sha, i, x, es), OpeningInputs(sha, j, y, es'))
  {
    if |es| < |es'| {
      DepthClash(sha, i, x, es, j, y, es');
    } else if |es| > |es'| {
      DepthClash(sha, j, y, es', i, x, es);
      ClashSwapped(sha, OpeningInputs(sha, j, y, es'), OpeningInputs(sha, i, x, es));
    } else {
      EqualClash(sha, i, x, es, y, es');
    }
  }

  /** Six entries fix the position: an opening on the path of a leaf of a six-level tree is that leaf's. */
  lemma OpensAsLeaf(sha: Sha, i: nat, x: Bytes, es: seq<Entry>, j: nat, y: Bytes, path: seq<Entry>, hashed: set<Bytes>)
    requires Ancestor(i, |es|) == 0 && j == LeafOnPath(i, |es|) && |path| == 6
    requires LEAF_PREFIX <= x && LEAF_PREFIX <= y
    requires Climb(sha, i, sha(x), es).1 == Climb(sha, j, sha(y), path).1
    requires OpeningInputs(sha, j, y, path) <= hashed && !Clash(sha, OpeningInputs(sha, i, x, es), hashed)
    ensures i == j && x == y && es == path
  {
    NoClashWithin(sha, OpeningInputs(sha, i, x, es), hashed, OpeningInputs(sha, j, y, path));
    OpeningsMeet(sha, i, x, es, j, y, path);
  }

  lemma LeafInputPrefixed(raw: Bytes, n: nat)
    requires SIZE_OF_SIGNATURE <= n <= |raw|
    ensures LEAF_PREFIX <= LeafInput(raw, n)
  {
  }

  /** An opening of the root of a built set, at any position and of any length, is that of a built shred. */
  lemma OpensAsBuilt(c: Crypto, p: FecSetParams, f: FecSet, i: nat, x: Bytes, es: seq<Entry>)
    requires Sealed(c, p, f) && LEAF_PREFIX <= x && Climb(c.sha, i, c.sha(x), es) == (0, f.merkleRoot)
    requires !Clash(c.sha, OpeningInputs(c.sha, i, x, es), BuildInputs(c.sha, f.shreds))
    ensures i < SHREDS_PER_FEC && x == LeafInput(f.shreds[i], ProofStart(i))
  {
    ClimbIndex(c.sha, i, c.sha(x), es);
    var j := LeafOnPath(i, |es|);
    var y, path := LeafInput(f.shreds[j], ProofStart(j)), Path(c.sha, Leaves(c.sha, f.shreds), j);
    LeafInputPrefixed(f.shreds[j], ProofStart(j));
    BuiltOpening(c, p, f, j);
    BuiltInputs(c, p, f, j);
    OpensAsLeaf(c.sha, i, x, es, j, y, path, BuildInputs(c.sha, f.shreds));
  }

  /** A packet admitted under the root of a built set: its signed bytes are those of the built shred at its
      position, or a string hashed in verifying it collides with one hashed in building the set. */
  lemma ForgeryClashes(env: Env, p: FecSetParams, f: FecSet, raw: Bytes)
    requires Sealed(env.crypto, p, f)
    requires Admit(env, raw).Admitted? && Admit(env, raw).arrival.root == f.merkleRoot
    requires !Clash(env.crypto.sha, VerifyInputs(env.crypto.sha, raw), BuildInputs(env.crypto.sha, f.shreds))
    ensures var q, i := ParseShred(raw).value, Admit(env, raw).arrival.index;
      && i < SHREDS_PER_FEC
      && raw[SIZE_OF_SIGNATURE..q.proofStart] == f.shreds[i][SIZE_OF_SIGNATURE..ProofStart(i)]
  {
    var c, q, i := env.crypto, ParseShred(raw).value, Admit(env, raw).arrival.index;
    AdmittedOpening(env, raw);
    OpensAsBuilt(c, p, f, i, LeafInput(raw, q.proofStart), Chunks(raw[q.proofStart..q.proofEnd]));
    SameLeafInput(raw, q.proofStart, f.shreds[i], ProofStart(i));
  }

  lemma NoClashWithin(sha: Sha, xs: set<Bytes>, ys: set<Bytes>, part: set<Bytes>)
    requires !Clash(sha, xs, ys) && part <= ys
    ensures !Clash(sha, xs, part)
  {
  }

  lemma SameLeafInput(raw: Bytes, n: nat, raw': Bytes, n': nat)
    requires SIZE_OF_SIGNATURE <= n <= |raw| && SIZE_OF_SIGNATURE <= n' <= |raw'|
    requires LeafInput(raw, n) == LeafInput(raw', n')
    ensures raw[SIZE_OF_SIGNATURE..n] == raw'[SIZE_OF_SIGNATURE..n']
  {
    assert raw[SIZE_OF_SIGNATURE..n] == LeafInput(raw, n)[|LEAF_PREFIX|..];
    assert raw'[SIZE_OF_SIGNATURE..n'] == LeafInput(raw', n')[|LEAF_PREFIX|..];
  }

  /** So whoever sent it, such a packet enters the history as the built shred at its position. */
  lemma AdmittedIsBuilt(env: Env, b: BuiltSet, raw: Bytes)
    requires IsFecSet(env.crypto, env.rs, b.payload, b.params, b.fec)
    requires Admit(env, raw).Admitted? && Admit(env, raw).arrival.root == b.fec.merkleRoot
    ensures var a, sha := Admit(env, raw).arrival, env.crypto.sha;
      || Clash(sha, VerifyInputs(sha, raw), BuildInputs(sha, b.fec.shreds))
      || (a.index < SHREDS_PER_FEC && a == BuiltArrival(b.params, b.fec, a.index))
  {
    var sha := env.crypto.sha;
    if !Clash(sha, VerifyInputs(sha, raw), BuildInputs(sha, b.fec.shreds)) {
      ForgeryClashes(env, b.params, b.fec, raw);
      ReadAsBuilt(env, b, raw);
    }
  }

  lemma ReadAsBuilt(env: Env, b: BuiltSet, raw: Bytes)
    requires IsFecSet(env.crypto, env.rs, b.payload, b.params, b.fec)
    requires Admit(env, raw).Admitted? && Admit(env, raw).arrival.root == b.fec.merkleRoot
    requires var q, i := ParseShred(raw).value, Admit(env, raw).arrival.index;
      && i < SHREDS_PER_FEC
      && raw[SIZE_OF_SIGNATURE..q.proofStart] == b.fec.shreds[i][SIZE_OF_SIGNATURE..ProofStart(i)]
    ensures var a := Admit(env, raw).arrival;
      a == BuiltArrival(b.params, b.fec, a.index)
  {
    var i := Admit(env, raw).arrival.index;
    BuiltShredParses(env.crypto, env.rs, b.payload, b.params, b.fec, i);
    SignedBytesDetermine(raw, b.fec.shreds[i]);
    var off := if i < 32 then SIZE_OF_SIGNATURE else 89;
    SubSlice(raw, b.fec.shreds[i], SIZE_OF_SIGNATURE, ProofStart(i), off, off + ERASURE_SHARD_SIZE);
  }

  // ---------------------------------------------------------------- any packets

  predicate IsBuiltRoot(sets: seq<BuiltSet>, root: Hash) {
    exists k :: 0 <= k < |sets| && sets[k].fec.merkleRoot == root
  }

  /** Every packet that passes verification opens the root of a built set. */
  ghost predicate Unforged(env: Env, sets: seq<BuiltSet>, raws: seq<Bytes>) {
    forall raw :: raw in raws && Admit(env, raw).Admitted? ==> IsBuiltRoot(sets, Admit(env, raw).arrival.root)
  }

  /** The strings hashed in verifying the packets that pass. */
  function PacketInputs(env: Env, raws: seq<Bytes>): set<Bytes> {
    set raw, x | raw in raws && Admit(env, raw).Admitted? && x in VerifyInputs(env.crypto.sha, raw) :: x
  }

  /** The strings hashed in building the sets. */
  function BuilderInputs(sha: Sha, sets: seq<BuiltSet>): set<Bytes>
    requires AllSized(sets)
  {
    set k, x | 0 <= k < |sets| && x in BuildInputs(sha, sets[k].fec.shreds) :: x
  }

  /** A string hashed in verifying an admitted packet collides with one hashed in building a set. */
  ghost predicate HashBroken(env: Env, sets: seq<BuiltSet>, raws: seq<Bytes>)
    requires AllSized(sets)
  {
    Clash(env.crypto.sha, PacketInputs(env, raws), BuilderInputs(env.crypto.sha, sets))
  }

  lemma PartUnbroken(env: Env, sets: seq<BuiltSet>, raws: seq<Bytes>, part: seq<Bytes>)
    requires AllSized(sets) && Unforged(env, sets, raws) && !HashBroken(env, sets, raws)
    requires forall raw :: raw in part ==> raw in raws
    ensures Unforged(env, sets, part) && !HashBroken(env, sets, part)
  {
    assert PacketInputs(env, part) <= PacketInputs(env, raws);
  }

  lemma PacketUnbroken(env: Env, sets: seq<BuiltSet>, raws: seq<Bytes>, raw: Bytes, k: nat)
    requires AllSized(sets) && !HashBroken(env, sets, raws)
    requires raw in raws && Admit(env, raw).Admitted? && k < |sets|
    ensures !Clash(env.crypto.sha, VerifyInputs(env.crypto.sha, raw), BuildInputs(env.crypto.sha, sets[k].fec.shreds))
  {
    var sha := env.crypto.sha;
    assert VerifyInputs(sha, raw) <= PacketInputs(env, raws);
    assert BuildInputs(sha, sets[k].fec.shreds) <= BuilderInputs(sha, sets);
  }

  lemma PickOfPacket(env: Env, sets: seq<BuiltSet>, raws: seq<Bytes>, raw: Bytes) returns (d: Pick)
    requires AllBuilt(env, sets) && Unforged(env, sets, raws) && !HashBroken(env, sets, raws)
    requires raw in raws && Admit(env, raw).Admitted?
    ensures d.which < |sets| && d.shred < SHREDS_PER_FEC && Admit(env, raw) == Admitted(PickArrival(sets, d))
  {
    var a := Admit(env, raw).arrival;
    var k :| 0 <= k < |sets| && sets[k].fec.merkleRoot == a.root;
    PacketUnbroken(env, sets, raws, raw, k);
    AdmittedIsBuilt(env, sets[k], raw);
    d := Pick(k, a.index);
  }

  lemma ExtendHistory(sets: seq<BuiltSet>, order: seq<Pick>, d: Pick)
    requires AllSized(sets) && ValidPicks(sets, order) && d.which < |sets| && d.shred < SHREDS_PER_FEC
    ensures ValidPicks(sets, order + [d])
    ensures History(sets, order + [d]) == History(sets, order) + [PickArrival(sets, d)]
  {
  }

  /** Whatever packets come, the admitted ones are a delivery of built shreds. */
  lemma {:induction false} AuthenticHistory(env: Env, sets: seq<BuiltSet>, raws: seq<Bytes>)
    returns (order: seq<Pick>)
    requires AllBuilt(env, sets) && Unforged(env, sets, raws) && !HashBroken(env, sets, raws)
    ensures ValidPicks(sets, order) && Arrivals(env, raws) == History(sets, order)
  {
    order := [];
    if raws != [] {
      var head, raw := raws[..|raws| - 1], raws[|raws| - 1];
      PartUnbroken(env, sets, raws, head);
      order := AuthenticHistory(env, sets, head);
      if Admit(env, raw).Admitted? {
        var d := PickOfPacket(env, sets, raws, raw);
        ExtendHistory(sets, order, d);
        order := order + [d];
      }
    }
  }

  /** What shred `i` of a set contributes to its codeword. */
  ghost function Symbol(env: Env, b: BuiltSet, i: nat): Shard
    requires Sized(b.fec.shreds) && i < SHREDS_PER_FEC
  {
    if i < 32 then DataShards(b.fec.shreds)[i] else env.rs.encode(DataShards(b.fec.shreds))[i - 32]
  }

  /** Every filled position of every set's table holds the symbol of the builder's codeword at that position. */
  ghost predicate StoredIsBuilt(env: Env, sets: seq<BuiltSet>, s: AState)
    requires AllSized(sets)
  {
    forall k, i :: 0 <= k < |sets| && 0 <= i < 64 && FecOf(s, SetKey(sets[k])).shards[i].Some? ==>
      FecOf(s, SetKey(sets[k])).shards[i].value == Symbol(env, sets[k], i)
  }

  lemma {:induction false} StoredFrom(h: seq<Arrival>, key: FecKey, i: nat)
    requires Stored(h, key, i).Some?
    ensures exists a :: a in h && KeyOf(a) == key && a.index == i && Stored(h, key, i) == Some(a.shard)
  {
    var head, last := h[..|h| - 1], h[|h| - 1];
    assert h == head + [last];
    if Stored(head, key, i).Some? {
      StoredFrom(head, key, i);
      var a :| a in head && KeyOf(a) == key && a.index == i && Stored(head, key, i) == Some(a.shard);
      assert a in h;
    } else {
      assert last in h;
    }
  }

  lemma HistoryStores(env: Env, sets: seq<BuiltSet>, order: seq<Pick>)
    requires AllBuilt(env, sets) && ValidPicks(sets, order) && RecoversFromHalf(env.rs)
    ensures StoredIsBuilt(env, sets, Run(env, History(sets, order)).state)
  {
    var h := History(sets, order);
    var s := Run(env, h).state;
    forall k, i | 0 <= k < |sets| && 0 <= i < 64 && FecOf(s, SetKey(sets[k])).shards[i].Some?
      ensures FecOf(s, SetKey(sets[k])).shards[i].value == Symbol(env, sets[k], i)
    {
      FecRefinement(env, h, SetKey(sets[k]));
      StoredFrom(h, SetKey(sets[k]), i);
      var a :| a in h && KeyOf(a) == SetKey(sets[k]) && a.index == i && Stored(h, SetKey(sets[k]), i) == Some(a.shard);
      var d := PickOf(sets, order, a);
      SameKeySameSet(sets, d.which, k);
      BuiltShardIsCodeword(env, sets[k].payload, sets[k].params, sets[k].fec, i);
    }
  }

  /** The shreds of a set that are among the packets, byte for byte. */
  function Genuine(b: BuiltSet, raws: seq<Bytes>): set<nat>
    requires Sized(b.fec.shreds)
  {
    set i: nat | i < SHREDS_PER_FEC && b.fec.shreds[i] in raws
  }

  lemma {:induction false} AdmittedArrives(env: Env, raws: seq<Bytes>, raw: Bytes)
    requires raw in raws && Admit(env, raw).Admitted?
    ensures Admit(env, raw).arrival in Arrivals(env, raws)
  {
    var head := raws[..|raws| - 1];
    assert raws == head + [raws[|raws| - 1]];
    if raw != raws[|raws| - 1] {
      AdmittedArrives(env, head, raw);
    }
  }

  lemma GenuineCounted(env: Env, sets: seq<BuiltSet>, raws: seq<Bytes>, order: seq<Pick>, k: nat)
    requires AllBuilt(env, sets) && ValidPicks(sets, order) && Arrivals(env, raws) == History(sets, order)
    requires SignaturesVerify(env.crypto) && k < |sets|
    ensures Genuine(sets[k], raws) <= Got(order, k)
  {
    forall i | i in Genuine(sets[k], raws)
      ensures i in Got(order, k)
    {
      var b := sets[k];
      BuiltShredAdmitted(env, b.payload, b.params, b.fec, i);
      AdmittedArrives(env, raws, b.fec.shreds[i]);
      var d := PickOf(sets, order, BuiltArrival(b.params, b.fec, i));
      SameKeySameSet(sets, d.which, k);
    }
  }

  /** The run over the packets is that of a delivery of built shreds that includes every genuine shred among
      them: its finalizations and reconstructions are those of `BuiltSetsDelivered`, and only codeword symbols
      are stored. */
  ghost predicate RunsAs(
    env: Env, sets: seq<BuiltSet>, raws: seq<Bytes>, order: seq<Pick>, slot: nat, at: Option<nat>)
    requires AllSized(sets)
  {
    && ValidPicks(sets, order) && Arrivals(env, raws) == History(sets, order)
    && (forall k :: 0 <= k < |sets| ==> Genuine(sets[k], raws) <= Got(order, k))
    && FinalizedExactly(env, sets, order, slot, Finals(RunRaw(env, raws).log, slot), at)
    && RebuiltExactly(sets, order, RunRaw(env, raws).log)
    && StoredIsBuilt(env, sets, RunRaw(env, raws).state)
  }

  lemma UnbrokenRun(env: Env, sets: seq<BuiltSet>, raws: seq<Bytes>, slot: nat)
    returns (order: seq<Pick>, at: Option<nat>)
    requires AllBuilt(env, sets) && Unforged(env, sets, raws) && !HashBroken(env, sets, raws)
    requires SignaturesVerify(env.crypto) && RecoversFromHalf(env.rs)
    ensures RunsAs(env, sets, raws, order, slot, at)
  {
    order := AuthenticHistory(env, sets, raws);
    forall key
      ensures Rebuilds(RunRaw(env, raws).log, key) == Rebuilds(Run(env, History(sets, order)).log, key)
    {
      RawRebuilds(env, raws, key);
    }
    forall k | 0 <= k < |sets|
      ensures Genuine(sets[k], raws) <= Got(order, k)
    {
      GenuineCounted(env, sets, raws, order, k);
    }
    RawRun(env, raws, slot, FecKey(0, 0));
    HistoryRebuilds(env, sets, order);
    HistoryStores(env, sets, order);
    at := HistoryFinals(env, sets, order, slot);
  }

  /** End to end against anyone: packets of any content, number and order, of which those that verify open
      built roots. The run is that of a delivery of built shreds, or a string hashed in verifying a packet
      collides with one hashed in building a set. */
  lemma AuthenticRun(env: Env, sets: seq<BuiltSet>, raws: seq<Bytes>, slot: nat)
    returns (order: seq<Pick>, at: Option<nat>)
    requires AllBuilt(env, sets) && Unforged(env, sets, raws)
    requires SignaturesVerify(env.crypto) && RecoversFromHalf(env.rs)
    ensures HashBroken(env, sets, raws) || RunsAs(env, sets, raws, order, slot, at)
  {
    order, at := [], None;
    if !HashBroken(env, sets, raws) {
      order, at := UnbrokenRun(env, sets, raws, slot);
    }
  }

  /** Noise cannot keep a set out: with 32 of its shreds among the packets, whatever else is, the set is
      reconstructed with its builder's root, once. */
  lemma NoiseHarmless(env: Env, sets: seq<BuiltSet>, raws: seq<Bytes>, k: nat)
    requires AllBuilt(env, sets) && Unforged(env, sets, raws)
    requires SignaturesVerify(env.crypto) && RecoversFromHalf(env.rs)
    requires k < |sets| && |Genuine(sets[k], raws)| >= 32
    ensures HashBroken(env, sets, raws) || Rebuilds(RunRaw(env, raws).log, SetKey(sets[k])) == SetRebuilds(sets[k], 32)
  {
    if !HashBroken(env, sets, raws) {
      var order, at := UnbrokenRun(env, sets, raws, 0);
      SubsetCardinality(Genuine(sets[k], raws), Got(order, k));
    }
  }

  /** 32 shreds of every set of the slot, and a marked one, are among the packets. */
  ghost predicate SlotSupplied(sets: seq<BuiltSet>, raws: seq<Bytes>, slot: nat)
    requires AllSized(sets)
  {
    && (forall k :: 0 <= k < |sets| && sets[k].params.slot == slot ==> |Genuine(sets[k], raws)| >= 32)
    && exists k, i :: 0 <= k < |sets| && sets[k].params.slot == slot && sets[k].params.flags >= 128
         && i in Genuine(sets[k], raws) && i < 32
  }

  lemma SuppliedFinishes(sets: seq<BuiltSet>, raws: seq<Bytes>, order: seq<Pick>, slot: nat)
    requires AllSized(sets) && ValidPicks(sets, order) && SlotSupplied(sets, raws, slot)
    requires forall k :: 0 <= k < |sets| ==> Genuine(sets[k], raws) <= Got(order, k)
    ensures Finished(sets, order, slot)
  {
    var k, i :| 0 <= k < |sets| && sets[k].params.slot == slot && sets[k].params.flags >= 128
      && i in Genuine(sets[k], raws) && i < 32;
    assert i in Got(order, k);
    assert Pick(k, i) in order && InSlot(sets, Pick(k, i), slot);
    assert sets[k].params.fecSetIndex in MarkedSets(sets, order, slot);
    forall j | 0 <= j < |sets| && IsDue(sets, order, slot, j)
      ensures |Got(order, j)| >= 32
    {
      SubsetCardinality(Genuine(sets[j], raws), Got(order, j));
    }
  }

  lemma FinishedIsFinal(
    env: Env, sets: seq<BuiltSet>, order: seq<Pick>, slot: nat, finals: seq<FecEvent>, at: Option<nat>)
    requires ValidPicks(sets, order) && Finished(sets, order, slot)
    requires FinalizedExactly(env, sets, order, slot, finals, at)
    ensures at.Some? && |finals| == 1
  {
    assert order[..|order|] == order;
  }

  /** Nor can it keep a slot open: if the packets supply it, the slot is finalized, once, where the run first
      finishes it, with the roots of the built sets seen by then. */
  lemma NoiseFinalizes(env: Env, sets: seq<BuiltSet>, raws: seq<Bytes>, slot: nat)
    returns (order: seq<Pick>, q: nat)
    requires AllBuilt(env, sets) && Unforged(env, sets, raws) && SlotSupplied(sets, raws, slot)
    requires SignaturesVerify(env.crypto) && RecoversFromHalf(env.rs)
    ensures HashBroken(env, sets, raws) || RunsAs(env, sets, raws, order, slot, Some(q))
    ensures HashBroken(env, sets, raws) || |Finals(RunRaw(env, raws).log, slot)| == 1
  {
    order, q := [], 0;
    if !HashBroken(env, sets, raws) {
      var at;
      order, at := UnbrokenRun(env, sets, raws, slot);
      SuppliedFinishes(sets, raws, order, slot);
      FinishedIsFinal(env, sets, order, slot, Finals(RunRaw(env, raws).log, slot), at);
      q := at.value;
    }
  }
}
