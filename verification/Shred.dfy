/** The shred wire format: parser, Merkle/Ed25519 verifier and what a verified root commits to.
    Byte masks are written arithmetically: `b & 0x0f` is `b % 16`, `b & 0x80 != 0` is `b >= 128`. */
module Shred {
  import opened Common
  import opened ByteStrings
  import opened Merkle

  const SIZE_OF_SIGNATURE: nat := 64
  const SIZE_OF_COMMON_HEADER: nat := 83
  const SIZE_OF_RETRANSMITTER_SIG: nat := 64
  const SIZE_OF_MERKLE_ROOT: nat := 32
  const DATA_SHREDS_PER_FEC: nat := 32
  const SHREDS_PER_FEC: nat := 64
  const DATA_SHRED_PAYLOAD_SIZE: nat := 1203
  const CODING_SHRED_PAYLOAD_SIZE: nat := 1228
  const DATA_SHRED_FLAGS_OFFSET: nat := 85
  const TWO_32: nat := 0x1_0000_0000

  type Signature = s: Bytes | |s| == SIZE_OF_SIGNATURE witness Zeros(64)

  /** SHA-256 and Ed25519 as arbitrary functions; of all signatures only `SignaturesVerify` is ever assumed. */
  datatype Crypto = Crypto(
    sha: Sha,
    validKey: Hash -> bool,
    verify: (Hash, Hash, Signature) -> bool,
    publicKey: Bytes -> Hash,
    sign: (Bytes, Hash) -> Signature)

  /** Verification accepts what the matching secret key signed. */
  ghost predicate SignaturesVerify(c: Crypto) {
    forall sk: Bytes, m: Hash {:trigger c.sign(sk, m)} ::
      c.validKey(c.publicKey(sk)) && c.verify(c.publicKey(sk), m, c.sign(sk, m))
  }

  datatype ShredError =
    | PayloadTooSmall(size: nat)
    | UnknownVariant(byte: Byte)
    | InvalidPubkeyBytes
    | RootMismatch
    | SignatureVerifyFailed
    | ProofSizeOverflow(proofSize: nat)

  datatype ShredKind = Data | Code

  datatype ShredVariant = ShredVariant(kind: ShredKind, proofSize: nat, chained: bool, resigned: bool)

  function DecodeVariant(b: Byte): Result<ShredVariant, ShredError> {
    var proofSize := b % 16;
    match b / 16
    case 6 => Ok(ShredVariant(Code, proofSize, true, false))
    case 7 => Ok(ShredVariant(Code, proofSize, true, true))
    case 9 => Ok(ShredVariant(Data, proofSize, true, false))
    case 11 => Ok(ShredVariant(Data, proofSize, true, true))
    case _ => Err(UnknownVariant(b))
  }

  function EncodeVariant(v: ShredVariant): Byte {
    var hi := match (v.kind, v.resigned)
      case (Code, false) => 0x60
      case (Code, true) => 0x70
      case (Data, false) => 0x90
      case (Data, true) => 0xb0;
    hi + v.proofSize % 16
  }

  /** The variant byte and its decoded form determine each other on the accepted bytes. */
  lemma VariantRoundTrip(v: ShredVariant, b: Byte)
    ensures v.chained && v.proofSize < 16 ==> DecodeVariant(EncodeVariant(v)) == Ok(v)
    ensures DecodeVariant(b).Ok? ==> EncodeVariant(DecodeVariant(b).value) == b
    ensures DecodeVariant(b).Ok? <==> b / 16 in {6, 7, 9, 11}
  {
  }

  /** The variant byte, nibble by nibble. */
  lemma VariantNibbles(b: Byte)
    ensures DecodeVariant(b) ==
      if b / 16 !in {0x6, 0x7, 0x9, 0xb} then Err(UnknownVariant(b))
      else Ok(ShredVariant(if b / 16 >= 0x9 then Data else Code, b % 16, true, b / 16 == 0x7 || b / 16 == 0xb))
  {
  }

  datatype CommonHeader = CommonHeader(
    signature: Signature, variant: ShredVariant, slot: nat, index: nat, version: nat, fecSetIndex: nat)

  datatype ParsedShred = ParsedShred(
    header: CommonHeader,
    proofStart: nat,   // the leaf covers [64, proofStart)
    proofEnd: nat,
    chainedRoot: Option<Hash>,
    erasureShardIndex: nat,
    dataFlags: Option<Byte>)

  /** `u32` subtraction of a release build. */
  function WrappingSub32(a: nat, b: nat): (r: nat)
    ensures r < TWO_32
  {
    (a - b) % TWO_32
  }

  function ExpectedLength(kind: ShredKind): nat {
    if kind.Data? then DATA_SHRED_PAYLOAD_SIZE else CODING_SHRED_PAYLOAD_SIZE
  }

  function ParseShred(raw: Bytes): (r: Result<ParsedShred, ShredError>)
    ensures r.Ok? ==>
      var p := r.value;
      && ExpectedLength(p.header.variant.kind) <= |raw|
      && SIZE_OF_SIGNATURE < p.proofStart <= p.proofEnd <= |raw|
      && p.proofEnd - p.proofStart == p.header.variant.proofSize * ENTRY
  {
    if |raw| < SIZE_OF_COMMON_HEADER then Err(PayloadTooSmall(|raw|)) else
    var dv := DecodeVariant(raw[64]);
    if dv.Err? then Err(dv.error) else
    var variant := dv.value;
    var header := CommonHeader(raw[..SIZE_OF_SIGNATURE], variant, FromLE(raw[65..73]), FromLE(raw[73..77]),
                               FromLE(raw[77..79]), FromLE(raw[79..83]));
    var expected := ExpectedLength(variant.kind);
    if |raw| < expected then Err(PayloadTooSmall(|raw|)) else
    var proofBytes := variant.proofSize * ENTRY;
    var resignBytes := if variant.resigned then SIZE_OF_RETRANSMITTER_SIG else 0;
    if proofBytes + resignBytes + SIZE_OF_SIGNATURE > expected then Err(ProofSizeOverflow(variant.proofSize)) else
    var proofEnd := expected - resignBytes;
    var proofStart := proofEnd - proofBytes;
    var chainedRoot := if variant.chained then Some(raw[proofStart - SIZE_OF_MERKLE_ROOT..proofStart]) else None;
    var erasure := match variant.kind
      case Data => WrappingSub32(header.index, header.fecSetIndex)
      case Code => DATA_SHREDS_PER_FEC + FromLE(raw[87..89]);
    var flags := if variant.kind.Data? then Some(raw[DATA_SHRED_FLAGS_OFFSET]) else None;
    Ok(ParsedShred(header, proofStart, proofEnd, chainedRoot, erasure, flags))
  }

  /** What the parser accepts: a long enough buffer with a known variant. The overflow error cannot occur. */
  lemma ParseAccepts(raw: Bytes)
    ensures ParseShred(raw).Ok? <==>
      && |raw| >= SIZE_OF_COMMON_HEADER && DecodeVariant(raw[64]).Ok?
      && |raw| >= ExpectedLength(DecodeVariant(raw[64]).value.kind)
    ensures ParseShred(raw).Err? ==> !ParseShred(raw).error.ProofSizeOverflow?
  {
  }

  /** Nothing of the header is lost or misplaced: the parsed fields encode back to the first 83 bytes, and
      position and flags come from the bytes behind them. */
  lemma HeaderReencodes(raw: Bytes)
    requires ParseShred(raw).Ok?
    ensures var p := ParseShred(raw).value;
      && EncodeHeader(p.header) == raw[..SIZE_OF_COMMON_HEADER]
      && match p.header.variant.kind
         case Data =>
           && p.dataFlags == Some(raw[85])
           && (p.header.fecSetIndex + p.erasureShardIndex) % TWO_32 == p.header.index
         case Code =>
           && p.dataFlags == None && p.erasureShardIndex >= 32
           && ToLE(p.erasureShardIndex - 32, 2) == raw[87..89]
  {
    HeaderBytes(raw);
    if ParseShred(raw).value.header.variant.kind.Data? {
      PositionFromIndex(raw);
    }
    EncodeDecode(raw[87..89]);
  }

  function EncodeHeader(h: CommonHeader): Bytes {
    h.signature + [EncodeVariant(h.variant)] + ToLE(h.slot, 8) + ToLE(h.index, 4)
    + ToLE(h.version, 2) + ToLE(h.fecSetIndex, 4)
  }

  lemma HeaderBytes(raw: Bytes)
    requires ParseShred(raw).Ok?
    ensures EncodeHeader(ParseShred(raw).value.header) == raw[..SIZE_OF_COMMON_HEADER]
  {
    VariantRoundTrip(ParseShred(raw).value.header.variant, raw[64]);
    EncodeDecode(raw[65..73]);
    EncodeDecode(raw[73..77]);
    EncodeDecode(raw[77..79]);
    EncodeDecode(raw[79..83]);
    SixParts(raw);
  }

  lemma SixParts(raw: Bytes)
    requires |raw| >= SIZE_OF_COMMON_HEADER
    ensures raw[..64] + [raw[64]] + raw[65..73] + raw[73..77] + raw[77..79] + raw[79..83]
         == raw[..SIZE_OF_COMMON_HEADER]
  {
    assert raw[..64] + [raw[64]] == raw[..65];
    assert raw[..65] + raw[65..73] == raw[..73];
    assert raw[..73] + raw[73..77] == raw[..77];
    assert raw[..77] + raw[77..79] == raw[..79];
  }

  lemma PositionFromIndex(raw: Bytes)
    requires ParseShred(raw).Ok? && ParseShred(raw).value.header.variant.kind.Data?
    ensures var p := ParseShred(raw).value;
      (p.header.fecSetIndex + p.erasureShardIndex) % TWO_32 == p.header.index
  {
    FromLEBound(raw[73..77]);
    Pow256Values();
    WrappingSubAdds(FromLE(raw[73..77]), FromLE(raw[79..83]));
  }

  lemma WrappingSubAdds(a: nat, b: nat)
    requires a < TWO_32
    ensures (b + WrappingSub32(a, b)) % TWO_32 == a
  {
  }

  /** The signed bytes determine everything parsed but the signature itself. */
  lemma SignedBytesDetermine(raw: Bytes, raw': Bytes)
    requires ParseShred(raw).Ok? && ParseShred(raw').Ok?
    requires raw[SIZE_OF_SIGNATURE..ParseShred(raw).value.proofStart]
          == raw'[SIZE_OF_SIGNATURE..ParseShred(raw').value.proofStart]
    ensures var p, p' := ParseShred(raw).value, ParseShred(raw').value;
      p' == p.(header := p.header.(signature := p'.header.signature))
  {
    var n := ParseShred(raw).value.proofStart;
    assert n == SIZE_OF_SIGNATURE + |raw'[SIZE_OF_SIGNATURE..ParseShred(raw').value.proofStart]|;
    assert raw[64] == raw[SIZE_OF_SIGNATURE..n][0] && raw[85] == raw[SIZE_OF_SIGNATURE..n][21];
    SubSlice(raw, raw', SIZE_OF_SIGNATURE, n, 65, 73);
    SubSlice(raw, raw', SIZE_OF_SIGNATURE, n, 73, 77);
    SubSlice(raw, raw', SIZE_OF_SIGNATURE, n, 77, 79);
    SubSlice(raw, raw', SIZE_OF_SIGNATURE, n, 79, 83);
    SubSlice(raw, raw', SIZE_OF_SIGNATURE, n, 87, 89);
    SubSlice(raw, raw', SIZE_OF_SIGNATURE, n, n - SIZE_OF_MERKLE_ROOT, n);
  }

  /** Where the tail is found, for every variant: a buffer made of a front, a chained root, a proof of the
      announced size, a retransmitter signature if resigned, and anything after, is taken apart again. */
  lemma TailTakenApart(v: ShredVariant, front: Bytes, chained: Hash, proof: Bytes, resign: Bytes, extra: Bytes)
    requires |front| >= 89 && front[64] == EncodeVariant(v) && v.chained && v.proofSize < 16
    requires |proof| == v.proofSize * ENTRY && |resign| == (if v.resigned then SIZE_OF_RETRANSMITTER_SIG else 0)
    requires |front| + |chained| + |proof| + |resign| == ExpectedLength(v.kind)
    ensures var raw := front + chained + proof + resign + extra;
      && ParseShred(raw).Ok?
      && var p := ParseShred(raw).value;
      && p.header.variant == v && p.header.signature == front[..64]
      && p.chainedRoot == Some(chained)
      && raw[p.proofStart..p.proofEnd] == proof
      && raw[SIZE_OF_SIGNATURE..p.proofStart] == front[SIZE_OF_SIGNATURE..] + chained
  {
    var raw := front + chained + proof + resign + extra;
    var n, m := |front|, |front| + 32;
    VariantRoundTrip(v, raw[64]);
    assert raw[64] == front[64] && raw[..64] == front[..64];
    assert raw[n..m] == chained;
    assert raw[m..m + |proof|] == proof;
    assert raw[64..m] == front[64..] + chained;
  }

  datatype VerifiedShred = VerifiedShred(
    slot: nat, fecSetIndex: nat, index: nat, erasureShardIndex: nat, merkleRoot: Hash,
    chainedRoot: Option<Hash>, kind: ShredKind, dataFlags: Option<Byte>)
  {
    /** A data shred carrying the LAST_SHRED_IN_SLOT bit (0b1000_0000). */
    predicate IsLastInSlot() { dataFlags.Some? && dataFlags.value >= 128 }
  }

  function LeafInput(raw: Bytes, proofStart: nat): Bytes
    requires SIZE_OF_SIGNATURE <= proofStart <= |raw|
  {
    LEAF_PREFIX + raw[SIZE_OF_SIGNATURE..proofStart]
  }

  function VerifyShred(c: Crypto, raw: Bytes, leader: Hash): Result<VerifiedShred, ShredError> {
    var parsed := ParseShred(raw);
    if parsed.Err? then Err(parsed.error) else
    var p := parsed.value;
    var leaf := c.sha(LeafInput(raw, p.proofStart));
    var root := RecoverRoot(c.sha, p.erasureShardIndex, leaf, raw[p.proofStart..p.proofEnd]);
    if root.Err? then Err(RootMismatch) else
    if !c.validKey(leader) then Err(InvalidPubkeyBytes) else
    if !c.verify(leader, root.value, p.header.signature) then Err(SignatureVerifyFailed) else
    Ok(VerifiedShred(p.header.slot, p.header.fecSetIndex, p.header.index, p.erasureShardIndex, root.value,
                     p.chainedRoot, p.header.variant.kind, p.dataFlags))
  }

  /** The strings hashed in verifying a shred: the leaf's and those on the way to the root. */
  function VerifyInputs(sha: Sha, raw: Bytes): set<Bytes>
    requires ParseShred(raw).Ok?
  {
    var p := ParseShred(raw).value;
    OpeningInputs(sha, p.erasureShardIndex, LeafInput(raw, p.proofStart), Chunks(raw[p.proofStart..p.proofEnd]))
  }

  /** What a verified root commits to: two verified shreds with one root, one erasure index and one
      proof size carry the same signed bytes and the same proof, or this returns two strings whose
      hashes collide on 20 bytes, one hashed in verifying each. */
  function CommitmentCollision(c: Crypto, raw: Bytes, raw': Bytes, leader: Hash, leader': Hash)
    : (found: Option<(Bytes, Bytes)>)
    requires VerifyShred(c, raw, leader).Ok? && VerifyShred(c, raw', leader').Ok?
    requires VerifyShred(c, raw, leader).value.merkleRoot == VerifyShred(c, raw', leader').value.merkleRoot
    requires ParseShred(raw).value.erasureShardIndex == ParseShred(raw').value.erasureShardIndex
    requires ParseShred(raw).value.header.variant.proofSize == ParseShred(raw').value.header.variant.proofSize
    ensures found.Some? ==>
      && Collides(c.sha, found.value.0, found.value.1)
      && found.value.0 in VerifyInputs(c.sha, raw) && found.value.1 in VerifyInputs(c.sha, raw')
    ensures found.None? ==>
      var p, p' := ParseShred(raw).value, ParseShred(raw').value;
      && raw[SIZE_OF_SIGNATURE..p.proofStart] == raw'[SIZE_OF_SIGNATURE..p'.proofStart]
      && raw[p.proofStart..p.proofEnd] == raw'[p'.proofStart..p'.proofEnd]
  {
    var p, p' := ParseShred(raw).value, ParseShred(raw').value;
    var x, y := LeafInput(raw, p.proofStart), LeafInput(raw', p'.proofStart);
    var es, es' := Chunks(raw[p.proofStart..p.proofEnd]), Chunks(raw'[p'.proofStart..p'.proofEnd]);
    var below := FindCollision(c.sha, p.erasureShardIndex, c.sha(x), es, c.sha(y), es');
    if below.Some? then below
    else if x != y then Some((x, y))
    else
      assert raw[SIZE_OF_SIGNATURE..p.proofStart] == x[|LEAF_PREFIX|..];
      assert raw'[SIZE_OF_SIGNATURE..p'.proofStart] == y[|LEAF_PREFIX|..];
      FlattenChunks(raw[p.proofStart..p.proofEnd]);
      FlattenChunks(raw'[p'.proofStart..p'.proofEnd]);
      None
  }
}
