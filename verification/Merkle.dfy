/** The domain-separated, 20-byte-truncated Merkle tree: the builder and prover of
    `fec_set.rs`, the verifier of `shred/lib.rs` and the slot-level `aggregate_root`.
    SHA-256 is an arbitrary function `sha`, so every statement holds for any hash. */
module Merkle {
  import opened Common
  import opened ByteStrings

  const ENTRY: nat := 20

  type Hash = h: Bytes | |h| == 32 witness Zeros(32)
  type Entry = e: Bytes | |e| == ENTRY witness Zeros(20)
  type Sha = Bytes -> Hash

  datatype MerkleError = MerkleRootMismatch

  // 0x01 followed by the ASCII string SOLANA_MERKLE_SHREDS_NODE
  const NODE_PREFIX: Bytes :=
    [1, 83, 79, 76, 65, 78, 65, 95, 77, 69, 82, 75, 76, 69, 95, 83, 72, 82, 69, 68, 83, 95, 78, 79, 68, 69]
  // 0x00 followed by the ASCII string SOLANA_MERKLE_SHREDS_LEAF
  const LEAF_PREFIX: Bytes :=
    [0, 83, 79, 76, 65, 78, 65, 95, 77, 69, 82, 75, 76, 69, 95, 83, 72, 82, 69, 68, 83, 95, 76, 69, 65, 70]

  function Truncate(h: Hash): Entry { h[..ENTRY] }

  function NodeInput(left: Entry, right: Entry): Bytes { NODE_PREFIX + left + right }

  function NodeHash(sha: Sha, left: Entry, right: Entry): Hash { sha(NodeInput(left, right)) }

  lemma NodeInputInjective(l: Entry, r: Entry, l': Entry, r': Entry)
    requires NodeInput(l, r) == NodeInput(l', r')
    ensures l == l' && r == r'
  {
    var n := |NODE_PREFIX|;
    assert NodeInput(l, r)[n..n + ENTRY] == l && NodeInput(l', r')[n..n + ENTRY] == l';
    assert NodeInput(l, r)[n + ENTRY..] == r && NodeInput(l', r')[n + ENTRY..] == r';
  }

  // ---------------------------------------------------------------- tree shape

  /** What is hashed for parent `k` of a level: the last node of an odd level is paired with itself. */
  function ParentInput(level: seq<Hash>, k: nat): Bytes
    requires 2 * k < |level|
  {
    var right := if 2 * k + 1 < |level| then 2 * k + 1 else 2 * k;
    NodeInput(Truncate(level[2 * k]), Truncate(level[right]))
  }

  function Parent(sha: Sha, level: seq<Hash>, k: nat): Hash
    requires 2 * k < |level|
  {
    sha(ParentInput(level, k))
  }

  function Up(sha: Sha, level: seq<Hash>): (r: seq<Hash>)
    ensures |r| == (|level| + 1) / 2
    ensures forall k :: 0 <= k < |r| ==> r[k] == Parent(sha, level, k)
  {
    seq((|level| + 1) / 2, k requires 0 <= k < (|level| + 1) / 2 => Parent(sha, level, k))
  }

  /** The root commitment of a non-empty list of hashes. */
  function Root(sha: Sha, level: seq<Hash>): Hash
    requires level != []
    decreases |level|
  {
    if |level| == 1 then level[0] else Root(sha, Up(sha, level))
  }

  function FlipLow(i: nat): nat { if i % 2 == 0 then i + 1 else i - 1 }

  function Sibling(i: nat, n: nat): (s: nat)
    requires i < n
    ensures s < n
  {
    if FlipLow(i) < n then FlipLow(i) else n - 1
  }

  /** The authentication path of position `i`, bottom-up. */
  function Path(sha: Sha, level: seq<Hash>, i: nat): seq<Entry>
    requires i < |level|
    decreases |level|
  {
    if |level| == 1 then []
    else [Truncate(level[Sibling(i, |level|)])] + Path(sha, Up(sha, level), i / 2)
  }

  function Flatten(es: seq<Entry>): Bytes {
    if es == [] then [] else es[0] + Flatten(es[1..])
  }

  function Chunks(b: Bytes): (es: seq<Entry>)
    requires |b| % ENTRY == 0
    ensures |es| * ENTRY == |b|
    decreases |b|
  {
    if b == [] then [] else [b[..ENTRY]] + Chunks(b[ENTRY..])
  }

  lemma {:induction false} ChunksFlatten(es: seq<Entry>)
    ensures |Flatten(es)| == |es| * ENTRY
    ensures Chunks(Flatten(es)) == es
  {
    if es != [] {
      ChunksFlatten(es[1..]);
      assert Flatten(es)[..ENTRY] == es[0];
      assert Flatten(es)[ENTRY..] == Flatten(es[1..]);
      assert es == [es[0]] + es[1..];
    }
  }

  lemma {:induction false} FlattenChunks(b: Bytes)
    requires |b| % ENTRY == 0
    ensures Flatten(Chunks(b)) == b
    decreases |b|
  {
    if b != [] {
      FlattenChunks(b[ENTRY..]);
      assert Chunks(b)[1..] == Chunks(b[ENTRY..]);
    }
  }

  lemma {:induction false} FlattenAppend(es: seq<Entry>, e: Entry)
    ensures Flatten(es + [e]) == Flatten(es) + e
  {
    if es == [] {
      assert ([e])[1..] == [];
      assert Flatten([e]) == e + [];
    } else {
      FlattenAppend(es[1..], e);
      assert (es + [e])[1..] == es[1..] + [e];
      assert (es[0] + Flatten(es[1..])) + e == es[0] + (Flatten(es[1..]) + e);
    }
  }

  // ---------------------------------------------------------------- verifier

  function StepNode(sha: Sha, i: nat, node: Hash, e: Entry): Hash {
    if i % 2 == 0 then NodeHash(sha, Truncate(node), e) else NodeHash(sha, e, Truncate(node))
  }

  /** Residual index and node after folding `es` over a leaf at position `i`. */
  function Climb(sha: Sha, i: nat, node: Hash, es: seq<Entry>): (nat, Hash)
    decreases |es|
  {
    if es == [] then (i, node)
    else Climb(sha, i / 2, StepNode(sha, i, node, es[0]), es[1..])
  }

  function RecoverRoot(sha: Sha, i: nat, leaf: Hash, proof: Bytes): Result<Hash, MerkleError> {
    if |proof| % ENTRY != 0 then Err(MerkleRootMismatch)
    else
      var (residual, node) := Climb(sha, i, leaf, Chunks(proof));
      if residual != 0 then Err(MerkleRootMismatch) else Ok(node)
  }

  /** `compute_merkle_root`: fold the proof over the leaf, halving the index. */
  method ComputeMerkleRoot(sha: Sha, leafIndex: nat, leaf: Hash, proof: Bytes)
    returns (r: Result<Hash, MerkleError>)
    ensures r == RecoverRoot(sha, leafIndex, leaf, proof)
  {
    if |proof| % ENTRY != 0 {
      return Err(MerkleRootMismatch);
    }
    var index, node, off := leafIndex, leaf, 0;
    while off < |proof|
      invariant off <= |proof| && (|proof| - off) % ENTRY == 0
      invariant Climb(sha, index, node, Chunks(proof[off..])) == Climb(sha, leafIndex, leaf, Chunks(proof))
    {
      var chunk := proof[off..off + ENTRY];
      assert proof[off..][..ENTRY] == chunk && proof[off..][ENTRY..] == proof[off + ENTRY..];
      node := StepNode(sha, index, node, chunk);
      index := index / 2;
      off := off + ENTRY;
    }
    assert proof[off..] == [];
    if index != 0 {
      return Err(MerkleRootMismatch);
    }
    return Ok(node);
  }

  // ---------------------------------------------------------------- builder

  datatype Tree = Tree(levels: seq<seq<Hash>>, root: Hash)

  /** Level 0 is the leaves, each next level holds the parents, the last is the root alone. */
  ghost predicate IsTree(sha: Sha, leaves: seq<Hash>, t: Tree) {
    && |t.levels| > 0 && t.levels[0] == leaves
    && (forall k :: 0 <= k < |t.levels| ==> t.levels[k] != [])
    && (forall k :: 0 <= k < |t.levels| - 1 ==>
          |t.levels[k]| > 1 && t.levels[k + 1] == Up(sha, t.levels[k]))
    && t.levels[|t.levels| - 1] == [t.root]
  }

  method NextLevel(sha: Sha, last: seq<Hash>) returns (next: seq<Hash>)
    ensures next == Up(sha, last)
  {
    next := [];
    var c := 0;
    while c < |last|
      invariant c % 2 == 0 && |next| == c / 2 && c <= |last| + 1
      invariant forall k :: 0 <= k < |next| ==> next[k] == Parent(sha, last, k)
    {
      var a := last[c];
      var b := if c + 1 < |last| then last[c + 1] else last[c];
      next := next + [NodeHash(sha, Truncate(a), Truncate(b))];
      c := c + 2;
    }
  }

  /** `build_tree`. */
  method BuildTree(sha: Sha, leaves: seq<Hash>) returns (t: Tree)
    requires leaves != []
    ensures IsTree(sha, leaves, t)
  {
    var levels := [leaves];
    while |levels[|levels| - 1]| > 1
      invariant |levels| > 0 && levels[0] == leaves
      invariant forall k :: 0 <= k < |levels| ==> levels[k] != []
      invariant forall k :: 0 <= k < |levels| - 1 ==> |levels[k]| > 1 && levels[k + 1] == Up(sha, levels[k])
      decreases |levels[|levels| - 1]|
    {
      var next := NextLevel(sha, levels[|levels| - 1]);
      levels := levels + [next];
    }
    var top := levels[|levels| - 1];
    assert top == [top[0]];
    t := Tree(levels, top[0]);
  }

  lemma {:induction false} TreeFrom(sha: Sha, leaves: seq<Hash>, t: Tree, k: nat)
    requires IsTree(sha, leaves, t) && k < |t.levels|
    ensures Root(sha, t.levels[k]) == t.root
    decreases |t.levels| - k
  {
    if k + 1 < |t.levels| {
      TreeFrom(sha, leaves, t, k + 1);
      assert t.levels[k + 1] == Up(sha, t.levels[k]);
    }
  }

  lemma PathStep(sha: Sha, level: seq<Hash>, i: nat, es: seq<Entry>)
    requires i < |level| && |level| > 1
    ensures es + Path(sha, level, i) ==
      es + [Truncate(level[Sibling(i, |level|)])] + Path(sha, Up(sha, level), i / 2)
  {
  }

  /** `merkle_proof`: walk the stored levels, collecting siblings while the index halves. */
  method MerkleProof(sha: Sha, ghost leaves: seq<Hash>, t: Tree, i: nat) returns (out: Bytes)
    requires IsTree(sha, leaves, t) && i < |leaves|
    ensures out == Flatten(Path(sha, leaves, i))
  {
    out := [];
    ghost var es: seq<Entry> := [];
    var index: nat, l: nat := i, 0;
    while l < |t.levels| && |t.levels[l]| > 1
      invariant l < |t.levels| && index < |t.levels[l]|
      invariant out == Flatten(es)
      invariant es + Path(sha, t.levels[l], index) == Path(sha, leaves, i)
      decreases |t.levels| - l
    {
      var level := t.levels[l];
      var s := level[Sibling(index, |level|)];
      PathStep(sha, level, index, es);
      FlattenAppend(es, Truncate(s));
      es := es + [Truncate(s)];
      out := out + Truncate(s);
      assert l + 1 < |t.levels|;
      index := index / 2;
      l := l + 1;
    }
    assert Path(sha, t.levels[l], index) == [];
    assert es + [] == es;
  }

  /** `aggregate_root`: the same ladder keeping only the current layer; 32 zero bytes for no roots. */
  method AggregateRoot(sha: Sha, roots: seq<Hash>) returns (r: Hash)
    ensures r == SlotRoot(sha, roots)
  {
    if roots == [] {
      return Zeros(32);
    }
    var layer := roots;
    while |layer| > 1
      invariant layer != [] && Root(sha, layer) == Root(sha, roots)
      decreases |layer|
    {
      layer := NextLevel(sha, layer);
    }
    r := layer[0];
  }

  function SlotRoot(sha: Sha, roots: seq<Hash>): Hash {
    if roots == [] then Zeros(32) else Root(sha, roots)
  }

  // ---------------------------------------------------------------- in bytes

  lemma NodePrefix()
    ensures NODE_PREFIX == [1] + Ascii("SOLANA_MERKLE_SHREDS_NODE")
  {
  }

  lemma LeafPrefix()
    ensures LEAF_PREFIX == [0] + Ascii("SOLANA_MERKLE_SHREDS_LEAF")
  {
  }

  /** The verifier, entry by entry, down to the bytes hashed: the node at an even index is the left child. */
  lemma RecoverEntry(sha: Sha, i: nat, leaf: Hash, e: Entry, rest: Bytes)
    requires |rest| % 20 == 0
    ensures RecoverRoot(sha, i, leaf, e + rest) ==
      var pair := if i % 2 == 0 then leaf[..20] + e else e + leaf[..20];
      RecoverRoot(sha, i / 2, sha([1] + Ascii("SOLANA_MERKLE_SHREDS_NODE") + pair), rest)
  {
    NodePrefix();
    var proof := e + rest;
    assert proof[..ENTRY] == e && proof[ENTRY..] == rest;
    assert NODE_PREFIX + leaf[..20] + e == NODE_PREFIX + (leaf[..20] + e);
    assert NODE_PREFIX + e + leaf[..20] == NODE_PREFIX + (e + leaf[..20]);
    assert Chunks(proof) == [e] + Chunks(rest);
    assert Chunks(proof)[1..] == Chunks(rest);
  }

  function Pow2(k: nat): (r: nat)
    ensures r >= 1
  {
    if k == 0 then 1 else 2 * Pow2(k - 1)
  }

  /** A proof leads to a root exactly if it is whole entries and has one for each bit of the index; an empty
      one leads to the leaf. */
  lemma RecoverAccepts(sha: Sha, i: nat, leaf: Hash, proof: Bytes)
    ensures RecoverRoot(sha, i, leaf, proof).Ok? <==> |proof| % 20 == 0 && i < Pow2(|proof| / 20)
    ensures RecoverRoot(sha, 0, leaf, []) == Ok(leaf)
  {
    if |proof| % 20 == 0 {
      ClimbIndex(sha, i, leaf, Chunks(proof));
      AncestorBound(i, |Chunks(proof)|);
    }
  }

  /** What the hashes of a layer are: each pair's truncations in order, the odd one with itself. */
  ghost predicate LayerAbove(sha: Sha, layer: seq<Hash>, above: seq<Hash>) {
    && |above| == (|layer| + 1) / 2
    && forall k :: 0 <= k < |above| ==>
         above[k] == sha([1] + Ascii("SOLANA_MERKLE_SHREDS_NODE") + layer[2 * k][..20]
                         + layer[if 2 * k + 1 < |layer| then 2 * k + 1 else 2 * k][..20])
  }

  /** The aggregate root, layer by layer, down to the bytes hashed; an odd layer is as if its last hash were
      there twice. */
  lemma SlotRootLayers(sha: Sha, roots: seq<Hash>, above: seq<Hash>)
    ensures SlotRoot(sha, []) == Zeros(32)
    ensures |roots| == 1 ==> SlotRoot(sha, roots) == roots[0]
    ensures |roots| > 1 && LayerAbove(sha, roots, above) ==> SlotRoot(sha, roots) == SlotRoot(sha, above)
    ensures |roots| > 1 && |roots| % 2 == 1 ==> SlotRoot(sha, roots) == SlotRoot(sha, roots + [roots[|roots| - 1]])
  {
    NodePrefix();
    if |roots| > 1 {
      if LayerAbove(sha, roots, above) {
        assert above == Up(sha, roots);
      }
      if |roots| % 2 == 1 {
        assert Up(sha, roots) == Up(sha, roots + [roots[|roots| - 1]]);
      }
    }
  }

  // ---------------------------------------------------------------- theorems

  /** One level: folding the sibling over position `i` gives the parent's node. */
  lemma StepIsParent(sha: Sha, level: seq<Hash>, i: nat)
    requires i < |level| && |level| > 1
    ensures StepNode(sha, i, level[i], Truncate(level[Sibling(i, |level|)])) == Up(sha, level)[i / 2]
  {
  }

  lemma {:induction false} ClimbReachesRoot(sha: Sha, level: seq<Hash>, i: nat)
    requires i < |level|
    ensures Climb(sha, i, level[i], Path(sha, level, i)) == (0, Root(sha, level))
    decreases |level|
  {
    if |level| > 1 {
      var es := Path(sha, level, i);
      StepIsParent(sha, level, i);
      assert es[1..] == Path(sha, Up(sha, level), i / 2);
      ClimbReachesRoot(sha, Up(sha, level), i / 2);
    }
  }

  lemma RecoverFromEntries(sha: Sha, i: nat, leaf: Hash, es: seq<Entry>, root: Hash)
    requires Climb(sha, i, leaf, es) == (0, root)
    ensures RecoverRoot(sha, i, leaf, Flatten(es)) == Ok(root)
  {
    ChunksFlatten(es);
    assert (|es| * ENTRY) % ENTRY == 0;
  }

  lemma PathAccepted(sha: Sha, leaves: seq<Hash>, i: nat)
    requires i < |leaves|
    ensures RecoverRoot(sha, i, leaves[i], Flatten(Path(sha, leaves, i))) == Ok(Root(sha, leaves))
  {
    ClimbReachesRoot(sha, leaves, i);
    RecoverFromEntries(sha, i, leaves[i], Path(sha, leaves, i), Root(sha, leaves));
  }

  /** Completeness: for any non-empty leaf list, odd levels included, the proof built for
      position `i` is accepted at `i` and yields the tree's root. */
  lemma ProofAccepted(sha: Sha, leaves: seq<Hash>, t: Tree, i: nat)
    requires IsTree(sha, leaves, t) && i < |leaves|
    ensures RecoverRoot(sha, i, leaves[i], Flatten(Path(sha, leaves, i))) == Ok(t.root)
  {
    PathAccepted(sha, leaves, i);
    TreeFrom(sha, leaves, t, 0);
  }

  /** The two implementations of the ladder agree, so every listed root has a proof that
      the shred verifier checks against the slot root. */
  lemma SlotRootMembership(sha: Sha, roots: seq<Hash>, t: Tree, i: nat)
    requires IsTree(sha, roots, t) && i < |roots|
    ensures SlotRoot(sha, roots) == t.root
    ensures RecoverRoot(sha, i, roots[i], Flatten(Path(sha, roots, i))) == Ok(SlotRoot(sha, roots))
  {
    TreeFrom(sha, roots, t, 0);
    ProofAccepted(sha, roots, t, i);
  }

  lemma {:induction false} PathLength(sha: Sha, level: seq<Hash>, i: nat, k: nat)
    requires i < |level| && |level| == Pow2(k)
    ensures |Path(sha, level, i)| == k
    decreases k
  {
    if k > 0 {
      PathLength(sha, Up(sha, level), i / 2, k - 1);
    }
  }

  // ---------------------------------------------------------------- binding

  /** Two distinct strings whose hashes agree on the 20 bytes the tree keeps. */
  predicate Collides(sha: Sha, x: Bytes, y: Bytes) {
    x != y && Truncate(sha(x)) == Truncate(sha(y))
  }

  function StepInput(i: nat, node: Hash, e: Entry): Bytes {
    if i % 2 == 0 then NodeInput(Truncate(node), e) else NodeInput(e, Truncate(node))
  }

  lemma StepInputInjective(i: nat, node: Hash, e: Entry, node': Hash, e': Entry)
    requires StepInput(i, node, e) == StepInput(i, node', e')
    ensures Truncate(node) == Truncate(node') && e == e'
  {
    if i % 2 == 0 {
      NodeInputInjective(Truncate(node), e, Truncate(node'), e');
    } else {
      NodeInputInjective(e, Truncate(node), e', Truncate(node'));
    }
  }

  /** The strings hashed on the way up an opening. */
  function Inputs(sha: Sha, i: nat, leaf: Hash, es: seq<Entry>): set<Bytes>
    decreases |es|
  {
    if es == [] then {}
    else {StepInput(i, leaf, es[0])} + Inputs(sha, i / 2, StepNode(sha, i, leaf, es[0]), es[1..])
  }

  /** The same with the string hashed for the leaf. */
  function OpeningInputs(sha: Sha, i: nat, leafInput: Bytes, es: seq<Entry>): set<Bytes> {
    {leafInput} + Inputs(sha, i, sha(leafInput), es)
  }

  /** The strings hashed in building a tree. */
  function TreeInputs(sha: Sha, level: seq<Hash>): set<Bytes>
    requires level != []
    decreases |level|
  {
    if |level| == 1 then {}
    else (set k | 0 <= k < (|level| + 1) / 2 :: ParentInput(level, k)) + TreeInputs(sha, Up(sha, level))
  }

  lemma {:induction false} PathInputs(sha: Sha, level: seq<Hash>, i: nat)
    requires i < |level|
    ensures Inputs(sha, i, level[i], Path(sha, level, i)) <= TreeInputs(sha, level)
    decreases |level|
  {
    if |level| > 1 {
      var es := Path(sha, level, i);
      StepIsParent(sha, level, i);
      assert es[1..] == Path(sha, Up(sha, level), i / 2);
      assert StepInput(i, level[i], es[0]) == ParentInput(level, i / 2);
      PathInputs(sha, Up(sha, level), i / 2);
    }
  }

  /** Two of the strings, one from each set, collide. */
  ghost predicate Clash(sha: Sha, xs: set<Bytes>, ys: set<Bytes>) {
    exists x, y :: x in xs && y in ys && Collides(sha, x, y)
  }

  lemma ClashSwapped(sha: Sha, xs: set<Bytes>, ys: set<Bytes>)
    requires Clash(sha, xs, ys)
    ensures Clash(sha, ys, xs)
  {
    var x, y :| x in xs && y in ys && Collides(sha, x, y);
    assert Collides(sha, y, x);
  }

  /** Binding as a reduction: given two openings of equal length at one index that reach the same
      node, either they agree entry by entry (and on the 20 bytes of the leaf the tree keeps; on the
      whole leaf when there are no entries), or this returns two node inputs that collide, one from
      each opening. */
  function FindCollision(sha: Sha, i: nat, leaf: Hash, es: seq<Entry>, leaf': Hash, es': seq<Entry>)
    : (c: Option<(Bytes, Bytes)>)
    requires |es| == |es'|
    requires Climb(sha, i, leaf, es).1 == Climb(sha, i, leaf', es').1
    ensures c.Some? ==>
      && Collides(sha, c.value.0, c.value.1)
      && c.value.0 in Inputs(sha, i, leaf, es) && c.value.1 in Inputs(sha, i, leaf', es')
    ensures c.None? ==> es == es' && Truncate(leaf) == Truncate(leaf') && (es == [] ==> leaf == leaf')
    decreases |es|
  {
    if es == [] then None
    else
      var x, y := StepInput(i, leaf, es[0]), StepInput(i, leaf', es'[0]);
      var above := FindCollision(sha, i / 2, StepNode(sha, i, leaf, es[0]), es[1..],
                                 StepNode(sha, i, leaf', es'[0]), es'[1..]);
      if above.Some? then above
      else if x != y then Some((x, y))
      else
        StepInputInjective(i, leaf, es[0], leaf', es'[0]);
        assert es == [es[0]] + es[1..] && es' == [es'[0]] + es'[1..];
        None
  }

  // ---------------------------------------------------------------- depth

  /** The position `d` levels above `i`. */
  function Ancestor(i: nat, d: nat): nat {
    if d == 0 then i else Ancestor(i / 2, d - 1)
  }

  lemma {:induction false} ClimbIndex(sha: Sha, i: nat, node: Hash, es: seq<Entry>)
    ensures Climb(sha, i, node, es).0 == Ancestor(i, |es|)
    decreases |es|
  {
    if es != [] {
      ClimbIndex(sha, i / 2, StepNode(sha, i, node, es[0]), es[1..]);
    }
  }

  lemma {:induction false} AncestorBound(i: nat, d: nat)
    ensures Ancestor(i, d) == 0 <==> i < Pow2(d)
  {
    if d > 0 {
      AncestorBound(i / 2, d - 1);
    }
  }

  /** The leftmost position `d` levels below `i`. */
  function Descendant(i: nat, d: nat): nat {
    if d == 0 then i else 2 * Descendant(i, d - 1)
  }

  lemma {:induction false} AncestorOfDescendant(i: nat, d: nat)
    ensures Ancestor(Descendant(i, d), d) == i
  {
    if d > 0 {
      AncestorOfDescendant(i, d - 1);
    }
  }

  lemma {:induction false} AncestorAdd(i: nat, d: nat, e: nat)
    ensures Ancestor(i, d + e) == Ancestor(Ancestor(i, d), e)
  {
    if d > 0 {
      AncestorAdd(i / 2, d - 1, e);
    }
  }

  /** The prefixes keep leaves and nodes apart: if the leaf of one opening lies on the path of a longer
      opening with the same root, two colliding strings are returned, one from each opening. */
  function FindDepthCollision(
    sha: Sha, i: nat, leafInput: Bytes, es: seq<Entry>, j: nat, leaf: Hash, es': seq<Entry>)
    : (c: (Bytes, Bytes))
    requires |es| < |es'| && Ancestor(j, |es'| - |es|) == i
    requires LEAF_PREFIX <= leafInput
    requires Climb(sha, i, sha(leafInput), es).1 == Climb(sha, j, leaf, es').1
    ensures Collides(sha, c.0, c.1)
    ensures c.0 in OpeningInputs(sha, i, leafInput, es)
    ensures c.1 in Inputs(sha, j, leaf, es')
    decreases |es'|
  {
    var nodeInput := StepInput(j, leaf, es'[0]);
    if |es'| == |es| + 1 then
      assert Ancestor(j, 1) == Ancestor(j / 2, 0);
      var above := FindCollision(sha, i, sha(leafInput), es, sha(nodeInput), es'[1..]);
      assert leafInput[0] == 0 && nodeInput[0] == 1;
      if above.Some? then above.value else (leafInput, nodeInput)
    else
      FindDepthCollision(sha, i, leafInput, es, j / 2, sha(nodeInput), es'[1..])
  }
}
