# Lattica in Dafny

A model of the logic of Lattica, the validator-adjacent layer that harvests Solana shreds and
lattice-hash deltas, with proofs of what it promises. The theorems are over all inputs, all runs or
all reachable states. `dafny verify dfyconfig.toml` checks the whole project.

## What is modelled

- **Shred wire format** (`Shred.dfy`, `FecSet.dfy`, `RoundTrip.dfy`): the variant byte, the parser and
  verifier, the constructor that fills 64 buffers slice by slice, and the proof that parser and verifier
  undo the constructor byte for byte.
- **Merkle ladder** (`Merkle.dfy`): builder, prover, verifier and the slot-level `aggregate_root`, with
  odd nodes paired with themselves and children cut to 20 bytes; completeness for any leaf count, and
  binding as a reduction that returns a collision, for openings of equal and of different length.
- **FEC/slot assembler** (`Assembler.dfy`): a class with the two maps of the source. `Step` is the meaning
  of one `ingest` on values; the class is proved to take exactly those steps and carries its history and
  event log as ghost state. `AssemblerRuns.dfy` proves what holds for any erasure decoder,
  `AssemblerHistory.dfy` describes state and finalizations as functions of the delivered shreds alone,
  `Admission.dfy` says of which packets, by their bytes, shreds are delivered and why the others are refused,
  `EndToEnd.dfy` goes from raw packets to events, and `AssemblerLog.dfy` gives the whole log, rejections
  included, as a function of the packets.
- **Delivery** (`ManySets.dfy`, `Coverage.dfy`, `Authentic.dfy`): shreds of any number of built sets,
  interleaved and repeated, and exactly what the assembler emits for them; the deliveries in which a
  finalization leaves a produced set out; and the same run among packets from anyone.
- **Sampling confidence** (`Das.dfy`), over the reals.
- **Lattice hash** (`LtHash.dfy`, `AccountState.dfy`) and **slot verifier** (`Attest.dfy`): limb arrays
  mixed in place, agreement of the incremental delta with a full recomputation over the account map, and
  exactly when tampering with a transition list goes unnoticed.
- **Leader cache** (`LeaderCache.dfy`): fill and eviction, and every interleaving of threads.
- **Instruction builder** (`LiquidatePerp.dfy`): the ordered, deduplicated remaining accounts.

## What is assumed

SHA-256, Blake3 and its XOF, Ed25519 and the Reed-Solomon code are arbitrary functions passed in as values.
No injectivity or collision resistance is assumed anywhere: where it would be needed, the alternative is
stated, a collision between strings that the packets or accounts in question make the code hash. Four facts
appear as named hypotheses where they are needed: `SignaturesVerify` (a signature by a key verifies under
it), `Unforged` (each of the given packets that verifies opens the root of a built set), `RecoversFromHalf`
(any 32 of 64 equal-length shards reconstruct) and `Honest` (an RPC response is the leader schedule, possibly
cut short). The leader of a slot is a function of the slot. Integer widths are explicit; `u32` and `u64`
additions and subtractions wrap as in a release build, so the constructor/parser round trip holds for every
`fec_set_index`, not only those with room for 31 more.

## Where code and documentation disagree

The model follows the code.

- `SlotFinalized` is documented as "all FEC sets in the slot have been reconstructed"; the code considers
  only the sets of which some shred was seen, and of these only those up to the last marked one. Packets of
  two built sets show each way of failing (`UnseenSetsSkipped`, `SetsBeyondMarkerSkipped`), and
  `CoverageIff` says exactly when all produced sets are covered.
- The assembler takes the same 987 bytes of every accepted shred, but these are the erasure-coded region only
  with six proof entries and no retransmitter signature (`FixedRegionIff`). Resigned data shreds are admitted
  with other bytes stored for them (`ResignedMisread`).
- `verify_slot_delta` is documented to notice every missing or extra transition; it misses exactly those
  whose two sides hash alike (`DropSensitivity`, `AddSensitivity`, `SilentTransition`), such as closing an
  account without lamports (`MissingTransitionUnnoticed`). One that changes a live account is missed only
  where its two sides break the XOF (`UnnoticedTransition`, `UnnoticedAddition`).
- After a successful fetch `leader_for_slot` may still answer nothing: `FetchedYetUnanswered` is a run of full
  batches that ends so, `FetchedNoneIff` gives the condition on the cache before the call, and `BatchAnswers`
  with `BatchFits` say when a batch is always answered.
- The field `das_confidence` is documented as the probability of going undetected; the code stores its
  complement. The sampling table of the repository's README gives 0.467 for 4 samples and 1.5e-6 for 16; the
  formula gives less than 0.05 and less than 7e-7 (`TableEntries`).
- A payload that is too large is reported as `PayloadTooSmall`.

## Model

| member | source | states |
|---|---|---|
| ByteStrings.ByteOfLE | crates/shred/src/fec_set.rs:111-118 | byte j of an integer field has weight 256^j: fields are written low-order byte first |
| Merkle.ComputeMerkleRoot | crates/shred/src/lib.rs:249-276 | the loop over 20-byte chunks returns the fold of the proof over the leaf, refusing a ragged proof or an index that does not end at zero |
| Merkle.BuildTree | crates/shred/src/fec_set.rs:228-247 | level 0 is the leaves, each level holds the parents of the one below with the odd node paired with itself, the last is the root alone |
| Merkle.MerkleProof | crates/shred/src/fec_set.rs:249-261 | the collected bytes are the authentication path of the position |
| Merkle.AggregateRoot | crates/listener/src/lib.rs:342-361 | the layer-by-layer ladder computes the recursive root; 32 zero bytes for no roots |
| Merkle.ProofAccepted | crates/shred/src/fec_set.rs:228-261 | completeness: for every non-empty leaf list, odd levels included, and every position, the built proof is accepted there and gives the root of the built tree |
| Merkle.SlotRootMembership | crates/listener/src/lib.rs:339-361 | the aggregate root equals the root of the tree builder, and every listed root has a proof the shred verifier checks against it |
| Merkle.RecoverEntry | crates/shred/src/lib.rs:257-270 | one proof entry in bytes: at an even index the node is the left child, at an odd one the right, hashed behind 0x01 and the ASCII prefix with the first 20 bytes of each |
| Merkle.RecoverAccepts | crates/shred/src/lib.rs:254-275 | a proof leads to a root exactly if it is whole 20-byte entries and the index is below two to their number |
| Merkle.SlotRootLayers | crates/listener/src/lib.rs:342-361 | the aggregate root layer by layer in bytes: pairs in order, an odd layer as if its last hash were there twice, a single root itself, zeros for none |
| Merkle.FindCollision | crates/shred/src/lib.rs:249-276 | binding: two equal-length openings at one index with one root agree on every entry and on the kept leaf bytes (the whole leaf for an empty proof), or two colliding node inputs are returned, one hashed on the way up each opening |
| Merkle.FindDepthCollision | crates/shred/src/lib.rs:39-40 | the leaf and node prefixes separate: when one opening's leaf lies on the path of a longer opening with the same root, a colliding pair is returned, one string hashed for the first opening, its leaf included, and one on the way up the second |
| Shred.VariantRoundTrip | crates/shred/src/lib.rs:93-115 | variant byte and decoded variant determine each other; only the four chained kinds decode |
| Shred.VariantNibbles | crates/shred/src/lib.rs:93-104 | which upper half of the byte means which kind and whether resigned, and that the lower half is the proof size |
| Shred.HeaderReencodes | crates/shred/src/lib.rs:157-227 | the parsed header encodes back to the first 83 bytes, the position of a data shred added to its set index gives its index modulo 2^32, that of a coding shred less 32 is its position field, and the flags are byte 85 of a data shred |
| Shred.SignedBytesDetermine | crates/shred/src/lib.rs:188-237 | two parsed shreds with the same signed bytes parse alike, ranges and chained root included, up to the signature |
| Shred.ParseAccepts | crates/shred/src/lib.rs:157-193 | parsing succeeds exactly for a long enough buffer with a known variant; the overflow error cannot occur |
| Shred.TailTakenApart | crates/shred/src/lib.rs:188-210 | for every variant, resigned ones included, chained root, proof and leaf range are found where a concatenation put them |
| Shred.CommitmentCollision | crates/shred/src/lib.rs:279-299 | two verified shreds with one root, index and proof size carry the same signed bytes and proof, or a colliding pair is returned, one string hashed in verifying each |
| Admission.ParseExact | crates/shred/src/lib.rs:157-237 | each parse error with its value, in terms of length and byte 64; otherwise every field and range, read off the bytes |
| Admission.VerifyExact | crates/shred/src/lib.rs:239-299 | the verdict check by check: position within the proof, valid key, signature by it over the root that the hash of the bytes behind the signature leads to |
| Admission.AdmittedIsSigned | crates/listener/src/lib.rs:137-228 | a packet is admitted exactly if the leader of its slot signed the root it leads to, and what is then kept of it |
| Admission.RefusalExact | crates/listener/src/lib.rs:137-158 | why any other packet is refused, the first reason that applies |
| Admission.SignatureDecides | crates/listener/src/lib.rs:448-456 | a built shred under any signature and any valid leader key: admitted as built if the one verifies under the other over the root, refused for its signature if not |
| Admission.UnsignedLeaveNothing | crates/listener/src/lib.rs:137-158 | packets of which none is signed by its slot's leader leave an empty state and one rejection each |
| FecSet.BuildFecSet | crates/shred/src/fec_set.rs:82-220 | fails exactly above 32 * 963 bytes; otherwise every byte of the 64 shreds is as laid out, the root is over all 64 leaves, each shred holds its own proof and the signature |
| FecSet.FillDataShred | crates/shred/src/fec_set.rs:108-133 | the ten slice writes give the whole data layout, padding included |
| FecSet.FillCodeHeader | crates/shred/src/fec_set.rs:136-156 | the nine slice writes give the coding header and chained root |
| FecSet.FillBodies | crates/shred/src/fec_set.rs:102-176 | data layouts, then coding layouts over the parity of the data regions |
| FecSet.WriteProofs | crates/shred/src/fec_set.rs:193-203 | writing the proofs leaves every hashed region untouched |
| FecSet.WriteSignature | crates/shred/src/fec_set.rs:205-210 | writing the signature leaves every hashed region and every proof untouched |
| RoundTrip.BuiltShredParses | crates/shred/src/lib.rs:157-237 | every built shred parses to the given slot, version, set index, chained root, flags and its own position, with the leaf range the builder hashed |
| RoundTrip.BuiltShredVerifies | crates/shred/src/lib.rs:279-299 | every built shred verifies under the leader's key and yields the builder's root |
| RoundTrip.DataShredOnWire | crates/shred/src/fec_set.rs:108-133 | every byte of a data shred up to the proof at its literal offset, the payload bytes and the zeros behind them included |
| RoundTrip.CodeShredOnWire | crates/shred/src/fec_set.rs:136-176 | every byte of a coding shred up to the proof, its parity over bytes 64 to 1051 of the data shreds |
| RoundTrip.FullShred | crates/shred/src/fec_set.rs:121-129 | data shred i carries payload bytes 963 i to 963 (i + 1), with size field 1051, if they exist |
| RoundTrip.PayloadRecovered | crates/shred/src/fec_set.rs:121-129 | the regions delimited by the written size fields concatenate to the payload |
| Das.DasConfidence | crates/listener/src/lib.rs:371-382 | the loop computes one minus the running product, one from 32 on |
| Das.SamplingLaw | crates/listener/src/lib.rs:375-381 | the running product is C(published, n) / C(total, n), binomials by Pascal's rule |
| Das.SamplingBound | README.md:22-28 | n samples leave at most 2^-n undetected and nothing exactly from 32 on, so the early return is the product's value |
| Assembler.FecAssembler.Ingest | crates/listener/src/lib.rs:135-271 | one call takes exactly one `Step`, and history and log grow by the packet and its events |
| Assembler.FecAssembler.Store | crates/listener/src/lib.rs:189-269 | root check, range check, duplicate check, storing and reconstruction as `Absorb` describes |
| Assembler.FecAssembler.TryFinalizeSlot | crates/listener/src/lib.rs:283-336 | the two loops decide and report as `TryFinalize` describes, flag first |
| AssemblerRuns.AcceptShape | crates/listener/src/lib.rs:166-187 | the flag is set and the event emitted exactly when the slot becomes ready, and the exits after setting the flag are never taken |
| AssemblerRuns.FinalizedOnce | crates/listener/src/lib.rs:273-336 | for any decoder: a ready slot is finalized, and the flag is set exactly when one SlotFinalized of the slot is in the log |
| AssemblerRuns.SlotIndependence | crates/listener/src/lib.rs:159-187 | interleaving other slots changes neither the state kept for a slot nor what is emitted while processing it |
| AssemblerRuns.EventGrammar | crates/listener/src/lib.rs:179-256 | per set: one Started, acceptances counted 1, 2, ... with distinct indices, then at most one Reconstructed with 32 or more and nothing after; the counter is the number of filled positions |
| AssemblerHistory.FecRefinement | crates/listener/src/lib.rs:159-269 | reconstructed exactly when 32 distinct indices below 64 arrived under the key's first root; root, counter and table are functions of the history |
| AssemblerHistory.StoredIsFirst | crates/listener/src/lib.rs:229-233 | the stored shard at an index is the first matching arrival there, unless 32 were in already |
| AssemblerHistory.SlotRefinement | crates/listener/src/lib.rs:166-177 | seen sets, last marker, reconstructed sets and readiness as functions of the history |
| AssemblerHistory.FinalizationExact | crates/listener/src/lib.rs:283-336 | SlotFinalized is emitted at the first complete prefix and never otherwise, with the first roots of the then-seen sets in ascending order, their aggregate root, 32 shreds a set and confidence one |
| AssemblerHistory.FinalizedNonEmpty | crates/listener/src/lib.rs:306-315 | a finalization lists at least one root, one for each awaited set |
| AssemblerHistory.FinalizedRootsProvable | crates/listener/src/lib.rs:327-335 | each listed root has a proof that the shred verifier checks against the slot root |
| AssemblerHistory.CoverageIff | crates/listener/src/lib.rs:52-54 | the one SlotFinalized of a run reports every produced set, each reconstructed by then, exactly when at the first complete prefix a shred of each had been seen and none lay beyond the last marker |
| AssemblerLog.OpenRefinement | crates/listener/src/lib.rs:189-269 | for any decoder: a set is closed exactly once a new index made 32 or more and the decoder recovered it; until then table and counter are what was delivered |
| AssemblerLog.ClosedAtHalf | crates/listener/src/lib.rs:240-256 | with a decoder that recovers from half, a set is closed exactly from 32 distinct indices on |
| AssemblerLog.StepLog | crates/listener/src/lib.rs:179-269 | for any decoder: each arrival adds its set's events, acceptances and rejections as the history says, then at most a finalization of its slot |
| AssemblerLog.RejectionsExact | crates/listener/src/lib.rs:192-268 | for any decoder: all rejections of a run, in order, as a function of the history |
| AssemblerLog.DivergingRootRejected | crates/listener/src/lib.rs:192-201 | a second root for an open set adds that one rejection and leaves the set as it was |
| AssemblerLog.OutOfRangeRejected | crates/listener/src/lib.rs:222-228 | so does a position of 64 or more, named in the rejection |
| AssemblerLog.DecoderFailureRejected | crates/listener/src/lib.rs:241-268 | a new index that makes 32 or more and that the decoder fails on is accepted, then rejected |
| AssemblerLog.LogExact | crates/listener/src/lib.rs:135-336 | with a decoder that recovers from half: the log of a run, event by event, is a function of what was delivered |
| AssemblerLog.AssemblerLogExact | crates/listener/src/lib.rs:135-336 | and the log of the running object is a function of the packets ingested, refusals with their reasons included |
| EndToEnd.RawRun | crates/listener/src/lib.rs:135-158 | the log is, packet by packet, one rejection with its reason for a refused packet and the events of an admitted one; refused packets change no state |
| EndToEnd.AssemblerGuarantee | crates/listener/src/lib.rs:135-336 | the object's finalizations, tables and events are those of the admitted part of whatever it ingested |
| EndToEnd.BuiltShredAdmitted | crates/listener/src/lib.rs:137-228 | each built shred is admitted with its own index, the builder's root and its erasure region |
| EndToEnd.BuiltShardIsCodeword | crates/listener/src/lib.rs:204-219 | the bytes stored of a built shred are its symbol of the builder's codeword, data or parity |
| EndToEnd.CoherentRun | crates/listener/src/lib.rs:192-269 | when the shreds of each key agree on the root and indices are in range, nothing is rejected and each key is reconstructed once, exactly from 32 distinct indices on |
| ManySets.BuiltSetsDelivered | crates/listener/src/lib.rs:135-336 | any interleaving, with repeats, of shreds of any number of built sets: nothing rejected, one Reconstructed a set with the builder's root exactly from 32 distinct shreds, and one SlotFinalized a slot, when the delivery first finishes it, with the roots of the seen sets up to the last marked one in order |
| ManySets.BuiltSetDelivered | crates/listener/src/lib.rs:135-336 | for one set in closed form: finalized with the set's root as slot root exactly if flagged, a data shred came and 32 distinct shreds did |
| Coverage.FinalizationStands | crates/listener/src/lib.rs:273-291 | once a slot is finalized, no later packets add to or change what was emitted for it |
| Coverage.UnseenSetsSkipped | crates/listener/src/lib.rs:52-54 | of two built sets of one slot, the higher one flagged and delivered first: its root alone is finalized, though the lower set is delivered and reconstructed after it |
| Coverage.SetsBeyondMarkerSkipped | crates/listener/src/lib.rs:166-177 | of two built sets, the lower one flagged: the lower root alone is finalized, though a shred of the higher set was seen before |
| Authentic.FixedRegionIff | crates/shred/src/fec_set.rs:21-22 | the 987 bytes the assembler takes are the erasure region exactly with six proof entries and no retransmitter signature |
| Authentic.ResignedMisread | crates/listener/src/lib.rs:204-219 | resigned data shreds of any proof size and content, signed by the slot's leader, that are admitted and stored with bytes other than their erasure region |
| Authentic.GenuineInputs | crates/shred/src/lib.rs:239-299 | verifying a built shred hashes only strings that building its set hashed |
| Authentic.AdmittedBinding | crates/listener/src/lib.rs:137-228 | two admitted packets with one root, index and proof size are the same arrival, stored bytes included, or a string hashed in verifying one collides with one hashed in verifying the other |
| Authentic.AdmittedIsBuilt | crates/shred/src/lib.rs:279-299 | a packet admitted under the root of a built set, with a proof of any length, is read as the built shred at its position, or a string hashed in verifying it collides with one hashed in building the set |
| Authentic.AuthenticRun | crates/listener/src/lib.rs:135-336 | arbitrary packets, of which those that verify open built roots: finalizations and reconstructions are those of a delivery of built shreds that includes every genuine one, and every stored shard is the builder's codeword symbol, or a string hashed in verifying a packet collides with one hashed in building a set |
| Authentic.NoiseHarmless | crates/listener/src/lib.rs:189-256 | a set with 32 of its shreds among such packets is reconstructed with its builder's root, once, or the hash is so broken |
| Authentic.NoiseFinalizes | crates/listener/src/lib.rs:273-336 | a slot of which such packets hold 32 shreds of every set and a flagged data shred is finalized once, with the roots of built sets, or the hash is so broken |
| LtHash.Accumulator.MixIn | crates/lthash/src/lib.rs:29-33 | the array becomes the limb-wise sum modulo 2^16 |
| LtHash.Accumulator.MixOut | crates/lthash/src/lib.rs:36-40 | the array becomes the limb-wise difference modulo 2^16 |
| LtHash.Accumulator.Checksum | crates/lthash/src/lib.rs:43-49 | the hash of the limbs in little-endian order |
| LtHash.Accumulator.MixTransition | crates/lthash/src/lib.rs:106-115 | adds h(new) - h(old), an absent side counting as the identity |
| LtHash.HashAccount | crates/lthash/src/lib.rs:75-93 | limb i is output bytes 2i and 2i+1, the low-order one first, of the XOF over lamports, data, executable, owner, key; zeros for no lamports |
| LtHash.HashIsOutput | crates/lthash/src/lib.rs:87-92 | the serialized hash of a live account is the XOF output itself |
| LtHash.MixInverse | crates/lthash/src/lib.rs:28-40 | mixing in and mixing out undo each other |
| LtHash.LimbRoundTrip | crates/lthash/src/lib.rs:43-48 | limb decoding and checksum serialization are inverse |
| LtHash.CanonicalInjective | crates/lthash/src/lib.rs:79-84 | the canonical byte string determines the account |
| LtHash.BuildSlotDelta | crates/lthash/src/lib.rs:95-115 | feeding every transition gives the slot delta |
| LtHash.DeltaPermutation | crates/lthash/src/lib.rs:95-115 | the delta depends on the transitions as a multiset only |
| AccountState.StateHomomorphism | crates/lthash/src/lib.rs:95-97 | for any account map and matching transitions, the full sum after is the full sum before plus the delta |
| AccountState.RollupCheckpoint | README.md:102-104 | the sum of any number of consecutive slot deltas carries the state sum across all of them |
| Attest.VerifySlotDelta | crates/attest/src/lib.rs:123-152 | Ok exactly for 1024 limbs, no empty transition and the attested vector equal to the sum of h(new) - h(old); MalformedDelta exactly for another limb count, EmptyTransition exactly for an empty one otherwise, and a mismatch carries the checksum of the attested and of the recomputed vector, in that order |
| Attest.VerdictPermutation | crates/attest/src/lib.rs:123-152 | the whole verdict is the same for every order of the list |
| Attest.AttestSlot | crates/attest/src/lib.rs:37-54 | an attestation built from a slot delta is accepted with its transitions exactly if none is empty |
| Attest.ReplaceSensitivity | crates/attest/src/lib.rs:115-122 | replacing a transition keeps acceptance exactly when the contributions are equal |
| Attest.DropSensitivity | crates/attest/src/lib.rs:120-122 | leaving a transition out keeps acceptance exactly when it contributes nothing |
| Attest.AddSensitivity | crates/attest/src/lib.rs:120-122 | adding a transition keeps acceptance exactly when it contributes nothing |
| Attest.SilentTransition | crates/lthash/src/lib.rs:75-78 | a transition contributes nothing exactly when its two sides hash alike |
| Attest.SidesAlike | crates/lthash/src/lib.rs:75-93 | two sides hash alike exactly when they hold the same live account, or the XOF gives their two canonical strings one output, or all zeros for the only live one |
| Attest.UnnoticedTransition | crates/attest/src/lib.rs:115-122 | a transition left out goes unnoticed exactly when it changes no live account or the XOF is broken in that way at its two sides |
| Attest.UnnoticedAddition | crates/attest/src/lib.rs:115-122 | a transition added goes unnoticed exactly when it changes no live account or the XOF is broken at its two sides |
| Attest.UnnoticedReplacement | crates/attest/src/lib.rs:115-122 | a transition replaced goes unnoticed exactly when h(new) + h(old') = h(new') + h(old), the primes marking the replacement; with one side kept, exactly when the other holds the same live account or the XOF is broken at the two |
| Attest.MissingTransitionUnnoticed | crates/attest/src/lib.rs:120-122 | closing an account without lamports may be listed or left out |
| LeaderCache.Resolver.FillWindow | crates/listener/src/leader.rs:80-96 | writes the window, then evicts; a failed fetch changes nothing |
| LeaderCache.Resolver.LeaderForSlot | crates/listener/src/leader.rs:100-115 | a hit answers from the cache, a miss fetches a window from the slot and reads back |
| LeaderCache.EvictionExact | crates/listener/src/leader.rs:86-94 | eviction drops exactly the excess, from the smallest slots up |
| LeaderCache.FetchedNoneIff | crates/listener/src/leader.rs:80-114 | after a successful fetch the answer is missing exactly when the response was empty or, in the cache before the call, fewer smaller slots are held than the window pushes out |
| LeaderCache.BatchAnswers | crates/listener/src/leader.rs:80-114 | if a full batch would not push the slot out, every non-empty response of at most a batch is answered with the schedule's leader |
| LeaderCache.BatchFits | crates/listener/src/leader.rs:47-94 | a batch never pushes the slot out with room for a batch or a batch of smaller slots cached |
| LeaderCache.FetchedYetUnanswered | crates/listener/src/leader.rs:100-115 | a run of full batches caches slots 1 to 100000; then slot 0 is fetched and answered with nothing |
| LeaderCache.StepKeepsInv | crates/listener/src/leader.rs:100-115 | every atomic action of every thread keeps the cache within bound and in agreement with the schedule and the mutex with its holder |
| LeaderCache.CacheRefinesSchedule | crates/listener/src/leader.rs:80-115 | in every interleaving: bound, right leaders only, serialized fetches and writes; a fetched answer is missing exactly if the window, written by that thread to the cache of an earlier state of the run, pushed the slot out or was empty |
| LeaderCache.WrittenAt | crates/listener/src/leader.rs:83-85 | leader i of a response lands on the slot i after the first, as 64-bit integers add |
| LeaderCache.CallAlone | crates/listener/src/leader.rs:100-115 | a call with no other thread moving acts as `Resolver.LeaderForSlot`: a hit without the mutex, otherwise lock, look again, fetch and read back, the mutex free at the end |
| LiquidatePerp.LessIsOrder | crates/liquidator/src/ix.rs:66-84 | the comparison is a strict total order on kind and key |
| LiquidatePerp.RemainingAccounts | crates/liquidator/src/ix.rs:139-168 | strictly increasing by kind and key, exactly target, quote and touched markets with their oracles, the target perp market the only writable entry |
| LiquidatePerp.TouchedExact | crates/liquidator/src/ix.rs:148-160 | the touched accounts are the markets, with oracles, of the positions that are open |
| LiquidatePerp.BuildLiquidatePerp | crates/liquidator/src/ix.rs:114-185 | who is at each fixed position, the authority alone signs, positions 2 to 5 and the target perp market alone can be written, the remaining keys are those of the sorted accounts, and every argument byte |
| LiquidatePerp.SortedGroups | crates/liquidator/src/ix.rs:24-31 | oracles, then spot markets, then perp markets, and in each group the first differing byte of two keys ascends |
| LiquidatePerp.InstructionIdsExact | crates/liquidator/src/ix.rs:139-168 | kind by kind: the target perp market, the quote spot market of index 0, those of open positions of either user, and the oracles of all these |
| LiquidatePerp.ArgumentsRoundTrip | crates/liquidator/src/ix.rs:170-182 | the argument bytes decode to the arguments |

## Left out

- The internals of SHA-256, Blake3, Ed25519 and GF(2^8) Reed-Solomon, and what a reconstruction recovers: the assembler discards the recovered shards without rechecking them.
- Shred.HeaderReencodes: a build with overflow checks aborts on a data shred whose index is below its set index; the model wraps, as a release build does.
- Rejection texts: a reason is a constructor carrying the same data, not a formatted string.
- `FecState::leader_sig`, which no code reads or writes after construction.
- Rounding of `f64` in the confidence values: they are reals here.
- A leader resolver whose answer for a slot changes between packets: the assembler takes the leader as a function of the slot.
- Lock poisoning in the leader cache, and the JSON-RPC exchange behind a fetch.
- Fields of `LtHash` as a copied Rust value: a vector handed over is a sequence, so aliasing of two accumulators does not arise.
- LiquidatePerp.BuildLiquidatePerp: a market missing from the cache is a precondition, since the source panics on it; addresses derived by the program are parameters.
- UDP and tokio transport, the command line, WASM bindings, base58, hex, serde and shell scripts, and the rest of the liquidator: input, output and plumbing.
