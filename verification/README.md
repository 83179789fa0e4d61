# Verification model of eth-historian

eth-historian authenticates historical Ethereum headers. A header comes with a proof of one of
four shapes, and the proof is checked against a commitment that does not change (the pre-merge
epoch roots, the frozen `historical_roots`) or that the caller supplies (`historical_summaries`).
This project models the parts that make that sound, as Dafny code, and proves what they promise.
`dafny verify dfyconfig.toml` checks all of it.

| file | what it models |
|---|---|
| `Primitives.dfy`, `Bits.dfy` | bytes, digests, the hash; shifts and powers of two |
| `MerkleSpec.dfy` | what a Merkle opening means: nodes of a zero-padded tree, folding, concatenation, binding |
| `MerkleProof.dfy` | the right-sparse tree, the proof generator, the branch verifier |
| `BottomUpProof.dfy` | the padded bottom-up proof builder |
| `Beacon.dfy` | beacon containers of four forks, their proofs, historical batches, state proofs |
| `NetworkSpec.dfy` | mainnet constants, fork dispatch, era addressing |
| `Ssz.dfy`, `HeaderWithProof.dfy` | the SSZ codec of `HeaderWithProof` and the four proof builders |
| `PreMerge.dfy` | proofs from an epoch accumulator |
| `Validator.dfy` | header validation, its completeness and its binding |
| `Rlp.dfy`, `Receipt.dfy` | RLP, trie keys, wire receipts |
| `Verifier.dfy`, `SnapshotRuns.dfy` | the verifier with its sources and shared snapshot; all interleavings of its use |
| `BlockRootRing.dfy` | the block roots a state holds, and the batch read from one |
| `ArchiveSource.dfy` | from a raw header to a verified block, end to end |

## How things are represented

* SHA-256 of two digests, Keccak of a header, the header's RLP codec and Ethereum's receipt
  envelope codec are constants without a value (`SHA256_PAIR`, `HEADER_HASH`, `HEADER_TO_RLP`,
  `HEADER_FROM_RLP`, `DECODE_ENVELOPE`, `ENCODE_ENVELOPE`), so every statement holds for every
  such function. In particular no hash is assumed free of collisions: a binding statement
  says that two things are equal, or that a named function computes two distinct 64-byte inputs
  with one hash from the proofs at hand (`Found`, `Collides`).
* A field of a beacon container is represented by its own hash tree root. The root of a
  container is the root of its field roots, zero-padded to a power of two ("Merkleization" in
  `ssz/simple-serialize.md` of the consensus specification).
* A proof of a fixed length is a subset type of that length, so every `FixedVector::new(..).expect(..)`
  of the source is a proof obligation that has been met.
* A panic on an index out of range is a result of its own, not a precondition.
* Loops and cursors of the source are methods with loops and cursors, each proved equal to a
  function; the properties are proved about that function. A shared lock is an object that
  clones hold in common. One slot step of the beacon chain is the one in `process_slot`
  (`phase0/beacon-chain.md` of the consensus specification).

## Where the code and its documentation differ

* `fetch_historical_batch` reads the state at the era's last slot and its comment calls the
  rings era-aligned there (src/sources/beacon_rpc.rs:160-162). That state has not yet
  written place 8191. `FetchedMeetsContractExactly` says when the provider's contract
  (src/sources/beacon_rpc.rs:39-42) is met nevertheless, and `StaleProofAcceptedExactly` for
  every slot and fork when the proof built from that batch is accepted. On a real chain, where
  each block names its slot, this is at most at the last slot of an era, short of a collision
  (`FetchedProofsFail`). The completeness theorems take the contract as a hypothesis.
* The documentation of `to_wire_bytes` claims a byte-for-byte round trip for every admitted type
  (src/inclusion.rs:195-197). The Ethereum branches do not look at leftover bytes, so the claim is
  proved for Arbitrum receipts and OP deposits only.
* The documentation of the builder announces `HistoricalSummariesUnavailable` for headers from Capella
  on without a snapshot (src/api.rs:139-141). The code returns an ordinary verification failure
  (`EmptySnapshotRejects`).
* A proof chooses the slot it is looked up at; nothing ties the slot to the header's timestamp
  (src/header_validator.rs:148-213). The frozen list also commits to blocks from before Bellatrix.
  `AcceptedIsCommitted` therefore covers every shape of proof at a block of every fork from
  Phase 0 on.
* Sources are documented as fallbacks for one another (README.md:110, src/api.rs:229-231). A panic
  ends the call before the later sources are asked. Two kinds arise in this repository. Validation
  indexes past the frozen list for a `HistoricalRoots` proof that names a slot from Capella on
  (`PanicsExactly`, `MissingEntryPanics`). The archive source indexes past a truncated epoch and
  copies an overlong difficulty (`FetchPanicsExactly`, `ShortEpochEndsTheCall`).
  `CallsPanicExactly` says when a call panics.
* The archive source parses no `requestsHash`; the field stays at its default
  (src/sources/archive_rpc.rs:439). The header it makes of a block from Prague on lacks that field
  and hashes to something else than the block. By `PostMergeEndToEnd` it is then not verified, short
  of a collision, and `PostMergeCallVerifies` applies to no such block.
* The decoder looks at the timestamp before the number, so a pre-merge number with a post-Shanghai
  timestamp is read with a post-merge shape (`GuardAdmitsDecodedKind`, `PreMergeEndToEnd`).

## Model

| member | source | states |
|---|---|---|
| ArchiveSource.PostMergeEndToEnd | src/sources/archive_rpc.rs:196-242 | For all four forks, with the block and the batch of the header's slot and the batch's commitment in place: the bytes the source makes decode to the shape of the header's era and are verified, with the matching auth path, exactly when the block's payload has the header's hash, or there is a collision. |
| ArchiveSource.PreMergeEndToEnd | src/sources/archive_rpc.rs:275-298 | With the epoch whose root is committed and whose record holds the header's hash, the fetched bytes are verified exactly when the timestamp is before Shanghai. |
| ArchiveSource.HashesDoNotDecode | src/portal_types/execution/header_with_proof.rs:89-103 | A pre-merge proof behind a header of any later era is refused for its length. |
| ArchiveSource.FetchPanicsExactly | src/sources/archive_rpc.rs:275-298 | Fetching by number panics exactly on a difficulty of more than 32 bytes and on an epoch that ends before the header's record. |
| ArchiveSource.ArchiveDecides | src/api.rs:229-270 | When a call by number falls to an archive source, what that source brings is the outcome, unless it fails too. |
| ArchiveSource.PostMergeCallVerifies | src/api.rs:229-270 | A call that falls to an archive source with the right block and batch verifies the header, in all four forks, whatever the later sources hold. |
| ArchiveSource.PreMergeCallVerifies | src/api.rs:229-270 | The same before the merge, with the right epoch. |
| ArchiveSource.ShortEpochEndsTheCall | src/proof_construction.rs:72-73 | With an epoch that is too short such a call panics, whatever the later sources hold. |
| ArchiveSource.PostMergeHashCallVerifies | src/api.rs:272-314 | A call by hash that falls to the bytes built for a block of any of the four forks verifies its header, whatever the later sources hold. |
| ArchiveSource.PreMergeHashCallVerifies | src/api.rs:272-314 | The same before the merge, with the proof built from the committed epoch. |
| ArchiveSource.FetchErrors | src/sources/archive_rpc.rs:196-298 | The error of a failed fetch: the node's, a missing provider's, a timestamp before beacon genesis, the block provider's before the batch provider's, the epoch provider's, the hash mismatch. |
| ArchiveSource.ByHashIsRefused | src/sources/archive_rpc.rs:300-305 | The source answers by number and refuses every request by hash. |
| Validator.PreMergeComplete | src/proof_construction.rs:57-118 | Construction yields a proof exactly when the index is in range and the record's hash is the header's; the only error is the hash mismatch; the proof is accepted against the list root with length mix-in. |
| Validator.PostMergeComplete | src/portal_types/execution/header_with_proof.rs:180-280 | For all four forks, a header that passes the era check of the matching validator path is accepted with the built proof. `ArchiveSource.PostMergeEndToEnd` derives the era check. |
| Validator.BuiltAcceptedExactly | src/portal_types/execution/header_with_proof.rs:180-280 | With the proof built for a slot a header is accepted exactly when it passes the era check and has the hash in the block's payload, or there is a collision. |
| Validator.BuiltOpens | src/portal_types/execution/header_with_proof.rs:180-280 | A built proof opens the header hash in the block root and the block root in the era's commitment, at the validator's indices. |
| Validator.AcceptedOpens | src/header_validator.rs:115-298 | A post-merge header is accepted exactly when its era check passes and both openings reach their roots, the second under the list entry or summary that covers the slot. |
| Validator.PreMergeVerdicts | src/header_validator.rs:88-113 | For number 8192 * e + i before the merge the verdict is acceptance exactly when the proof folds at 32768 + 2i to entry e; post-merge numbers are of the wrong era, a missing entry is a panic, the rest fail their proof. |
| Validator.PostMergeVerdicts | src/header_validator.rs:115-298 | Which of the failures a post-merge header comes to: era check first, the header's opening second, the lookup of the commitment third, the block's opening last. |
| Validator.AnchorsByAddress | src/header_validator.rs:253-298 | The entry and the generalized index of a slot: frozen roots count from genesis, summaries from slot 6,209,536, place i at 16384 + i and 8192 + i. |
| Validator.AtMostOneHeader | src/header_validator.rs:62-298 | Two accepted headers at one position (number, or slot) have one hash and one proof, or their proofs yield a collision. |
| Validator.ChainsBind | src/header_validator.rs:215-298 | Two chained proofs of the fixed lengths under one commitment at one slot are the same and open the same header hash, or yield a collision in one of their parts. |
| Validator.AcceptedIsCommitted | src/header_validator.rs:115-298 | At a slot whose commitment covers a block of any fork, from Phase 0 to Electra, a proof of any post-merge shape is accepted exactly when the header passes its era check and the proof runs along the nodes of the era's and the block's own trees, or its acceptance yields a collision. |
| Validator.AcceptedIsAuthentic | src/header_validator.rs:62-298 | An accepted header agrees with every epoch or block that is committed to at its position: it has the recorded hash, or a proof along the block's tree, or its acceptance yields a preimage of zero (past a partial epoch) or a collision. |
| Validator.BuiltRunsAlong | src/portal_types/execution/header_with_proof.rs:180-280 | Among the proofs of the shape of the block's fork, the builder's alone runs along those trees, and for the payload's own block hash alone. |
| Validator.ChainsOfBlock | src/header_validator.rs:215-298 | The two openings of a chained proof reach the era's commitment exactly when they run along those trees, or yield a collision in one part. |
| Validator.AcceptedIsRecorded | src/header_validator.rs:88-113 | What is accepted before the merge has the hash recorded at its index in the epoch, or yields a collision. |
| Validator.AcceptedPastTheEnd | src/header_validator.rs:88-113 | Past the end of a partial epoch nothing is accepted, short of a preimage of the zero leaf or a collision. |
| Validator.PreCapellaIgnoresSnapshot | src/header_validator.rs:88-146 | Verdicts on the first two shapes do not depend on the snapshot. |
| Validator.EmptySnapshotRejects | src/header_validator.rs:275-289 | Without a snapshot headers from Capella on are rejected, without a panic. |
| Validator.ExtensionKeepsAcceptance | src/header_validator.rs:276-298 | Extending the snapshot keeps every acceptance; a verdict changes only from a failed beacon proof to acceptance, and only where the old snapshot had no entry. |
| Validator.PanicsExactly | src/header_validator.rs:253-273 | With lists of the shipped lengths validation panics exactly for a `HistoricalRoots` proof that passed its first checks and names a slot from Capella on. |
| MerkleProof.GenerateProof | src/merkle/proof.rs:104-136 | The loop with its final reversal returns the proof that a recursive descent reads off any tree, at any depth, including its error and its failed `unwrap` or table lookup. |
| MerkleProof.MerkleRootFromBranch | src/merkle/proof.rs:155-172 | The loop climbs by the shifted index; up to 64 nodes it computes the fold of the branch by the bits of the index. |
| MerkleProof.ClimbIsFold | src/merkle/proof.rs:160-161 | From any level, a climb of at most 64 levels is the fold at the index shifted so far. |
| MerkleProof.ClimbWraps | src/merkle/proof.rs:160-161 | Above 64 levels the climb takes the bits of the index again from the start. |
| MerkleProof.VerifyMerkleProof | src/merkle/proof.rs:140-152 | Accepts exactly when the branch has the depth's length and climbs to the root, which up to depth 64 is folding to it. |
| MerkleProof.CreateRefinesPerfectTree | src/merkle/proof.rs:51-90 | At every depth the sparse tree with its zero shortcuts has the root of the perfect tree over the zero-padded leaves. |
| MerkleProof.CreateRepresents | src/merkle/proof.rs:51-98 | Every node reachable in a created tree is the perfect tree's node at its place, and none is `Finalized`. |
| MerkleProof.GenerateOnCreated | src/merkle/proof.rs:104-136 | On a created tree generation always succeeds, with the leaf at the index modulo the width and exactly its siblings, as the release build does. |
| MerkleProof.GenerateOnZero | src/merkle/proof.rs:88-98 | On a zero node generation finds zero hashes as long as a level is left and the node table reaches, and panics otherwise. |
| MerkleProof.DescendEnds | src/merkle/proof.rs:104-136 | At depth zero the node's own hash, at a finalized node the error, at a node without children the panic. |
| MerkleProof.StopsAtLeaf | src/merkle/proof.rs:130-131 | Generation on a created tree stops at a `Leaf`, as its debug assertion demands, exactly when the index modulo the width is one of a given leaf. |
| MerkleProof.CreateAssertsExactly | src/merkle/proof.rs:58-63 | The debug assertions of creation hold exactly when the leaves fit the depth. |
| MerkleProof.GenerateThenVerify | src/merkle/proof.rs:104-152 | For depth up to 32, at most 2^depth leaves and an index among them, the debug assertions hold, and the generated proof is for the indexed leaf and verifies against the tree's hash. |
| MerkleProof.FourLeaves | src/merkle/proof.rs:190-230 | Sides and order of hashing on four leaves. |
| MerkleSpec.FoldSiblings | src/merkle/proof.rs:155-172 | The siblings of a path fold to the node at its end. |
| MerkleSpec.HighBitsIgnored | src/merkle/proof.rs:160-161 | Index bits above the length of the branch do not matter. |
| MerkleSpec.FoldConcat | src/merkle/proof.rs:155-172 | A concatenated branch folds as its parts one after the other, the second at the shifted index. |
| MerkleSpec.FoldCompose | src/portal_types/consensus/beacon_block.rs:91-98 | Folding `p ++ q` at `i + 2^len(p) * j` is folding `q` at `j` from the fold of `p` at `i`. |
| MerkleSpec.Binding | src/merkle/proof.rs:140-172 | Two openings of one root at one index agree in leaf and branch, or yield a collision. |
| MerkleSpec.BindingToTree | src/merkle/proof.rs:140-172 | An opening accepted against a perfect tree's root is the tree's own leaf and branch at the index modulo the width, or yields a collision. |
| MerkleSpec.SiblingsAgree | src/merkle/proof.rs:104-136 | The branch of a leaf does not depend on the leaf. |
| Bits.ShrLowAreDivMod | src/merkle/proof.rs:113-161 | The shifts and masks of the index are quotient and remainder by powers of two. |
| BottomUpProof.BuildIsSiblings | src/portal_types/consensus/proof.rs:4-27 | The bottom-up proof is the perfect tree's branch, one node a level. |
| BottomUpProof.BuildersAgree | src/portal_types/consensus/proof.rs:4-27 | For every non-empty leaf list bottom-up and top-down construction give one root, and up to height 32, where the zero nodes end, one branch. |
| BottomUpProof.LayerRootIsRoot | src/portal_types/consensus/proof.rs:8-19 | Hashing the padded list layer by layer reaches the root of the perfect tree of the smallest height that holds the list. |
| BottomUpProof.DoubledIsPow2 | src/portal_types/consensus/proof.rs:9-10 | Doubling from one stops at the smallest power of two that is at least the number of leaves. |
| BottomUpProof.BuildFolds | src/portal_types/consensus/proof.rs:4-27 | A built proof opens its leaf at every index with the leaf's low bits. |
| Beacon.PayloadFields | src/portal_types/consensus/execution_payload.rs:94-187 | 14, 15 or 17 fields, the block hash thirteenth. |
| Beacon.PayloadPlaces | src/portal_types/consensus/execution_payload.rs:94-187 | Every field of the payload, in every fork, opens the payload's root at its own leaf and the block's root at generalized index 3216 or 6432 plus that leaf. |
| Beacon.BodyFields | src/portal_types/consensus/body.rs:109-189 | 10 to 13 fields, the payload's root tenth. |
| Beacon.BodyPlaces | src/portal_types/consensus/body.rs:109-189 | Every field of the body, in every fork, opens the body's root at its own leaf and the block's root at 192 plus that leaf. |
| Beacon.BlockFields | src/portal_types/consensus/beacon_block.rs:79-89 | Five fields, the body's root last. |
| Beacon.BlockPlaces | src/portal_types/consensus/beacon_block.rs:79-89 | Every field of a block, of any fork, opens its root at 8 plus its leaf. |
| Beacon.ForksByFields | src/portal_types/consensus/body.rs:109-189 | The four forks have 10, 11, 12 and 13 body fields, with 14, 15, 17 and 17 payload fields. |
| Beacon.BuildExecutionBlockHashProof | src/portal_types/consensus/beacon_block.rs:91-167 | The concatenated proof has 11 nodes up to Capella and 12 from Deneb on. |
| Beacon.BlockHashProofFolds | src/portal_types/consensus/execution_payload.rs:94-187 | The payload proof opens the block hash at leaf 12 of the payload's root. |
| Beacon.ExecutionPayloadProofFolds | src/portal_types/consensus/body.rs:109-189 | The body proof opens the payload's root at leaf 9 of the body's root. |
| Beacon.BodyRootProofFolds | src/portal_types/consensus/beacon_block.rs:79-89 | The block proof opens the body's root at leaf 4 of the block's root. |
| Beacon.ExecutionChain | src/header_validator.rs:222-250 | Openings at 12, 9 and 4 chain into one opening at 3228 under a payload of height 4 and at 6444 under one of height 5. |
| Beacon.ExecutionProofFolds | src/header_validator.rs:215-251 | For every block of every fork the concatenated proof opens the block hash in the block root at the validator's constant. |
| Beacon.LandingOpens | src/header_validator.rs:215-251 | For every fork from Phase 0 on, the path of the validator's constant meets the block's own tree at a named node, and the block's own branch leads from there to its root. |
| Beacon.OpeningsOfBlock | src/header_validator.rs:215-251 | For every fork and either proof length, a branch opens the block root at the validator's constant exactly when it climbs to that node and goes on along the block's own branch, or it yields a collision. |
| Beacon.OpensInModern | src/header_validator.rs:215-251 | From Bellatrix on that means: the payload's block hash at equal heights; the hash of two zero leaves for a short proof in a high payload; a preimage of the block number for a long proof in a low one. |
| Beacon.OpensInEarly | src/header_validator.rs:215-251 | Before Bellatrix it means a climb to a zero leaf (Altair) or a preimage of the body's fifth field root (Phase 0). |
| Beacon.BuildBlockRootProof | src/portal_types/consensus/beacon_state.rs:390-405 | The block roots' proof followed by the state roots' root; the length assertion fails exactly for an index past the era. |
| Beacon.RootsProofLength | src/portal_types/consensus/beacon_state.rs:390-405 | Thirteen nodes for an index in the era, none for an index past it. |
| Beacon.RootsProofFolds | src/header_validator.rs:276-298 | At 8192 + i, depth 13, the proof opens root i of the era's block roots. |
| Beacon.BlockRootProofFolds | src/header_validator.rs:253-273 | At 2 * 8192 + i, depth 14, the proof opens root i in the batch root. |
| Beacon.HistoricalSummariesProofFolds | src/portal_types/consensus/beacon_state.rs:206-288 | The state proof opens the summaries field: six nodes at generalized index 91 for Electra, five at 59 for Deneb. |
| PreMerge.ConstructPreMergeProof | src/proof_construction.rs:57-118 | Returns the panic, the hash mismatch or the proof of difficulty, thirteen siblings and length; the other errors do not occur. |
| PreMerge.PreMergeProofFolds | src/header_validator.rs:97-111 | That proof opens the recorded hash at 4 * 8192 + 2i, depth 15, in the root of the list with length mix-in, for every list of up to 8192 records. |
| PreMerge.ListBranchFolds | src/header_validator.rs:97-111 | The upper fourteen nodes open the leaf at every position of the list's capacity. |
| PreMerge.EpochRootBinds | src/portal_types/execution/accumulator.rs:14-22 | Two epochs with one root have one length and the same hashes and difficulties, or yield a collision. |
| NetworkSpec.ForkDispatchCoherent | src/sources/beacon_rpc.rs:127-141 | From beacon genesis on, timestamp to slot to fork to proof shape agrees with the decoder's choice exactly when the number is post-merge or the timestamp post-Shanghai. |
| NetworkSpec.GuardAdmitsDecodedKind | src/portal_types/execution/header_with_proof.rs:89-103 | The decoder's choice passes the validator's era check, and is the only one that does exactly when not a pre-merge number meets a post-Shanghai timestamp. |
| NetworkSpec.ErasByNumber | src/header_validator.rs:88-191 | The eras of the four checks and of the decoder's choice, by number and timestamp. |
| NetworkSpec.AddressingIsPartition | src/portal_types/consensus/historical_summaries.rs:39-46 | Slots correspond one to one to entries and offsets: 758 frozen roots before Capella, summaries after. |
| NetworkSpec.EpochsArePartition | src/proof_construction.rs:124-126 | Block numbers correspond one to one to epochs and indices below 8192. |
| NetworkSpec.SlotCoversTwelveSeconds | src/portal_types/network_spec.rs:36-46 | Slot s covers the twelve seconds from 1,606,824,023 + 12s on; earlier timestamps have none. |
| NetworkSpec.ForkIntervals | src/sources/beacon_rpc.rs:127-141 | The slots of each fork: Capella from 6,209,536, Deneb from 8,626,176, Electra from 11,649,024. |
| NetworkSpec.PreMergeBlocksAreCovered | src/header_validator.rs:97-101 | Every pre-merge number has its epoch among the 1897 shipped, and the last is used. |
| HeaderWithProof.BuildPostMergeProof | src/sources/archive_rpc.rs:213-238 | The shape built is the one of the block's fork. |
| HeaderWithProof.ProofBytes | src/portal_types/execution/header_with_proof.rs:109-158 | Proofs take 480, 840, 808 and 840 bytes. |
| HeaderWithProof.ProofLayout | src/portal_types/execution/header_with_proof.rs:109-158 | Where each node, the block root and the digits of the slot stand in the bytes of each shape. |
| HeaderWithProof.WireLayout | src/portal_types/execution/header_with_proof.rs:50-64 | The offsets, the header and the proof, byte by byte. |
| HeaderWithProof.DecodeOutcomes | src/portal_types/execution/header_with_proof.rs:74-106 | Exactly which bytes decode, to which header and shape, and what the others are refused for, in order. |
| HeaderWithProof.SszAppend | src/portal_types/execution/header_with_proof.rs:114-121 | Appends exactly the bytes of the proof, whatever its shape. |
| HeaderWithProof.ProofRoundTrip | src/portal_types/execution/header_with_proof.rs:133-158 | Bytes of a proof decode to it under its own shape. |
| HeaderWithProof.ProofCanonical | src/portal_types/execution/header_with_proof.rs:133-158 | Bytes accepted under a shape are the bytes of the proof they decode to. |
| HeaderWithProof.SszDecoderBuilder.RegisterAnonymousVariableLengthItem | src/portal_types/execution/header_with_proof.rs:80-85 | Registers the next offset exactly when it is there, in bounds and not below its predecessor. |
| HeaderWithProof.DecodeHeaderWithProof | src/portal_types/execution/header_with_proof.rs:79-106 | The decoder with its builder returns what the pure decoding of the bytes is. |
| HeaderWithProof.EncodeThenDecode | src/portal_types/execution/header_with_proof.rs:59-106 | Decoding an encoding returns the value exactly when the proof's shape is the one of the header's era, although two shapes have one length. |
| HeaderWithProof.DecodeThenEncode | src/portal_types/execution/header_with_proof.rs:74-131 | Accepted bytes re-encode to themselves exactly when the header's bytes do. |
| HeaderWithProof.DecodedPassesGuard | src/header_validator.rs:93-191 | Whatever decodes passes the era check of its own path. |
| Ssz.SplitOfTwoFields | src/portal_types/execution/header_with_proof.rs:50-64 | The two fields of the container come apart again at the offsets written before them. |
| Ssz.TwoFieldsOfSplit | src/portal_types/execution/header_with_proof.rs:79-88 | Bytes that come apart are the container of their two fields. |
| Ssz.LittleEndian | src/portal_types/execution/header_with_proof.rs:109-131 | Byte i of an encoded number is its digit i to the base 256. |
| Ssz.ChunkGivesBack | src/proof_construction.rs:84-108 | A 32-byte chunk gives back every number below 2^256, so no two difficulties share one. |
| Ssz.IntToFixedBytes32 | src/portal_types/consensus/beacon_state.rs:360-366 | The buffer holds the number's 32-byte chunk, the one that is mixed into list roots. |
| Receipt.ToWireBytes | src/inclusion.rs:198-231 | Appends type byte, list header and fields; nonce and version only together. |
| Receipt.DecodeOpDeposit | src/inclusion.rs:298-341 | The cursor reads four or six items off one whole list, or refuses. |
| Receipt.DecodeReceipt | src/inclusion.rs:250-294 | Dispatch on the first byte: envelope, Arbitrum, deposit, or refusal naming the type. |
| Receipt.TypesDispatch | src/inclusion.rs:250-294 | First bytes 0x00 to 0x04 and 0x80 to 0xff go to the envelope codec, 0x64 to 0x6a are Arbitrum, 0x7e is a deposit; every other type, and no other, is refused by name. |
| Receipt.WireItems | src/inclusion.rs:198-231 | The wire form is the type byte and one list: the four items of the receipt, and nonce and version of a deposit where both are there. |
| Receipt.FieldItems | src/inclusion.rs:213-220 | Those items are status, gas, bloom and logs, read by a reader that knows RLP only. |
| Receipt.LogItems | src/inclusion.rs:216 | A log is the list of its address, its topics and its data. |
| Receipt.LogListItems | src/inclusion.rs:216 | The logs are items of one list, in order. |
| Receipt.WireRoundTrip | src/inclusion.rs:195-231 | Every well-formed Arbitrum or deposit value decodes back from its wire bytes. |
| Receipt.WireCanonical | src/inclusion.rs:247-341 | Every accepted Arbitrum or deposit byte string re-encodes to itself and gives a well-formed value. |
| Receipt.AcceptedBytesAreUnique | src/inclusion.rs:247-341 | No two accepted byte strings have one value. |
| Receipt.DepositSurvives | src/inclusion.rs:217-220 | A deposit survives the wire exactly when nonce and version are both there or both missing. |
| Receipt.FiveItemsRefused | src/inclusion.rs:316-328 | A nonce without a version is refused. |
| Receipt.LogsRoundTrip | src/inclusion.rs:315 | A list of logs with topics and data decodes back from its payload. |
| Receipt.LogsCanonical | src/inclusion.rs:315 | An accepted payload of logs is the encoding of what it decodes to. |
| Rlp.RlpEncodeIndex | src/inclusion.rs:346-350 | Appends the canonical RLP of the index. |
| Rlp.KeyForms | src/inclusion.rs:346-374 | The key of zero is 0x80, below 128 the index itself, and from there on 0x80 plus the count of its bytes, then the bytes. |
| Rlp.BigEndian | src/inclusion.rs:346-350 | Those bytes are the digits of the index to the base 256, the lowest last. |
| Rlp.ItemForms | src/inclusion.rs:198-231 | The first bytes of strings and lists, short and long. |
| Rlp.KeysPrefixFree | src/inclusion.rs:346-350 | No trie key is a prefix of another, so keys are also distinct. |
| Rlp.NibbleKeysPrefixFree | src/inclusion.rs:67 | The same once keys are unpacked into nibbles. |
| Verifier.HistoricalSummariesProvider.SetSummaries | src/historical_summaries_provider.rs:31-35 | Replaces the shared snapshot. |
| Verifier.HistoricalSummariesProvider.GetHistoricalSummary | src/historical_summaries_provider.rs:37-47 | The entry covering the slot, exactly when the slot is from Capella on and the snapshot reaches it. |
| Verifier.HistoricalSummariesProvider.Clone | src/historical_summaries_provider.rs:19-22 | A clone holds the same lock. |
| Verifier.Verifier.constructor | src/api.rs:157-171 | Starts from the given snapshot, or an empty one, behind a lock of its own. |
| Verifier.Verifier.Clone | src/api.rs:177-181 | A clone shares validator, snapshot and sources. |
| Verifier.Verifier.SetHistoricalSummaries | src/api.rs:195-209 | The new snapshot is the one every later check sees. |
| Verifier.Verifier.Verify | src/api.rs:211-227 | The verdict against the present snapshot, with the auth path of the proof's shape. |
| Verifier.Verifier.VerifyBlockByNumber | src/api.rs:229-270 | The outcome of the least source that does not merely fail: a block that decodes, matches and verifies, or a panic, in the source or in validation, which ends the call. No later source is asked. If all fail, the last source's error; a verified header has the requested number; the default error does not occur. |
| Verifier.Verifier.VerifyBlockByHash | src/api.rs:272-314 | The same by hash, panics included; a verified header has the requested hash. |
| Verifier.MissingEntryPanics | src/header_validator.rs:253-266 | Every post-merge header from before Shanghai that survives its codec, behind any branches and any slot from Capella on, encodes to bytes on which the check by number and the check by hash panic. |
| Verifier.CallsPanicExactly | src/api.rs:229-314 | A call by number or by hash panics after `k + 1` sources exactly when the first `k` fail and the next either panics itself or brings a value that decodes, matches and names a missing entry. |
| Verifier.VerifiedIsAuthentic | src/api.rs:211-314 | Whatever is verified by number or by hash has that number or hash and agrees with the epoch or block committed to at its position. |
| Verifier.FirstThatWorksIsUnique | src/api.rs:229-270 | That description admits one result and one number of sources asked. |
| Verifier.NumberOutcomes | src/api.rs:229-270 | What each reply comes to by number: an accepted value with the number is verified, and every failure carries its own error. |
| Verifier.HashOutcomes | src/api.rs:272-314 | The same by hash: an accepted value with the hash is verified. |
| Verifier.HonestReplyVerifies | src/api.rs:229-314 | The bytes of an accepted value verify it, by its number and by its hash, from any place in the list of sources that the call falls to. |
| Verifier.VerifiedNumbersAgree | src/api.rs:229-270 | Whatever sources reply and whatever the snapshots, two blocks verified on the pre-merge path for one number have one hash, or the replies yield a collision. |
| SnapshotRuns.RunsAreExplained | src/api.rs:195-314 | Over every interleaving of calls and snapshot replacements, each call's outcome is the first check that did not fail, or the last, each check pure against one snapshot that was installed no earlier than the call, in order. |
| SnapshotRuns.NextKeepsInv | src/historical_summaries_provider.rs:31-47 | Every step keeps that invariant for every call in flight. |
| SnapshotRuns.RunsAreTheirSteps | src/historical_summaries_provider.rs:31-47 | Over every run the installed snapshots are the first and those of the replacements, in order; every call has the request of the step that began it, and its reads are its attempts, each with the snapshots installed before it. |
| SnapshotRuns.ReadsAreCurrent | src/historical_summaries_provider.rs:37-47 | Each check is made against the snapshot of the last replacement before it. |
| SnapshotRuns.LateCallsReadTheLatest | src/api.rs:195-314 | A call that begins after the last replacement is checked against that snapshot alone. |
| SnapshotRuns.CallsEndExactly | src/api.rs:211-314 | A call is over exactly when it made its one check, for a value at hand, or one for each source, or when its last check did not fail. |
| SnapshotRuns.VerifiedWasAccepted | src/api.rs:211-227 | Whatever a call verifies in any run answers its request, was accepted against one installed snapshot, and agrees with what is committed to at its position under that snapshot. |
| SnapshotRuns.VerifiedStaysAccepted | src/historical_summaries_provider.rs:31-35 | When snapshots only grow, everything verified would still be accepted under the latest. |
| SnapshotRuns.PreCapellaCallsIgnoreSnapshots | src/header_validator.rs:68-76 | In any run, a call by number, by hash or on a value that ends in a block verified on one of the first two paths, in a panic, or in a failure on a reply that is not of a later shape, ends as the pure check of its last reply against any snapshot at all. |
| SnapshotRuns.FreeCallsIgnoreSnapshots | src/api.rs:229-314 | When no reply is of a later shape, outcome and number of replies are those of the loop under any one snapshot, failures included. |
| SnapshotRuns.FreeRunsAgree | src/api.rs:229-314 | Two such calls for one thing, in two runs with whatever snapshots, whose sources reply alike, ask equally many sources and end the same. |
| SnapshotRuns.LoneCallsAreTheMethods | src/api.rs:211-314 | Without a replacement, a call in a run has the outcome and the count of the verifier's own method. |
| BlockRootRing.RingHolds | src/sources/beacon_rpc.rs:160-164 | At any slot the last 8192 roots are in the ring, each at its slot modulo 8192. |
| BlockRootRing.RingPlaceHolds | src/sources/beacon_rpc.rs:160-164 | From slot 8192 on each place holds the root of exactly one slot of the last 8192. |
| BlockRootRing.FetchedIsStaleAtTheEnd | src/sources/beacon_rpc.rs:155-178 | The batch read at the era's last slot is current at places 0 to 8190 and one era old at 8191 (zero in the first era). |
| BlockRootRing.FetchedMeetsContractExactly | src/sources/beacon_rpc.rs:39-43 | It meets the provider's contract exactly when the era's last root equals that stale root. |
| BlockRootRing.EraRootsMeetContract | src/sources/beacon_rpc.rs:39-43 | The state one slot later meets it. |
| BlockRootRing.FetchedIsEraExactly | src/sources/beacon_rpc.rs:155-178 | The batch read is the one of the state a slot later exactly when the era's last root equals the stale one. |
| BlockRootRing.ContractFails | src/sources/beacon_rpc.rs:155-178 | A chain on which the batch read for every slot of every era breaks the contract. |
| BlockRootRing.LastSlotBuildsTheSame | src/sources/beacon_rpc.rs:155-178 | In all four forks the proof for an era's last slot is the same from the stale block roots as from the true ones. |
| BlockRootRing.CommitmentBinds | src/sources/beacon_rpc.rs:155-178 | The commitment that a proof from the fetched batch leads to is the era's exactly when the last block root (but for the last slot) and, in Bellatrix, the last state root repeat the stale ones, or there is a collision. |
| BlockRootRing.StaleProofAcceptedExactly | src/sources/beacon_rpc.rs:155-178 | For every slot and fork, the proof built from the fetched batch is accepted against the era's true commitment exactly when the header is the block's, passes its era check and that condition holds, or there is a collision. |
| BlockRootRing.BlocksDiffer | src/portal_types/consensus/beacon_block.rs:79-89 | Blocks of two slots have two roots, or yield a collision. |
| BlockRootRing.EraRepeatsNothing | src/sources/beacon_rpc.rs:155-178 | On a chain of blocks that name their slots, an era with a block repeats no stale root, short of a collision or, in the first era, a block root of zero. |
| BlockRootRing.FetchedProofsFail | src/sources/beacon_rpc.rs:155-178 | So on every such chain a proof from the fetched batch for a slot's own block is accepted at the last slot of an era at most, whatever the header, or there is a collision. |

## Left out

- Receipt.WireCanonical: does not cover legacy and 0x01 to 0x04 receipts, because their codec is outside the repository and their branches do not check for leftover bytes.
- Receipt.WireRoundTrip: asks that the encoded body be shorter than 2^64 bytes, which memory guarantees.
- Receipt.DecodeReceipt: the field codecs (status, integers, bloom, logs) are taken to be the canonical ones of Appendix B of the Yellow Paper; alloy's own field decoders are not part of this model.
- Receipt.DecodeOpDeposit: rests on the same canonical field codecs.
- Receipt.LogsCanonical: rests on the same canonical field codecs.
- Receipt.AcceptedBytesAreUnique: rests on the same canonical field codecs and covers the same types as `WireCanonical`.
- MerkleProof.MerkleRootFromBranch: states the release build, where shift amounts go modulo 64; a debug build panics for branches of more than 64 nodes.
- MerkleProof.GenerateProof: states the release build in the same way, from depth 65 on.
- MerkleProof.CreateRefinesPerfectTree: states the release build, which drops surplus leaves; `CreateAssertsExactly` says when the debug build stops instead. Does not model the end of the library's table of zero hashes, nor the overflow of the subtree's capacity from depth 65 on.
- MerkleProof.GenerateOnCreated: states the release build; `StopsAtLeaf` says when the debug build stops instead.
- SnapshotRuns.VerifiedStaysAccepted: assumes each installed snapshot extends the one before, which the caller, not the code, controls.
- Tables of libraries (`rs_merkle`, `ethereum_ssz`, `alloy_rlp`) are modelled by what they compute: layers hashed in pairs, offsets checked and cut, canonical items.
- Numbers are 64-bit where the source has `u64`; `usize` is taken to be 64 bits wide.
- Error messages are reduced to their kind; decode errors of the SSZ library to four kinds.
- HTTP, JSON, hex and file access, and the fields of raw blocks: a node's answer is a header, an error or the panic on its difficulty; a source is a function that returns bytes or an error, or panics.
- Bindings for Go, Python and TypeScript: marshalling only.
- `verify_mpt_inclusion`: a wrapper over a trie library that is not part of this model; only the keys are.
- Embedded accumulators and their fingerprints: concrete data; only the list lengths are used.
- SSZ decoding of beacon blocks and states, and the hash tree roots of single fields: taken as given.
- The fluent setters of the builders: they only store a field; the verifier is constructed with the stored values.
- The Era1 scaffold, the Portal sources and BLS trust: not implemented in the repository or plumbing only.
