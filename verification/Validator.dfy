/** Header validation against the shipped accumulators and a summaries snapshot
    (src/header_validator.rs). */
module Validator {
  import opened Primitives
  import opened MerkleSpec
  import opened MerkleProof
  import opened NetworkSpec
  import opened Beacon
  import opened HeaderWithProof
  import opened PreMerge

  datatype HistoricalSummary = HistoricalSummary(blockSummaryRoot: Digest, stateSummaryRoot: Digest)
  type Summaries = seq<HistoricalSummary>

  /** The two commitments that never change. */
  datatype Accumulators = Accumulators(historicalEpochs: seq<Digest>, historicalRoots: seq<Digest>)

  datatype Reason = WrongEra | ExecutionProofFailed | BeaconProofFailed

  /** An out-of-range accumulator index is a panic, not a rejection. */
  datatype Verdict = Accepted | Rejected(reason: Reason) | IndexPanic

  function PreMergeIndex(number: u64): nat {
    SLOTS_PER_HISTORICAL_ROOT * 2 * 2 + (number % SLOTS_PER_HISTORICAL_ROOT) * 2
  }

  function BeaconRootsIndex(slot: u64): nat {
    2 * SLOTS_PER_HISTORICAL_ROOT + slot % SLOTS_PER_HISTORICAL_ROOT
  }

  function BeaconSummariesIndex(slot: u64): nat {
    SLOTS_PER_HISTORICAL_ROOT + slot % SLOTS_PER_HISTORICAL_ROOT
  }

  function VerifyPreMergeHeader(acc: Accumulators, header: Header, proof: Vector15): Verdict {
    if IsParisActiveAtBlock(header.number) then Rejected(WrongEra)
    else
      var epoch := EpochIndexOfBlock(header.number);
      if epoch >= |acc.historicalEpochs| then IndexPanic
      else if Verifies(HashSlow(header), proof, 15, PreMergeIndex(header.number), acc.historicalEpochs[epoch])
      then Accepted
      else Rejected(ExecutionProofFailed)
  }

  /** The depth is the proof's own length. */
  predicate VerifyExecution(headerHash: Digest, proof: seq<Digest>, index: nat, blockRoot: Digest) {
    Verifies(headerHash, proof, |proof|, index, blockRoot)
  }

  function VerifyMergeToCapellaHeader(acc: Accumulators, header: Header, proof: BlockProofHistoricalRoots): Verdict {
    if !IsParisActiveAtBlock(header.number) then Rejected(WrongEra)
    else if IsShanghaiActiveAtTimestamp(header.timestamp) then Rejected(WrongEra)
    else if !VerifyExecution(HashSlow(header), proof.executionBlockProof, EXECUTION_INDEX_BELLATRIX,
                             proof.beaconBlockRoot)
    then Rejected(ExecutionProofFailed)
    else
      var entry := proof.slot / SLOTS_PER_HISTORICAL_ROOT;
      if entry >= |acc.historicalRoots| then IndexPanic
      else if Verifies(proof.beaconBlockRoot, proof.beaconBlockProof, 14, BeaconRootsIndex(proof.slot),
                       acc.historicalRoots[entry])
      then Accepted
      else Rejected(BeaconProofFailed)
  }

  function GetHistoricalSummary(summaries: Summaries, slot: u64): Option<HistoricalSummary> {
    match HistoricalSummaryIndex(slot)
    case None => None
    case Some(i) => if i < |summaries| then Some(summaries[i]) else None
  }

  predicate VerifySummariesBeacon(summaries: Summaries, slot: u64, blockRoot: Digest, proof: Vector13) {
    match GetHistoricalSummary(summaries, slot)
    case None => false
    case Some(summary) => Verifies(blockRoot, proof, 13, BeaconSummariesIndex(slot), summary.blockSummaryRoot)
  }

  function VerifyCapellaToDenebHeader(
    summaries: Summaries, header: Header, proof: BlockProofHistoricalSummariesCapella): Verdict
  {
    if !IsShanghaiActiveAtTimestamp(header.timestamp) then Rejected(WrongEra)
    else if IsCancunActiveAtTimestamp(header.timestamp) then Rejected(WrongEra)
    else if !VerifyExecution(HashSlow(header), proof.executionBlockProof, EXECUTION_INDEX_BELLATRIX,
                             proof.beaconBlockRoot)
    then Rejected(ExecutionProofFailed)
    else if !VerifySummariesBeacon(summaries, proof.slot, proof.beaconBlockRoot, proof.beaconBlockProof)
    then Rejected(BeaconProofFailed)
    else Accepted
  }

  function VerifyPostDenebHeader(
    summaries: Summaries, header: Header, proof: BlockProofHistoricalSummariesDeneb): Verdict
  {
    if !IsCancunActiveAtTimestamp(header.timestamp) then Rejected(WrongEra)
    else if !VerifyExecution(HashSlow(header), proof.executionBlockProof, EXECUTION_INDEX_DENEB, proof.beaconBlockRoot)
    then Rejected(ExecutionProofFailed)
    else if !VerifySummariesBeacon(summaries, proof.slot, proof.beaconBlockRoot, proof.beaconBlockProof)
    then Rejected(BeaconProofFailed)
    else Accepted
  }

  function Validate(acc: Accumulators, summaries: Summaries, hwp: HeaderWithProof): Verdict {
    match hwp.proof
    case OfHashes(proof) => VerifyPreMergeHeader(acc, hwp.header, proof)
    case OfRoots(proof) => VerifyMergeToCapellaHeader(acc, hwp.header, proof)
    case OfCapella(proof) => VerifyCapellaToDenebHeader(summaries, hwp.header, proof)
    case OfDeneb(proof) => VerifyPostDenebHeader(summaries, hwp.header, proof)
  }

  // ---- Completeness: what is built is accepted ----

  /** Whenever construction yields a proof, it is accepted against the epoch's root; and it
      yields one exactly when the record at the header's index holds the header's hash. */
  lemma PreMergeComplete(acc: Accumulators, summaries: Summaries, header: Header, epoch: EpochAccumulator)
    requires !IsParisActiveAtBlock(header.number)
    requires EpochIndexOfBlock(header.number) < |acc.historicalEpochs|
    requires acc.historicalEpochs[EpochIndexOfBlock(header.number)] == EpochRoot(epoch)
    ensures var i := header.number % SLOTS_PER_HISTORICAL_ROOT;
      var built := PreMergeConstruction(header, epoch);
      && (built.Constructed? <==> i < |epoch| && epoch[i].blockHash == HashSlow(header))
      && (built.Constructed? ==> Validate(acc, summaries, HeaderWithProof(header, OfHashes(built.proof))) == Accepted)
      && (built.Failed? ==> built.error == HashMismatch)
  {
    var i := header.number % SLOTS_PER_HISTORICAL_ROOT;
    if i < |epoch| {
      PreMergeProofFolds(epoch, i);
    }
  }

  /** The era commitment that covers `slot` is the one over `batch`: the batch root before
      Capella, the root of its block roots from Capella on. */
  predicate Anchored(acc: Accumulators, summaries: Summaries, slot: u64, batch: HistoricalBatch, fork: ForkName) {
    if fork == Bellatrix then
      && slot / SLOTS_PER_HISTORICAL_ROOT < |acc.historicalRoots|
      && acc.historicalRoots[slot / SLOTS_PER_HISTORICAL_ROOT] == BatchRoot(batch)
    else
      && GetHistoricalSummary(summaries, slot).Some?
      && GetHistoricalSummary(summaries, slot).value.blockSummaryRoot == RootsRoot(batch.blockRoots)
  }

  /** The batch holds the block's root at the slot's place, and the block holds the header. */
  predicate Committed(header: Header, slot: u64, batch: HistoricalBatch, block: BeaconBlock) {
    && batch.blockRoots[slot % SLOTS_PER_HISTORICAL_ROOT] == BlockRoot(block)
    && block.body.payload.blockHash == HashSlow(header)
  }

  /** The chained proof of a post-merge header, whatever its shape. */
  datatype Chain = Chain(slot: u64, blockRoot: Digest, beaconProof: seq<Digest>, executionProof: seq<Digest>)

  function ChainOf(proof: BlockHeaderProof): (chain: Chain)
    requires !proof.OfHashes?
    ensures |chain.beaconProof| == (if proof.Kind() == HistoricalRoots then 14 else 13)
    ensures |chain.executionProof| == ExecutionDepth(proof.Kind())
  {
    match proof
    case OfRoots(p) => Chain(p.slot, p.beaconBlockRoot, p.beaconBlockProof, p.executionBlockProof)
    case OfCapella(p) => Chain(p.slot, p.beaconBlockRoot, p.beaconBlockProof, p.executionBlockProof)
    case OfDeneb(p) => Chain(p.slot, p.beaconBlockRoot, p.beaconBlockProof, p.executionBlockProof)
  }

  function BeaconIndex(kind: ProofKind, slot: u64): nat {
    if kind == HistoricalRoots then BeaconRootsIndex(slot) else BeaconSummariesIndex(slot)
  }

  /** The commitment a chain is checked against. */
  function AnchorOf(acc: Accumulators, summaries: Summaries, kind: ProofKind, slot: u64): Option<Digest> {
    if kind == HistoricalRoots then
      var entry := slot / SLOTS_PER_HISTORICAL_ROOT;
      if entry < |acc.historicalRoots| then Some(acc.historicalRoots[entry]) else None
    else match GetHistoricalSummary(summaries, slot)
      case None => None
      case Some(summary) => Some(summary.blockSummaryRoot)
  }

  /** Acceptance of a post-merge header is two openings: header in block, block in anchor. */
  lemma AcceptedOpens(acc: Accumulators, summaries: Summaries, hwp: HeaderWithProof)
    requires !hwp.proof.OfHashes?
    ensures var (kind, chain) := (hwp.proof.Kind(), ChainOf(hwp.proof));
      Validate(acc, summaries, hwp) == Accepted <==>
        && GuardAdmits(kind, hwp.header.number, hwp.header.timestamp)
        && Fold(HashSlow(hwp.header), chain.executionProof, ExecutionIndex(kind)) == chain.blockRoot
        && AnchorOf(acc, summaries, kind, chain.slot)
           == Some(Fold(chain.blockRoot, chain.beaconProof, BeaconIndex(kind, chain.slot)))
  {
  }

  /** The chain of a built proof: the era proof of the slot's place, and the block's own proof. */
  lemma BuiltChain(slot: u64, batch: HistoricalBatch, block: BeaconBlock)
    ensures var index := slot % SLOTS_PER_HISTORICAL_ROOT;
      ChainOf(BuildPostMergeProof(slot, batch, block)) == Chain(slot, BlockRoot(block),
        if block.Fork() == Bellatrix then BlockRootProof(batch, index) else BuildRootsProof(batch.blockRoots, index),
        BuildExecutionBlockHashProof(block))
  {
    hide BlockRoot, BlockRootProof, BuildRootsProof, BuildExecutionBlockHashProof;
  }

  /** A built proof opens the header in its block and the block in the era's commitment. */
  lemma BuiltOpens(acc: Accumulators, summaries: Summaries, header: Header, slot: u64, batch: HistoricalBatch,
                   block: BeaconBlock)
    requires Committed(header, slot, batch, block)
    requires Anchored(acc, summaries, slot, batch, block.Fork())
    ensures var proof := BuildPostMergeProof(slot, batch, block);
      var (kind, chain) := (proof.Kind(), ChainOf(proof));
      && chain.slot == slot
      && Fold(HashSlow(header), chain.executionProof, ExecutionIndex(kind)) == chain.blockRoot
      && AnchorOf(acc, summaries, kind, slot) == Some(Fold(chain.blockRoot, chain.beaconProof, BeaconIndex(kind, slot)))
  {
    hide BuildPostMergeProof, BlockRoot, BlockRootProof, BuildRootsProof, BuildExecutionBlockHashProof, Fold, BatchRoot,
         RootsRoot;
    BuiltChain(slot, batch, block);
    ExecutionProofFolds(block);
    if block.Fork() == Bellatrix {
      BlockRootProofFolds(batch, slot % SLOTS_PER_HISTORICAL_ROOT);
    } else {
      RootsProofFolds(batch.blockRoots, slot % SLOTS_PER_HISTORICAL_ROOT);
    }
  }

  /** For all four forks: the built proof passes both Merkle checks of its path. */
  lemma PostMergeComplete(acc: Accumulators, summaries: Summaries, header: Header, slot: u64, batch: HistoricalBatch,
                          block: BeaconBlock)
    requires Committed(header, slot, batch, block)
    requires Anchored(acc, summaries, slot, batch, block.Fork())
    requires GuardAdmits(KindForFork(block.Fork()), header.number, header.timestamp)
    ensures Validate(acc, summaries, HeaderWithProof(header, BuildPostMergeProof(slot, batch, block))) == Accepted
  {
    hide BuildPostMergeProof, Validate, Fold, Committed, Anchored;
    BuiltOpens(acc, summaries, header, slot, batch, block);
    AcceptedOpens(acc, summaries, HeaderWithProof(header, BuildPostMergeProof(slot, batch, block)));
  }

  /** The collision that a built proof would reveal behind a header that is not its block's. */
  function BuiltCollision(header: Header, block: BeaconBlock): Option<(Pair, Pair)> {
    OpeningCollision(KindForFork(block.Fork()), HashSlow(header), BuildExecutionBlockHashProof(block), Modern(block))
  }

  /** A header is accepted with the proof built for its slot exactly when it passes the era check and
      is the block's own, short of a collision. */
  lemma {:induction false} BuiltAcceptedExactly(
    acc: Accumulators, summaries: Summaries, header: Header, slot: u64, batch: HistoricalBatch, block: BeaconBlock)
    requires batch.blockRoots[slot % SLOTS_PER_HISTORICAL_ROOT] == BlockRoot(block)
    requires Anchored(acc, summaries, slot, batch, block.Fork())
    ensures var hwp := HeaderWithProof(header, BuildPostMergeProof(slot, batch, block));
      var good :=
        && GuardAdmits(KindForFork(block.Fork()), header.number, header.timestamp)
        && HashSlow(header) == block.body.payload.blockHash;
      && (good ==> Validate(acc, summaries, hwp) == Accepted)
      && (Validate(acc, summaries, hwp) == Accepted ==> good || Found(BuiltCollision(header, block)))
  {
    hide BuildPostMergeProof, BuildExecutionBlockHashProof, Validate, Fold, Anchored, BlockRoot, OpeningCollision,
         OpensIn, Found, GuardAdmits, BlockRootProof, BuildRootsProof, ExecutionIndex;
    var kind := KindForFork(block.Fork());
    var hwp := HeaderWithProof(header, BuildPostMergeProof(slot, batch, block));
    AcceptedOpens(acc, summaries, hwp);
    BuiltChain(slot, batch, block);
    OpeningsOfBlock(kind, HashSlow(header), BuildExecutionBlockHashProof(block), Modern(block));
    OpensInModern(kind, HashSlow(header), BuildExecutionBlockHashProof(block), block);
    if GuardAdmits(kind, header.number, header.timestamp) && HashSlow(header) == block.body.payload.blockHash {
      PostMergeComplete(acc, summaries, header, slot, batch, block);
    }
  }

  // ---- Binding: at most one header at each position ----

  /** Looks for a collision between two chained proofs of one shape. */
  function ChainCollision(kind: ProofKind, h: Digest, x: Chain, k: Digest, y: Chain): Option<(Pair, Pair)>
    requires |x.beaconProof| == |y.beaconProof| && |x.executionProof| == |y.executionProof|
  {
    var beacon := FindCollision(x.blockRoot, x.beaconProof, y.blockRoot, y.beaconProof, BeaconIndex(kind, x.slot));
    if Found(beacon) then beacon
    else FindCollision(h, x.executionProof, k, y.executionProof, ExecutionIndex(kind))
  }

  /** Chains that open two headers under one commitment at one slot are one chain and one
      header hash, or reveal a collision in one of their two parts. */
  lemma ChainsBind(kind: ProofKind, h: Digest, x: Chain, k: Digest, y: Chain)
    requires |x.beaconProof| == |y.beaconProof| && |x.executionProof| == |y.executionProof|
    requires x.slot == y.slot
    requires Fold(h, x.executionProof, ExecutionIndex(kind)) == x.blockRoot
    requires Fold(k, y.executionProof, ExecutionIndex(kind)) == y.blockRoot
    requires Fold(x.blockRoot, x.beaconProof, BeaconIndex(kind, x.slot))
          == Fold(y.blockRoot, y.beaconProof, BeaconIndex(kind, y.slot))
    ensures (h == k && x == y) || Found(ChainCollision(kind, h, x, k, y))
  {
    Binding(x.blockRoot, x.beaconProof, y.blockRoot, y.beaconProof, BeaconIndex(kind, x.slot));
    if x.blockRoot == y.blockRoot {
      Binding(h, x.executionProof, k, y.executionProof, ExecutionIndex(kind));
    }
  }

  function ProofCollision(a: HeaderWithProof, b: HeaderWithProof): Option<(Pair, Pair)>
    requires a.proof.Kind() == b.proof.Kind()
  {
    if a.proof.OfHashes? then
      FindCollision(HashSlow(a.header), a.proof.hashes, HashSlow(b.header), b.proof.hashes,
                    PreMergeIndex(a.header.number))
    else
      ChainCollision(a.proof.Kind(), HashSlow(a.header), ChainOf(a.proof), HashSlow(b.header), ChainOf(b.proof))
  }

  /** Two positions are the same: one number before the merge, one slot after it. */
  predicate SamePosition(a: HeaderWithProof, b: HeaderWithProof) {
    && a.proof.Kind() == b.proof.Kind()
    && (if a.proof.OfHashes? then a.header.number == b.header.number
        else ChainOf(a.proof).slot == ChainOf(b.proof).slot)
  }

  /** Two accepted headers at one position have one hash and one proof, or their proofs reveal
      a collision. */
  lemma AtMostOneHeader(acc: Accumulators, summaries: Summaries, a: HeaderWithProof, b: HeaderWithProof)
    requires Validate(acc, summaries, a) == Accepted && Validate(acc, summaries, b) == Accepted
    requires SamePosition(a, b)
    ensures (HashSlow(a.header) == HashSlow(b.header) && a.proof == b.proof) || Found(ProofCollision(a, b))
  {
    if a.proof.OfHashes? {
      Binding(HashSlow(a.header), a.proof.hashes, HashSlow(b.header), b.proof.hashes, PreMergeIndex(a.header.number));
    } else {
      AcceptedOpens(acc, summaries, a);
      AcceptedOpens(acc, summaries, b);
      ChainsBind(a.proof.Kind(), HashSlow(a.header), ChainOf(a.proof), HashSlow(b.header), ChainOf(b.proof));
    }
  }

  /** The proof of the slot's place under the commitment that proofs of `kind` are checked against. */
  function EraProof(kind: ProofKind, slot: u64, batch: HistoricalBatch): (proof: seq<Digest>)
    ensures |proof| == if kind == HistoricalRoots then 14 else 13
  {
    var i := slot % SLOTS_PER_HISTORICAL_ROOT;
    if kind == HistoricalRoots then BlockRootProof(batch, i) else BuildRootsProof(batch.blockRoots, i)
  }

  /** The commitment over `batch` that proofs of `kind` are checked against. */
  function EraCommitment(kind: ProofKind, batch: HistoricalBatch): Digest {
    if kind == HistoricalRoots then BatchRoot(batch) else RootsRoot(batch.blockRoots)
  }

  lemma EraProofFolds(kind: ProofKind, slot: u64, batch: HistoricalBatch)
    requires kind != HistoricalHashes
    ensures var root := batch.blockRoots[slot % SLOTS_PER_HISTORICAL_ROOT];
      Fold(root, EraProof(kind, slot, batch), BeaconIndex(kind, slot)) == EraCommitment(kind, batch)
  {
    hide Fold, BatchRoot, RootsRoot, BlockRootProof, BuildRootsProof;
    if kind == HistoricalRoots {
      BlockRootProofFolds(batch, slot % SLOTS_PER_HISTORICAL_ROOT);
    } else {
      RootsProofFolds(batch.blockRoots, slot % SLOTS_PER_HISTORICAL_ROOT);
    }
  }

  /** The chain runs along the nodes of the era's own tree and of the block's own tree. */
  predicate RunsAlong(kind: ProofKind, h: Digest, chain: Chain, batch: HistoricalBatch, block: ChainBlock)
    requires |chain.executionProof| == ExecutionDepth(kind)
  {
    && chain.blockRoot == block.Root()
    && chain.beaconProof == EraProof(kind, chain.slot, batch)
    && OpensIn(kind, h, chain.executionProof, block)
  }

  /** Looks for a collision between a chain and the trees of the era and the block. */
  function CommittedCollision(kind: ProofKind, h: Digest, chain: Chain, batch: HistoricalBatch, block: ChainBlock)
    : Option<(Pair, Pair)>
    requires |chain.beaconProof| == |EraProof(kind, chain.slot, batch)|
    requires |chain.executionProof| == ExecutionDepth(kind)
  {
    var beacon := FindCollision(chain.blockRoot, chain.beaconProof, block.Root(),
                                EraProof(kind, chain.slot, batch), BeaconIndex(kind, chain.slot));
    if Found(beacon) then beacon else OpeningCollision(kind, h, chain.executionProof, block)
  }

  /** The chain's two openings reach the era's commitment exactly when it runs along the trees,
      short of a collision. */
  lemma ChainsOfBlock(kind: ProofKind, h: Digest, chain: Chain, batch: HistoricalBatch, block: ChainBlock)
    requires kind != HistoricalHashes
    requires batch.blockRoots[chain.slot % SLOTS_PER_HISTORICAL_ROOT] == block.Root()
    requires |chain.beaconProof| == |EraProof(kind, chain.slot, batch)|
    requires |chain.executionProof| == ExecutionDepth(kind)
    ensures var opens :=
        && Fold(h, chain.executionProof, ExecutionIndex(kind)) == chain.blockRoot
        && Fold(chain.blockRoot, chain.beaconProof, BeaconIndex(kind, chain.slot)) == EraCommitment(kind, batch);
      && (RunsAlong(kind, h, chain, batch, block) ==> opens)
      && (opens ==> RunsAlong(kind, h, chain, batch, block) || Found(CommittedCollision(kind, h, chain, batch, block)))
  {
    hide Fold, FindCollision, Found, BlockRoot, EraProof, EraCommitment, BeaconIndex, OpensIn, OpeningCollision,
         ExecutionIndex;
    EraProofFolds(kind, chain.slot, batch);
    OpeningIs(chain.blockRoot, chain.beaconProof, block.Root(), EraProof(kind, chain.slot, batch),
              BeaconIndex(kind, chain.slot), EraCommitment(kind, batch));
    OpeningsOfBlock(kind, h, chain.executionProof, block);
  }

  /** The commitment that the proof is checked against is the one over `batch`, and `block` has
      the root at the place of the proof's slot. */
  predicate Covered(acc: Accumulators, summaries: Summaries, proof: BlockHeaderProof, batch: HistoricalBatch,
                    block: ChainBlock)
    requires !proof.OfHashes?
  {
    var (kind, slot) := (proof.Kind(), ChainOf(proof).slot);
    && batch.blockRoots[slot % SLOTS_PER_HISTORICAL_ROOT] == block.Root()
    && AnchorOf(acc, summaries, kind, slot) == Some(EraCommitment(kind, batch))
  }

  /** At a slot whose commitment covers `block`, whatever the fork of the block and the shape of
      the proof: a header is accepted exactly when it passes its era check and its proof runs
      along the era's and the block's own trees, short of a collision. `OpensInModern` and
      `OpensInEarly` spell out what that asks of the header's hash. */
  lemma AcceptedIsCommitted(acc: Accumulators, summaries: Summaries, hwp: HeaderWithProof, batch: HistoricalBatch,
                            block: ChainBlock)
    requires !hwp.proof.OfHashes?
    requires Covered(acc, summaries, hwp.proof, batch, block)
    ensures var (kind, chain, h) := (hwp.proof.Kind(), ChainOf(hwp.proof), HashSlow(hwp.header));
      && (GuardAdmits(kind, hwp.header.number, hwp.header.timestamp) && RunsAlong(kind, h, chain, batch, block)
          ==> Validate(acc, summaries, hwp) == Accepted)
      && (Validate(acc, summaries, hwp) == Accepted ==>
          && GuardAdmits(kind, hwp.header.number, hwp.header.timestamp)
          && (RunsAlong(kind, h, chain, batch, block) || Found(CommittedCollision(kind, h, chain, batch, block))))
  {
    hide Validate, Fold, AnchorOf, EraCommitment, EraProof, BeaconIndex, ExecutionIndex, BlockRoot, RunsAlong,
         CommittedCollision, Found, GuardAdmits;
    var (kind, chain) := (hwp.proof.Kind(), ChainOf(hwp.proof));
    AcceptedOpens(acc, summaries, hwp);
    EraProofFolds(kind, chain.slot, batch);
    ChainsOfBlock(kind, HashSlow(hwp.header), chain, batch, block);
  }

  /** Among the proofs of the shape of the block's fork, the builder's alone runs along the trees,
      and for the payload's own hash alone. */
  lemma BuiltRunsAlong(h: Digest, proof: BlockHeaderProof, batch: HistoricalBatch, block: BeaconBlock)
    requires proof.Kind() == KindForFork(block.Fork())
    ensures RunsAlong(proof.Kind(), h, ChainOf(proof), batch, Modern(block)) <==>
      h == block.body.payload.blockHash && proof == BuildPostMergeProof(ChainOf(proof).slot, batch, block)
  {
    hide BuildPostMergeProof, BlockRoot, BlockRootProof, BuildRootsProof, BuildExecutionBlockHashProof, OpensIn;
    BuiltChain(ChainOf(proof).slot, batch, block);
    OpensInModern(proof.Kind(), h, ChainOf(proof).executionProof, block);
  }

  /** Before the merge: the accepted header's hash is the one recorded at its index. */
  lemma AcceptedIsRecorded(acc: Accumulators, summaries: Summaries, header: Header, proof: Vector15,
                           epoch: EpochAccumulator)
    requires Validate(acc, summaries, HeaderWithProof(header, OfHashes(proof))) == Accepted
    requires acc.historicalEpochs[EpochIndexOfBlock(header.number)] == EpochRoot(epoch)
    requires header.number % SLOTS_PER_HISTORICAL_ROOT < |epoch|
    ensures var i := header.number % SLOTS_PER_HISTORICAL_ROOT;
      || (HashSlow(header) == epoch[i].blockHash && proof == PreMergeProof(epoch, i))
      || Found(FindCollision(HashSlow(header), proof, epoch[i].blockHash, PreMergeProof(epoch, i),
                             PreMergeIndex(header.number)))
  {
    var i := header.number % SLOTS_PER_HISTORICAL_ROOT;
    PreMergeProofFolds(epoch, i);
    Binding(HashSlow(header), proof, epoch[i].blockHash, PreMergeProof(epoch, i), PreMergeIndex(header.number));
  }

  /** Past the end of a partial epoch nothing is accepted, short of a preimage of the zero leaf
      or a collision. */
  lemma AcceptedPastTheEnd(acc: Accumulators, summaries: Summaries, header: Header, proof: Vector15,
                           epoch: EpochAccumulator)
    requires Validate(acc, summaries, HeaderWithProof(header, OfHashes(proof))) == Accepted
    requires acc.historicalEpochs[EpochIndexOfBlock(header.number)] == EpochRoot(epoch)
    requires header.number % SLOTS_PER_HISTORICAL_ROOT >= |epoch|
    ensures var i := header.number % SLOTS_PER_HISTORICAL_ROOT;
      || H(HashSlow(header), proof[0]) == ZERO
      || Found(FindCollision(H(HashSlow(header), proof[0]), proof[1..], ZERO, ListBranch(epoch, i),
                             2 * SLOTS_PER_HISTORICAL_ROOT + i))
  {
    var i := header.number % SLOTS_PER_HISTORICAL_ROOT;
    ListBranchFolds(epoch, i);
    assert PreMergeIndex(header.number) % 2 == 0;
    assert PreMergeIndex(header.number) / 2 == 2 * SLOTS_PER_HISTORICAL_ROOT + i;
    assert Fold(HashSlow(header), proof, PreMergeIndex(header.number))
        == Fold(H(HashSlow(header), proof[0]), proof[1..], 2 * SLOTS_PER_HISTORICAL_ROOT + i);
    Binding(H(HashSlow(header), proof[0]), proof[1..], ZERO, ListBranch(epoch, i), 2 * SLOTS_PER_HISTORICAL_ROOT + i);
  }

  // ---- Verdicts, with the source's own numbers ----

  /** Before the merge: which headers are accepted, and what the others come to. */
  lemma PreMergeVerdicts(acc: Accumulators, summaries: Summaries, header: Header, proof: Vector15, epoch: nat, i: nat)
    requires i < 8192 && header.number == 8192 * epoch + i
    ensures var verdict := Validate(acc, summaries, HeaderWithProof(header, OfHashes(proof)));
      if header.number >= 15_537_394 then verdict == Rejected(WrongEra)
      else if epoch >= |acc.historicalEpochs| then verdict == IndexPanic
      else if Fold(HashSlow(header), proof, 32768 + 2 * i) == acc.historicalEpochs[epoch] then verdict == Accepted
      else verdict == Rejected(ExecutionProofFailed)
  {
    hide Fold;
    EpochsArePartition(header.number, epoch, i);
  }

  /** After it: the era check comes first, the header's opening second, the commitment's lookup third,
      the block's opening last. */
  lemma PostMergeVerdicts(acc: Accumulators, summaries: Summaries, hwp: HeaderWithProof)
    requires !hwp.proof.OfHashes?
    ensures var (kind, chain) := (hwp.proof.Kind(), ChainOf(hwp.proof));
      var verdict := Validate(acc, summaries, hwp);
      var anchor := AnchorOf(acc, summaries, kind, chain.slot);
      if !GuardAdmits(kind, hwp.header.number, hwp.header.timestamp) then verdict == Rejected(WrongEra)
      else if Fold(HashSlow(hwp.header), chain.executionProof, ExecutionIndex(kind)) != chain.blockRoot then
        verdict == Rejected(ExecutionProofFailed)
      else if anchor == None then verdict == if kind == HistoricalRoots then IndexPanic else Rejected(BeaconProofFailed)
      else if Fold(chain.blockRoot, chain.beaconProof, BeaconIndex(kind, chain.slot)) != anchor.value then
        verdict == Rejected(BeaconProofFailed)
      else verdict == Accepted
  {
    hide Fold;
  }

  /** The commitment and the generalized index for place `i` of entry `e`: frozen roots count slots
      from genesis, summaries from slot 6,209,536. */
  lemma AnchorsByAddress(acc: Accumulators, summaries: Summaries, kind: ProofKind, slot: u64, e: nat, i: nat)
    requires i < 8192
    ensures slot == 8192 * e + i ==>
      && BeaconIndex(HistoricalRoots, slot) == 16384 + i
      && AnchorOf(acc, summaries, HistoricalRoots, slot)
         == if e < |acc.historicalRoots| then Some(acc.historicalRoots[e]) else None
    ensures kind != HistoricalRoots && slot == 6_209_536 + 8192 * e + i ==>
      && BeaconIndex(kind, slot) == 8192 + i
      && AnchorOf(acc, summaries, kind, slot)
         == if e < |summaries| then Some(summaries[e].blockSummaryRoot) else None
    ensures kind != HistoricalRoots && slot < 6_209_536 ==> AnchorOf(acc, summaries, kind, slot) == None
  {
  }

  // ---- What an accepted header agrees with ----

  /** `epoch` is the one committed to for the number. */
  predicate EpochOf(acc: Accumulators, number: u64, epoch: EpochAccumulator) {
    && EpochIndexOfBlock(number) < |acc.historicalEpochs|
    && acc.historicalEpochs[EpochIndexOfBlock(number)] == EpochRoot(epoch)
  }

  /** The header has the recorded hash; past a partial epoch's end nothing is recorded, and its hash
      is part of a preimage of the zero leaf. Or there is a collision. */
  predicate AgreesWithEpoch(header: Header, proof: Vector15, epoch: EpochAccumulator) {
    var i := header.number % SLOTS_PER_HISTORICAL_ROOT;
    if i < |epoch| then
      || (HashSlow(header) == epoch[i].blockHash && proof == PreMergeProof(epoch, i))
      || Found(FindCollision(HashSlow(header), proof, epoch[i].blockHash, PreMergeProof(epoch, i),
                             PreMergeIndex(header.number)))
    else
      || H(HashSlow(header), proof[0]) == ZERO
      || Found(FindCollision(H(HashSlow(header), proof[0]), proof[1..], ZERO, ListBranch(epoch, i),
                             2 * SLOTS_PER_HISTORICAL_ROOT + i))
  }

  predicate AgreesWithBlock(hwp: HeaderWithProof, batch: HistoricalBatch, block: ChainBlock)
    requires !hwp.proof.OfHashes?
  {
    var (kind, chain, h) := (hwp.proof.Kind(), ChainOf(hwp.proof), HashSlow(hwp.header));
    RunsAlong(kind, h, chain, batch, block) || Found(CommittedCollision(kind, h, chain, batch, block))
  }

  /** The header agrees with whatever is committed to at its position. */
  ghost predicate Authentic(acc: Accumulators, summaries: Summaries, hwp: HeaderWithProof) {
    if hwp.proof.OfHashes? then
      forall epoch: EpochAccumulator ::
        EpochOf(acc, hwp.header.number, epoch) ==> AgreesWithEpoch(hwp.header, hwp.proof.hashes, epoch)
    else
      forall batch: HistoricalBatch, block: ChainBlock ::
        Covered(acc, summaries, hwp.proof, batch, block) ==> AgreesWithBlock(hwp, batch, block)
  }

  lemma AcceptedIsAuthentic(acc: Accumulators, summaries: Summaries, hwp: HeaderWithProof)
    requires Validate(acc, summaries, hwp) == Accepted
    ensures Authentic(acc, summaries, hwp)
  {
    hide Validate, Covered, EpochRoot, FindCollision, Found, RunsAlong, CommittedCollision, PreMergeProof, ListBranch;
    if hwp.proof.OfHashes? {
      forall epoch: EpochAccumulator | EpochOf(acc, hwp.header.number, epoch)
        ensures AgreesWithEpoch(hwp.header, hwp.proof.hashes, epoch)
      {
        if hwp.header.number % SLOTS_PER_HISTORICAL_ROOT < |epoch| {
          AcceptedIsRecorded(acc, summaries, hwp.header, hwp.proof.hashes, epoch);
        } else {
          AcceptedPastTheEnd(acc, summaries, hwp.header, hwp.proof.hashes, epoch);
        }
      }
    } else {
      forall batch: HistoricalBatch, block: ChainBlock | Covered(acc, summaries, hwp.proof, batch, block)
        ensures AgreesWithBlock(hwp, batch, block)
      {
        AcceptedIsCommitted(acc, summaries, hwp, batch, block);
      }
    }
  }

  // ---- The snapshot, and the panics ----

  /** Verdicts before Capella do not depend on the snapshot. */
  lemma PreCapellaIgnoresSnapshot(acc: Accumulators, s: Summaries, t: Summaries, hwp: HeaderWithProof)
    requires hwp.proof.OfHashes? || hwp.proof.OfRoots?
    ensures Validate(acc, s, hwp) == Validate(acc, t, hwp)
  {
  }

  /** Without a snapshot no header from Capella on is accepted; the failure is an ordinary
      rejection. */
  lemma EmptySnapshotRejects(acc: Accumulators, hwp: HeaderWithProof)
    requires hwp.proof.OfCapella? || hwp.proof.OfDeneb?
    ensures Validate(acc, [], hwp).Rejected?
  {
  }

  /** Extending the snapshot keeps every acceptance, and only ever turns a failed beacon proof
      into something else. */
  lemma ExtensionKeepsAcceptance(acc: Accumulators, s: Summaries, t: Summaries, hwp: HeaderWithProof)
    requires s <= t
    ensures Validate(acc, s, hwp) == Accepted ==> Validate(acc, t, hwp) == Accepted
    ensures Validate(acc, s, hwp) != Validate(acc, t, hwp) ==>
      && Validate(acc, s, hwp) == Rejected(BeaconProofFailed) && Validate(acc, t, hwp) == Accepted
      && GetHistoricalSummary(s, ChainOf(hwp.proof).slot).None?
  {
  }

  /** The lists have the lengths they are shipped with. */
  predicate Shipped(acc: Accumulators) {
    |acc.historicalEpochs| == PRE_MERGE_EPOCHS && |acc.historicalRoots| == FROZEN_HISTORICAL_ROOTS
  }

  /** A `HistoricalRoots` proof that passes its era and execution checks and names a slot from
      Capella on. */
  predicate NamesMissingEntry(hwp: HeaderWithProof) {
    && hwp.proof.OfRoots?
    && GuardAdmits(HistoricalRoots, hwp.header.number, hwp.header.timestamp)
    && Fold(HashSlow(hwp.header), hwp.proof.roots.executionBlockProof, EXECUTION_INDEX_BELLATRIX)
       == hwp.proof.roots.beaconBlockRoot
    && hwp.proof.roots.slot >= CapellaSlot()
  }

  /** With lists of the shipped lengths validation panics exactly for such proofs. */
  lemma PanicsExactly(acc: Accumulators, summaries: Summaries, hwp: HeaderWithProof)
    requires Shipped(acc)
    ensures Validate(acc, summaries, hwp) == IndexPanic <==> NamesMissingEntry(hwp)
  {
    PreMergeBlocksAreCovered(hwp.header.number);
  }

  /** Every execution branch can be given such a proof. */
  function MissingEntryProof(header: Header, p: Vector14, q: Vector11, slot: u64): BlockHeaderProof {
    OfRoots(BlockProofHistoricalRoots(p, Fold(HashSlow(header), q, EXECUTION_INDEX_BELLATRIX), q, slot))
  }
}
