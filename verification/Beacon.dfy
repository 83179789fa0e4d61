/** Beacon-chain containers of the four forks and the proofs read off them
    (src/portal_types/consensus: execution_payload.rs, body.rs, beacon_block.rs,
    beacon_state.rs). A field is represented by its own hash tree root; the root of a container
    is the padded Merkle root of its fields. */
module Beacon {
  import opened Primitives
  import opened Bits
  import opened MerkleSpec
  import opened BottomUpProof
  import opened NetworkSpec

  datatype ExecutionPayload = ExecutionPayload(
    parentHash: Digest, feeRecipient: Digest, stateRoot: Digest, receiptsRoot: Digest,
    logsBloom: Digest, prevRandao: Digest, blockNumber: Digest, gasLimit: Digest,
    gasUsed: Digest, timestamp: Digest, extraData: Digest, baseFeePerGas: Digest,
    blockHash: Digest, transactions: Digest)

  /** The fields every body has before its payload. */
  datatype BodyPrefix = BodyPrefix(
    randaoReveal: Digest, eth1Data: Digest, graffiti: Digest, proposerSlashings: Digest,
    attesterSlashings: Digest, attestations: Digest, deposits: Digest, voluntaryExits: Digest,
    syncAggregate: Digest)

  datatype BeaconBlockBody =
    | BodyBellatrix(prefix: BodyPrefix, payload: ExecutionPayload)
    | BodyCapella(prefix: BodyPrefix, payload: ExecutionPayload, withdrawals: Digest,
        blsToExecutionChanges: Digest)
    | BodyDeneb(prefix: BodyPrefix, payload: ExecutionPayload, withdrawals: Digest,
        blobGasUsed: Digest, excessBlobGas: Digest,
        blsToExecutionChanges: Digest, blobKzgCommitments: Digest)
    | BodyElectra(prefix: BodyPrefix, payload: ExecutionPayload, withdrawals: Digest,
        blobGasUsed: Digest, excessBlobGas: Digest,
        blsToExecutionChanges: Digest, blobKzgCommitments: Digest, executionRequests: Digest)

  datatype BeaconBlock = BeaconBlock(
    slot: Digest, proposerIndex: Digest, parentRoot: Digest, stateRoot: Digest, body: BeaconBlockBody)
  {
    function Fork(): ForkName {
      if body.BodyBellatrix? then Bellatrix
      else if body.BodyCapella? then Capella
      else if body.BodyDeneb? then Deneb
      else Electra
    }
  }

  function ContainerRoot(fields: seq<Digest>): Digest {
    Root(fields, Height(fields))
  }

  /** 14 fields in Bellatrix, 15 in Capella, 17 from Deneb on. */
  function PayloadFields(body: BeaconBlockBody): (fields: seq<Digest>)
    ensures |fields| == (if body.BodyBellatrix? then 14 else if body.BodyCapella? then 15 else 17)
    ensures fields[12] == body.payload.blockHash
  {
    var p := body.payload;
    [p.parentHash, p.feeRecipient, p.stateRoot, p.receiptsRoot, p.logsBloom, p.prevRandao,
     p.blockNumber, p.gasLimit, p.gasUsed, p.timestamp, p.extraData, p.baseFeePerGas,
     p.blockHash, p.transactions]
    + (if body.BodyBellatrix? then []
       else if body.BodyCapella? then [body.withdrawals]
       else [body.withdrawals, body.blobGasUsed, body.excessBlobGas])
  }

  /** 10 fields in Bellatrix, and one more in each later fork. */
  function BodyFields(body: BeaconBlockBody): (fields: seq<Digest>)
    ensures 10 <= |fields| <= 13
    ensures fields[9] == ContainerRoot(PayloadFields(body))
  {
    var b := body.prefix;
    [b.randaoReveal, b.eth1Data, b.graffiti, b.proposerSlashings, b.attesterSlashings,
     b.attestations, b.deposits, b.voluntaryExits, b.syncAggregate, ContainerRoot(PayloadFields(body))]
    + (match body
       case BodyBellatrix(_, _) => []
       case BodyCapella(_, _, _, changes) => [changes]
       case BodyDeneb(_, _, _, _, _, changes, kzg) => [changes, kzg]
       case BodyElectra(_, _, _, _, _, changes, kzg, requests) => [changes, kzg, requests])
  }

  function BlockFields(block: BeaconBlock): (fields: seq<Digest>)
    ensures |fields| == 5 && fields[4] == ContainerRoot(BodyFields(block.body))
  {
    [block.slot, block.proposerIndex, block.parentRoot, block.stateRoot, ContainerRoot(BodyFields(block.body))]
  }

  function BlockRoot(block: BeaconBlock): Digest {
    ContainerRoot(BlockFields(block))
  }

  lemma Powers()
    ensures Pow2(2) == 4 && Pow2(3) == 8 && Pow2(4) == 16 && Pow2(5) == 32 && Pow2(6) == 64
    ensures Pow2(12) == 4096 && Pow2(ERA_HEIGHT) == 8192
  {
  }

  /** Heights of the containers, by number of fields, and of one era of roots. */
  lemma HeightOf(fields: seq<Digest>)
    ensures |fields| == 5 ==> Height(fields) == 3
    ensures |fields| == 8 ==> Height(fields) == 3
    ensures 9 <= |fields| <= 15 ==> Height(fields) == 4
    ensures |fields| in {17, 28} ==> Height(fields) == 5
    ensures |fields| == 37 ==> Height(fields) == 6
    ensures |fields| == 8192 ==> Height(fields) == ERA_HEIGHT
  {
    hide Pow2, CeilLog2;
    Powers();
    var n := |fields|;
    if n in {5, 8} {
      CeilLog2Is(n, 3);
    } else if 9 <= n <= 15 {
      CeilLog2Is(n, 4);
    } else if n in {17, 28} {
      CeilLog2Is(n, 5);
    } else if n == 37 {
      CeilLog2Is(n, 6);
    } else if n == 8192 {
      CeilLog2Is(n, 13);
    }
  }

  function BuildBlockHashProof(body: BeaconBlockBody): (proof: seq<Digest>)
    ensures |proof| == if body.BodyBellatrix? || body.BodyCapella? then 4 else 5
  {
    HeightOf(PayloadFields(body));
    BuildIsSiblings(PayloadFields(body), 12);
    BuildMerkleProofForIndex(PayloadFields(body), 12)
  }

  function BuildExecutionPayloadProof(body: BeaconBlockBody): (proof: seq<Digest>)
    ensures |proof| == 4
  {
    HeightOf(BodyFields(body));
    BuildIsSiblings(BodyFields(body), 9);
    BuildMerkleProofForIndex(BodyFields(body), 9)
  }

  function BuildBodyRootProof(block: BeaconBlock): (proof: seq<Digest>)
    ensures |proof| == 3
  {
    HeightOf(BlockFields(block));
    BuildIsSiblings(BlockFields(block), 4);
    BuildMerkleProofForIndex(BlockFields(block), 4)
  }

  function BuildExecutionBlockHashProof(block: BeaconBlock): (proof: seq<Digest>)
    ensures |proof| == if block.Fork() == Bellatrix || block.Fork() == Capella then 11 else 12
  {
    BuildBlockHashProof(block.body) + BuildExecutionPayloadProof(block.body) + BuildBodyRootProof(block)
  }

  /** The two constants the verifier uses: 3228 up to Capella, 6444 from Deneb on. */
  const EXECUTION_INDEX_BELLATRIX := 3228
  const EXECUTION_INDEX_DENEB := 6444

  function ExecutionIndex(kind: ProofKind): nat {
    if kind == HistoricalSummariesDeneb then EXECUTION_INDEX_DENEB else EXECUTION_INDEX_BELLATRIX
  }

  /** Leaf 12 of the payload. */
  lemma BlockHashProofFolds(body: BeaconBlockBody)
    ensures Fold(body.payload.blockHash, BuildBlockHashProof(body), 12) == ContainerRoot(PayloadFields(body))
  {
    hide Fold, Root, Height, BuildMerkleProofForIndex, Pow2;
    HeightOf(PayloadFields(body));
    assert Low(12, 4) == 12 && Low(12, 5) == 12;
    BuildFolds(PayloadFields(body), 12, 12);
  }

  /** Leaf 9 of the body. */
  lemma ExecutionPayloadProofFolds(body: BeaconBlockBody)
    ensures Fold(ContainerRoot(PayloadFields(body)), BuildExecutionPayloadProof(body), 9)
         == ContainerRoot(BodyFields(body))
  {
    hide Fold, Root, Height, BuildMerkleProofForIndex, Pow2;
    HeightOf(BodyFields(body));
    assert Low(9, 4) == 9;
    BuildFolds(BodyFields(body), 9, 9);
  }

  /** Leaf 4 of the block, below the top bit of the generalized index. */
  lemma BodyRootProofFolds(block: BeaconBlock)
    ensures Fold(ContainerRoot(BodyFields(block.body)), BuildBodyRootProof(block), 12) == BlockRoot(block)
  {
    hide Fold, Root, Height, BuildMerkleProofForIndex, Pow2;
    HeightOf(BlockFields(block));
    assert Low(12, 3) == 4;
    BuildFolds(BlockFields(block), 4, 12);
  }

  /** Openings at leaves 12, 9 and 4 of containers of height 4 or 5, 4 and 3 chain into one
      opening at the verifier's constant. */
  lemma ExecutionChain(a: Digest, p: seq<Digest>, b: Digest, q: seq<Digest>, c: Digest, r: seq<Digest>, d: Digest)
    requires |p| in {4, 5} && |q| == 4
    requires Fold(a, p, 12) == b && Fold(b, q, 9) == c && Fold(c, r, 12) == d
    ensures Fold(a, p + q + r, if |p| == 4 then EXECUTION_INDEX_BELLATRIX else EXECUTION_INDEX_DENEB) == d
  {
    assert Pow2(4) == 16 && Pow2(5) == 32;
    if |p| == 4 {
      ChainOpenings(a, p, 12, b, q, 9, c, r, 12, d, 16, 16);
    } else {
      ChainOpenings(a, p, 12, b, q, 9, c, r, 12, d, 32, 16);
    }
  }

  /** The three sub-proofs, concatenated, climb from the payload's block hash to the block root
      at the verifier's constant. */
  lemma ExecutionProofFolds(block: BeaconBlock)
    ensures var kind := KindForFork(block.Fork());
      Fold(block.body.payload.blockHash, BuildExecutionBlockHashProof(block), ExecutionIndex(kind)) == BlockRoot(block)
  {
    BlockHashProofFolds(block.body);
    ExecutionPayloadProofFolds(block.body);
    BodyRootProofFolds(block);
    ExecutionChain(block.body.payload.blockHash, BuildBlockHashProof(block.body),
                   ContainerRoot(PayloadFields(block.body)), BuildExecutionPayloadProof(block.body),
                   ContainerRoot(BodyFields(block.body)), BuildBodyRootProof(block), BlockRoot(block));
  }

  /** The fork of a block shows in the number of its body's fields and of its payload's. */
  lemma ForksByFields(block: BeaconBlock)
    ensures var (fork, n, m) := (block.Fork(), |BodyFields(block.body)|, |PayloadFields(block.body)|);
      && (fork == Bellatrix <==> n == 10) && (fork == Capella <==> n == 11)
      && (fork == Deneb <==> n == 12) && (fork == Electra <==> n == 13)
      && m == if fork == Bellatrix then 14 else if fork == Capella then 15 else 17
  {
    hide ContainerRoot;
  }

  // ---- The place of every field ----

  /** `leaf` opens the payload's root at leaf `k`, and the block's root at the generalized index of
      that leaf. */
  predicate InPayload(block: BeaconBlock, k: nat, leaf: Digest) {
    var fields := PayloadFields(block.body);
    var proof := BuildMerkleProofForIndex(fields, k);
    && Fold(leaf, proof, k) == ContainerRoot(fields)
    && Fold(leaf, proof + BuildExecutionPayloadProof(block.body) + BuildBodyRootProof(block),
            k + (if |fields| == 17 then 6432 else 3216)) == BlockRoot(block)
  }

  predicate InBody(block: BeaconBlock, k: nat, leaf: Digest) {
    var fields := BodyFields(block.body);
    var proof := BuildMerkleProofForIndex(fields, k);
    && Fold(leaf, proof, k) == ContainerRoot(fields)
    && Fold(leaf, proof + BuildBodyRootProof(block), 192 + k) == BlockRoot(block)
  }

  predicate InBlock(block: ChainBlock, k: nat, leaf: Digest) {
    Fold(leaf, BuildMerkleProofForIndex(block.Fields(), k), 8 + k) == block.Root()
  }

  lemma {:induction false} LeafInPayload(block: BeaconBlock, k: nat)
    requires k < |PayloadFields(block.body)|
    ensures InPayload(block, k, PayloadFields(block.body)[k])
  {
    hide Fold, Root, BlockRoot, BuildMerkleProofForIndex, BuildExecutionPayloadProof, BuildBodyRootProof, Pow2, Low;
    var fields := PayloadFields(block.body);
    HeightOf(fields);
    Powers();
    SmallIndex(k, Height(fields));
    BuildFolds(fields, k, k);
    ExecutionPayloadProofFolds(block.body);
    BodyRootProofFolds(block);
    hide ContainerRoot, Height;
    ChainOpenings(fields[k], BuildMerkleProofForIndex(fields, k), k, ContainerRoot(fields),
                  BuildExecutionPayloadProof(block.body), 9, ContainerRoot(BodyFields(block.body)),
                  BuildBodyRootProof(block), 12, BlockRoot(block), if |fields| == 17 then 32 else 16, 16);
  }

  lemma {:induction false} LeafInBody(block: BeaconBlock, k: nat)
    requires k < |BodyFields(block.body)|
    ensures InBody(block, k, BodyFields(block.body)[k])
  {
    hide Fold, Root, BlockRoot, BuildMerkleProofForIndex, BuildBodyRootProof, Pow2, Low;
    var fields := BodyFields(block.body);
    HeightOf(fields);
    Powers();
    SmallIndex(k, 4);
    BuildFolds(fields, k, k);
    BodyRootProofFolds(block);
    FoldCompose(fields[k], BuildMerkleProofForIndex(fields, k), k, BuildBodyRootProof(block), 12);
  }

  lemma {:induction false} LeafInBlock(block: ChainBlock, k: nat)
    requires k < 5
    ensures InBlock(block, k, block.Fields()[k])
  {
    hide Fold, Root, BuildMerkleProofForIndex, Pow2, Low, Shr;
    HeightOf(block.Fields());
    Powers();
    SplitIndex(k, 1, 3);
    BuildFolds(block.Fields(), k, 8 + k);
  }

  /** Every field of the payload, fork by fork. */
  lemma PayloadPlaces(block: BeaconBlock)
    ensures var p := block.body.payload;
      && InPayload(block, 0, p.parentHash) && InPayload(block, 1, p.feeRecipient)
      && InPayload(block, 2, p.stateRoot) && InPayload(block, 3, p.receiptsRoot)
      && InPayload(block, 4, p.logsBloom) && InPayload(block, 5, p.prevRandao)
      && InPayload(block, 6, p.blockNumber) && InPayload(block, 7, p.gasLimit)
      && InPayload(block, 8, p.gasUsed) && InPayload(block, 9, p.timestamp)
      && InPayload(block, 10, p.extraData) && InPayload(block, 11, p.baseFeePerGas)
      && InPayload(block, 12, p.blockHash) && InPayload(block, 13, p.transactions)
    ensures !block.body.BodyBellatrix? ==> InPayload(block, 14, block.body.withdrawals)
    ensures block.body.BodyDeneb? || block.body.BodyElectra? ==>
      InPayload(block, 15, block.body.blobGasUsed) && InPayload(block, 16, block.body.excessBlobGas)
  {
    hide InPayload;
    var fields := PayloadFields(block.body);
    forall k, leaf | 0 <= k < |fields| && leaf == fields[k]
      ensures InPayload(block, k, leaf)
    {
      LeafInPayload(block, k);
    }
  }

  /** Every field of the body. */
  lemma BodyPlaces(block: BeaconBlock)
    ensures var b := block.body.prefix;
      && InBody(block, 0, b.randaoReveal) && InBody(block, 1, b.eth1Data) && InBody(block, 2, b.graffiti)
      && InBody(block, 3, b.proposerSlashings) && InBody(block, 4, b.attesterSlashings)
      && InBody(block, 5, b.attestations) && InBody(block, 6, b.deposits) && InBody(block, 7, b.voluntaryExits)
      && InBody(block, 8, b.syncAggregate) && InBody(block, 9, ContainerRoot(PayloadFields(block.body)))
    ensures !block.body.BodyBellatrix? ==> InBody(block, 10, block.body.blsToExecutionChanges)
    ensures block.body.BodyDeneb? || block.body.BodyElectra? ==> InBody(block, 11, block.body.blobKzgCommitments)
    ensures block.body.BodyElectra? ==> InBody(block, 12, block.body.executionRequests)
  {
    hide InBody, ContainerRoot, PayloadFields;
    var fields := BodyFields(block.body);
    forall k, leaf | 0 <= k < |fields| && leaf == fields[k]
      ensures InBody(block, k, leaf)
    {
      LeafInBody(block, k);
    }
  }

  /** Every field of a block of any fork. */
  lemma BlockPlaces(block: ChainBlock)
    ensures match block
      case Modern(b) =>
        && InBlock(block, 0, b.slot) && InBlock(block, 1, b.proposerIndex) && InBlock(block, 2, b.parentRoot)
        && InBlock(block, 3, b.stateRoot) && InBlock(block, 4, ContainerRoot(BodyFields(b.body)))
      case Early(_, _, _, _, body) =>
        && InBlock(block, 0, block.slot) && InBlock(block, 1, block.proposerIndex)
        && InBlock(block, 2, block.parentRoot) && InBlock(block, 3, block.stateRoot)
        && InBlock(block, 4, ContainerRoot(body))
  {
    hide InBlock, ContainerRoot, BodyFields;
    var fields := block.Fields();
    forall k, leaf | 0 <= k < 5 && leaf == fields[k]
      ensures InBlock(block, k, leaf)
    {
      LeafInBlock(block, k);
    }
  }

  // ---- What an execution proof can open in a given block, whatever its fork ----

  /** The roots of the eight fields of a Phase 0 body or the nine of an Altair body; neither has
      a payload. */
  type EarlyBody = s: seq<Digest> | |s| in {8, 9} ghost witness ZeroDigests(8)

  /** A block of any fork so far. The code decodes those from Bellatrix on, but the commitments
      reach back to the first. */
  datatype ChainBlock =
    | Modern(block: BeaconBlock)
    | Early(slot: Digest, proposerIndex: Digest, parentRoot: Digest, stateRoot: Digest, body: EarlyBody)
  {
    function Fields(): (fields: seq<Digest>)
      ensures |fields| == 5
    {
      match this
      case Modern(block) => BlockFields(block)
      case Early(slot, proposerIndex, parentRoot, stateRoot, body) =>
        [slot, proposerIndex, parentRoot, stateRoot, ContainerRoot(body)]
    }

    function Root(): Digest {
      if Modern? then BlockRoot(block) else ContainerRoot(Fields())
    }
  }

  /** Payloads of Deneb and Electra have a tree of height 5, earlier ones of height 4. */
  predicate LongPayload(block: BeaconBlock) {
    block.Fork() == Deneb || block.Fork() == Electra
  }

  /** Opens the block number, leaf 6 of a payload of height 4. */
  function BlockNumberProof(block: BeaconBlock): (proof: seq<Digest>)
    ensures !LongPayload(block) ==> |proof| == 11
  {
    HeightOf(PayloadFields(block.body));
    BuildIsSiblings(PayloadFields(block.body), 6);
    BuildMerkleProofForIndex(PayloadFields(block.body), 6)
      + BuildExecutionPayloadProof(block.body) + BuildBodyRootProof(block)
  }

  /** Opens node 12 of the row above the leaves in a payload of height 5. */
  function PaddingProof(block: BeaconBlock): (proof: seq<Digest>)
    ensures |proof| == 11
  {
    Siblings(PayloadFields(block.body), 1, 12, 4) + BuildExecutionPayloadProof(block.body) + BuildBodyRootProof(block)
  }

  /** Opens leaf 9 of an Altair body, one past its fields, or leaf 4 of a Phase 0 body. */
  function EarlyProof(block: ChainBlock): (proof: seq<Digest>)
    requires block.Early?
    ensures |proof| == if |block.body| == 9 then 7 else 6
  {
    Siblings(block.body, 0, if |block.body| == 9 then 9 else 4, if |block.body| == 9 then 4 else 3)
      + Siblings(block.Fields(), 0, 4, 3)
  }

  lemma BlockNumberProofFolds(body: BeaconBlockBody)
    requires body.BodyBellatrix? || body.BodyCapella?
    ensures |BuildMerkleProofForIndex(PayloadFields(body), 6)| == 4
    ensures Fold(body.payload.blockNumber, BuildMerkleProofForIndex(PayloadFields(body), 6), 6)
         == ContainerRoot(PayloadFields(body))
  {
    hide Fold, Root, Height, BuildMerkleProofForIndex, Pow2;
    HeightOf(PayloadFields(body));
    assert Low(6, 4) == 6;
    BuildFolds(PayloadFields(body), 6, 6);
  }

  lemma BlockNumberOpens(block: BeaconBlock)
    requires !LongPayload(block)
    ensures Fold(block.body.payload.blockNumber, BlockNumberProof(block), 3222) == BlockRoot(block)
  {
    hide Fold, BlockRoot, ContainerRoot, BuildMerkleProofForIndex, BuildExecutionPayloadProof, BuildBodyRootProof;
    assert Pow2(4) == 16;
    BlockNumberProofFolds(block.body);
    ExecutionPayloadProofFolds(block.body);
    BodyRootProofFolds(block);
    ChainOpenings(block.body.payload.blockNumber, BuildMerkleProofForIndex(PayloadFields(block.body), 6), 6,
                  ContainerRoot(PayloadFields(block.body)), BuildExecutionPayloadProof(block.body), 9,
                  ContainerRoot(BodyFields(block.body)), BuildBodyRootProof(block), 12, BlockRoot(block), 16, 16);
  }

  /** The seventeen fields end before leaf 24, so node 12 of the next row covers padding only. */
  lemma PaddingFolds(body: BeaconBlockBody)
    requires !body.BodyBellatrix? && !body.BodyCapella?
    ensures Fold(H(ZERO, ZERO), Siblings(PayloadFields(body), 1, 12, 4), 12) == ContainerRoot(PayloadFields(body))
  {
    hide Fold, Siblings, Height;
    var fields := PayloadFields(body);
    HeightOf(fields);
    assert NodeAt(fields, 1, 12) == H(NodeAt(fields, 0, 24), NodeAt(fields, 0, 25));
    assert Shr(12, 4) == 0;
    FoldSiblings(fields, 1, 12, 4);
  }

  lemma PaddingOpens(block: BeaconBlock)
    requires LongPayload(block)
    ensures Fold(H(ZERO, ZERO), PaddingProof(block), EXECUTION_INDEX_BELLATRIX) == BlockRoot(block)
  {
    hide Fold, BlockRoot, ContainerRoot, Siblings, BuildExecutionPayloadProof, BuildBodyRootProof;
    PaddingFolds(block.body);
    ExecutionPayloadProofFolds(block.body);
    BodyRootProofFolds(block);
    ExecutionChain(H(ZERO, ZERO), Siblings(PayloadFields(block.body), 1, 12, 4),
                   ContainerRoot(PayloadFields(block.body)), BuildExecutionPayloadProof(block.body),
                   ContainerRoot(BodyFields(block.body)), BuildBodyRootProof(block), BlockRoot(block));
  }

  lemma EarlyBodyFolds(body: EarlyBody)
    ensures |body| == 9 ==> Fold(ZERO, Siblings(body, 0, 9, 4), 9) == ContainerRoot(body)
    ensures |body| == 8 ==> Fold(body[4], Siblings(body, 0, 4, 3), 4) == ContainerRoot(body)
  {
    hide Fold, Siblings, Height;
    HeightOf(body);
    if |body| == 9 {
      assert Shr(9, 4) == 0 && NodeAt(body, 0, 9) == ZERO;
      FoldSiblings(body, 0, 9, 4);
    } else {
      assert Shr(4, 3) == 0 && NodeAt(body, 0, 4) == body[4];
      FoldSiblings(body, 0, 4, 3);
    }
  }

  lemma EarlyBlockFolds(block: ChainBlock)
    requires block.Early?
    ensures Fold(ContainerRoot(block.body), Siblings(block.Fields(), 0, 4, 3), 12) == block.Root()
  {
    hide Fold, Siblings, Height;
    var fields := block.Fields();
    HeightOf(fields);
    assert Shr(4, 3) == 0 && NodeAt(fields, 0, 4) == fields[4];
    assert Low(12, 3) == 4 && Low(4, 3) == 4;
    FoldSiblings(fields, 0, 4, 3);
    HighBitsIgnored(fields[4], Siblings(fields, 0, 4, 3), 12, 4);
  }

  lemma EarlyOpens(block: ChainBlock)
    requires block.Early?
    ensures |block.body| == 9 ==> Fold(ZERO, EarlyProof(block), 201) == block.Root()
    ensures |block.body| == 8 ==> Fold(block.body[4], EarlyProof(block), 100) == block.Root()
  {
    hide Fold, Siblings, ContainerRoot;
    EarlyBodyFolds(block.body);
    EarlyBlockFolds(block);
    if |block.body| == 9 {
      assert Pow2(4) == 16;
      FoldCompose(ZERO, Siblings(block.body, 0, 9, 4), 9, Siblings(block.Fields(), 0, 4, 3), 12);
    } else {
      assert Pow2(3) == 8;
      FoldCompose(block.body[4], Siblings(block.body, 0, 4, 3), 4, Siblings(block.Fields(), 0, 4, 3), 12);
    }
  }

  /** The number of nodes of an execution proof. */
  function ExecutionDepth(kind: ProofKind): nat {
    if kind == HistoricalSummariesDeneb then 12 else 11
  }

  /** Where the path of the verifier's constant meets a block's own tree: after `climbed` steps it
      is at `node`, and `branch` leads from there to the block's root. */
  datatype Landing = Landing(climbed: nat, node: Digest, branch: seq<Digest>)

  /** A proof of the height of the payload's tree starts at its block hash. A longer one starts
      below the block number, a shorter one on the payload's padding. Without a payload the path
      comes from below the body: from under its padding in Altair, from under its fifth field
      in Phase 0. */
  function LandingOf(kind: ProofKind, block: ChainBlock): (l: Landing)
    ensures l.climbed + |l.branch| == ExecutionDepth(kind)
  {
    match block
    case Modern(b) =>
      if LongPayload(b) == (kind == HistoricalSummariesDeneb) then
        Landing(0, b.body.payload.blockHash, BuildExecutionBlockHashProof(b))
      else if LongPayload(b) then Landing(0, H(ZERO, ZERO), PaddingProof(b))
      else Landing(1, b.body.payload.blockNumber, BlockNumberProof(b))
    case Early(_, _, _, _, body) =>
      Landing(ExecutionDepth(kind) - |EarlyProof(block)|, if |body| == 9 then ZERO else body[4], EarlyProof(block))
  }

  lemma LandingOpens(kind: ProofKind, block: ChainBlock)
    ensures var l := LandingOf(kind, block);
      Fold(l.node, l.branch, Shr(ExecutionIndex(kind), l.climbed)) == block.Root()
  {
    hide Fold, BlockRoot, ContainerRoot, BuildExecutionBlockHashProof, PaddingProof, BlockNumberProof, EarlyProof, Shr;
    ShiftedIndices();
    match block {
      case Modern(b) =>
        if LongPayload(b) == (kind == HistoricalSummariesDeneb) {
          ExecutionProofFolds(b);
        } else if LongPayload(b) {
          PaddingOpens(b);
        } else {
          BlockNumberOpens(b);
        }
      case Early(_, _, _, _, _) =>
        EarlyOpens(block);
    }
  }

  lemma ShiftedIndices()
    ensures Shr(EXECUTION_INDEX_BELLATRIX, 0) == 3228 && Shr(EXECUTION_INDEX_DENEB, 0) == 6444
    ensures Shr(EXECUTION_INDEX_DENEB, 1) == 3222
    ensures Shr(EXECUTION_INDEX_BELLATRIX, 4) == 201 && Shr(EXECUTION_INDEX_DENEB, 5) == 201
    ensures Shr(EXECUTION_INDEX_BELLATRIX, 5) == 100 && Shr(EXECUTION_INDEX_DENEB, 6) == 100
    ensures Low(EXECUTION_INDEX_BELLATRIX, 4) == Low(12, 4) && Low(EXECUTION_INDEX_DENEB, 5) == Low(12, 5)
  {
  }

  /** `branch` takes `leaf` along the path of the verifier's constant to the block's own node, and
      from there on is the block's own branch. */
  predicate OpensIn(kind: ProofKind, leaf: Digest, branch: seq<Digest>, block: ChainBlock)
    requires |branch| == ExecutionDepth(kind)
  {
    var l := LandingOf(kind, block);
    Fold(leaf, branch[..l.climbed], ExecutionIndex(kind)) == l.node && branch[l.climbed..] == l.branch
  }

  function OpeningCollision(kind: ProofKind, leaf: Digest, branch: seq<Digest>, block: ChainBlock)
    : Option<(Pair, Pair)>
    requires |branch| == ExecutionDepth(kind)
  {
    var l := LandingOf(kind, block);
    FindCollision(Fold(leaf, branch[..l.climbed], ExecutionIndex(kind)), branch[l.climbed..], l.node, l.branch,
                  Shr(ExecutionIndex(kind), l.climbed))
  }

  /** Openings of a block's root at the verifier's two constants are the ones along the block's own
      tree, for every fork and either length, or reveal a collision. */
  lemma OpeningsOfBlock(kind: ProofKind, leaf: Digest, branch: seq<Digest>, block: ChainBlock)
    requires |branch| == ExecutionDepth(kind)
    ensures OpensIn(kind, leaf, branch, block) ==> Fold(leaf, branch, ExecutionIndex(kind)) == block.Root()
    ensures Fold(leaf, branch, ExecutionIndex(kind)) == block.Root() ==>
      OpensIn(kind, leaf, branch, block) || Found(OpeningCollision(kind, leaf, branch, block))
  {
    hide Fold, LandingOf, FindCollision, Found, Shr, ExecutionIndex, ContainerRoot;
    var (l, index) := (LandingOf(kind, block), ExecutionIndex(kind));
    var (below, above) := (branch[..l.climbed], branch[l.climbed..]);
    assert branch == below + above;
    FoldConcat(leaf, below, above, index);
    LandingOpens(kind, block);
    OpeningIs(Fold(leaf, below, index), above, l.node, l.branch, Shr(index, l.climbed), block.Root());
  }

  /** What that comes to for the leaf, from Bellatrix on. */
  lemma OpensInModern(kind: ProofKind, leaf: Digest, branch: seq<Digest>, block: BeaconBlock)
    requires |branch| == ExecutionDepth(kind)
    ensures OpensIn(kind, leaf, branch, Modern(block)) <==>
      if LongPayload(block) == (kind == HistoricalSummariesDeneb) then
        leaf == block.body.payload.blockHash && branch == BuildExecutionBlockHashProof(block)
      else if LongPayload(block) then leaf == H(ZERO, ZERO) && branch == PaddingProof(block)
      else H(leaf, branch[0]) == block.body.payload.blockNumber && branch[1..] == BlockNumberProof(block)
  {
    hide BuildExecutionBlockHashProof, PaddingProof, BlockNumberProof, Fold;
    FoldNone(leaf, ExecutionIndex(kind));
    FoldOne(leaf, branch[..1], ExecutionIndex(kind));
    assert branch[0..] == branch && branch[..0] == [];
  }

  /** And before, where there is no payload: the hash would have to climb to a zero leaf of an
      Altair body, or to be part of a preimage of a Phase 0 body's fifth field root. */
  lemma OpensInEarly(kind: ProofKind, leaf: Digest, branch: seq<Digest>, block: ChainBlock)
    requires block.Early? && |branch| == ExecutionDepth(kind)
    ensures var w := ExecutionDepth(kind) - 7;
      OpensIn(kind, leaf, branch, block) <==>
      if |block.body| == 9 then Fold(leaf, branch[..w], 12) == ZERO && branch[w..] == EarlyProof(block)
      else H(branch[w], Fold(leaf, branch[..w], 12)) == block.body[4] && branch[w + 1..] == EarlyProof(block)
  {
    hide EarlyProof, Fold, Low, Shr;
    var index := ExecutionIndex(kind);
    var w := ExecutionDepth(kind) - 7;
    ShiftedIndices();
    HighBitsIgnored(leaf, branch[..w], index, 12);
    assert branch[..w + 1] == branch[..w] + [branch[w]];
    FoldConcat(leaf, branch[..w], [branch[w]], index);
    FoldOne(Fold(leaf, branch[..w], index), [branch[w]], 201);
  }

  // ---- Historical batches and states ----

  type RootsPerHistoricalRoot = s: seq<Digest> | |s| == SLOTS_PER_HISTORICAL_ROOT
    ghost witness ZeroDigests(SLOTS_PER_HISTORICAL_ROOT)

  datatype HistoricalBatch = HistoricalBatch(blockRoots: RootsPerHistoricalRoot, stateRoots: RootsPerHistoricalRoot)

  /** Height of the tree over one era of roots. */
  const ERA_HEIGHT := 13

  function RootsRoot(roots: RootsPerHistoricalRoot): Digest {
    Root(roots, ERA_HEIGHT)
  }

  function BatchRoot(batch: HistoricalBatch): Digest {
    H(RootsRoot(batch.blockRoots), RootsRoot(batch.stateRoots))
  }

  function BuildRootsProof(roots: RootsPerHistoricalRoot, index: nat): (proof: seq<Digest>)
    requires index < SLOTS_PER_HISTORICAL_ROOT
    ensures |proof| == ERA_HEIGHT
  {
    HeightOf(roots);
    BuildIsSiblings(roots, index);
    BuildMerkleProofForIndex(roots, index)
  }

  function BlockRootProof(batch: HistoricalBatch, index: nat): (proof: seq<Digest>)
    requires index < SLOTS_PER_HISTORICAL_ROOT
    ensures |proof| == 14
  {
    BuildRootsProof(batch.blockRoots, index) + [RootsRoot(batch.stateRoots)]
  }

  /** The proof within the block roots with the state side pushed last. The assertion on its
      length, here the absence of a result, fails exactly for indices past the era. */
  method BuildBlockRootProof(batch: HistoricalBatch, index: nat) returns (r: Option<seq<Digest>>)
    ensures r == if index < SLOTS_PER_HISTORICAL_ROOT then Some(BlockRootProof(batch, index)) else None
  {
    var proofHashes := BuildMerkleProofForIndex(batch.blockRoots, index);
    RootsProofLength(batch.blockRoots, index);
    proofHashes := proofHashes + [RootsRoot(batch.stateRoots)];
    if |proofHashes| != 14 {
      return None;
    }
    r := Some(proofHashes);
  }

  lemma RootsProofLength(roots: RootsPerHistoricalRoot, index: nat)
    ensures |BuildMerkleProofForIndex(roots, index)| == if index < SLOTS_PER_HISTORICAL_ROOT then ERA_HEIGHT else 0
  {
    hide Pow2, LayerProof;
    HeightOf(roots);
    Powers();
    if index < SLOTS_PER_HISTORICAL_ROOT {
      BuildIsSiblings(roots, index);
    } else {
      PaddedIsRow(roots);
      OutOfRangeFindsNothing(PaddedLeaves(roots), ERA_HEIGHT, index);
    }
  }

  /** Leaf indices within one era, bare and as the verifier's generalized indices. */
  lemma EraIndices(index: nat)
    requires index < SLOTS_PER_HISTORICAL_ROOT
    ensures Pow2(ERA_HEIGHT) == 8192
    ensures Low(index, ERA_HEIGHT) == index
    ensures Low(SLOTS_PER_HISTORICAL_ROOT + index, ERA_HEIGHT) == index
  {
    hide Pow2, Low, Shr;
    Powers();
    SmallIndex(index, ERA_HEIGHT);
    SplitIndex(index, 1, ERA_HEIGHT);
  }

  /** `8192 + i` at depth 13 is leaf `i` of the block roots, and so is `i` itself. */
  lemma RootsProofFolds(roots: RootsPerHistoricalRoot, index: nat)
    requires index < SLOTS_PER_HISTORICAL_ROOT
    ensures Fold(roots[index], BuildRootsProof(roots, index), SLOTS_PER_HISTORICAL_ROOT + index) == RootsRoot(roots)
    ensures Fold(roots[index], BuildRootsProof(roots, index), index) == RootsRoot(roots)
  {
    HeightOf(roots);
    EraIndices(index);
    BuildFolds(roots, index, SLOTS_PER_HISTORICAL_ROOT + index);
    BuildFolds(roots, index, index);
  }

  /** `2 * 8192 + i` at depth 14 is leaf `i` of the block roots, on the left of the batch. */
  lemma {:induction false} BlockRootProofFolds(batch: HistoricalBatch, index: nat)
    requires index < SLOTS_PER_HISTORICAL_ROOT
    ensures Fold(batch.blockRoots[index], BlockRootProof(batch, index), 2 * SLOTS_PER_HISTORICAL_ROOT + index)
         == BatchRoot(batch)
  {
    EraIndices(index);
    RootsProofFolds(batch.blockRoots, index);
    ExtendOpening(batch.blockRoots[index], BuildRootsProof(batch.blockRoots, index), index,
                  RootsRoot(batch.blockRoots), RootsRoot(batch.stateRoots), 2 * SLOTS_PER_HISTORICAL_ROOT + index);
  }

  const HISTORICAL_SUMMARIES_FIELD := 27
  const HISTORICAL_SUMMARIES_GINDEX := 91

  /** `fields` are the 28 field roots of a Deneb state or the 37 of an Electra state. */
  function BuildHistoricalSummariesProof(fields: seq<Digest>): seq<Digest>
    requires |fields| in {28, 37}
  {
    HeightOf(fields);
    BuildMerkleProofForIndex(fields, HISTORICAL_SUMMARIES_FIELD)
  }

  /** The Electra proof has the six nodes its type asks for and opens the state root at the
      declared generalized index; the Deneb proof is one level shorter, at index 59. */
  lemma HistoricalSummariesProofFolds(fields: seq<Digest>)
    requires |fields| in {28, 37}
    ensures var proof := BuildHistoricalSummariesProof(fields);
      && |proof| == (if |fields| == 37 then 6 else 5)
      && Fold(fields[HISTORICAL_SUMMARIES_FIELD], proof, if |fields| == 37 then HISTORICAL_SUMMARIES_GINDEX else 59)
         == ContainerRoot(fields)
  {
    hide Fold, Root, Height, BuildMerkleProofForIndex, Pow2;
    HeightOf(fields);
    if |fields| == 37 {
      assert Low(HISTORICAL_SUMMARIES_GINDEX, 6) == 27;
      BuildFolds(fields, 27, HISTORICAL_SUMMARIES_GINDEX);
    } else {
      assert Low(59, 5) == 27;
      BuildFolds(fields, 27, 59);
    }
  }
}
