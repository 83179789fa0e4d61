/** The block roots a beacon state holds, and the batch that is read from one
    (src/sources/beacon_rpc.rs). Processing slot `s` writes the root of slot `s` at `s % 8192`
    and moves on, as `process_slot` in the consensus specification (phase0, beacon chain) does. */
module BlockRootRing {
  import opened Primitives
  import opened Bits
  import opened MerkleSpec
  import opened BottomUpProof
  import opened NetworkSpec
  import opened Beacon
  import opened Ssz
  import opened HeaderWithProof
  import opened Validator

  /** The block roots of the state at slot `s`, on the chain whose root at slot `t` is `root(t)`. */
  function RingAt(root: nat -> Digest, s: nat): RootsPerHistoricalRoot {
    if s == 0 then ZeroDigests(SLOTS_PER_HISTORICAL_ROOT)
    else RingAt(root, s - 1)[(s - 1) % SLOTS_PER_HISTORICAL_ROOT := root(s - 1)]
  }

  /** The last 8192 slots before `s` are in the ring, each at its own place. */
  lemma {:induction false} RingHolds(root: nat -> Digest, s: nat, t: nat)
    requires t < s <= t + SLOTS_PER_HISTORICAL_ROOT
    ensures RingAt(root, s)[t % SLOTS_PER_HISTORICAL_ROOT] == root(t)
  {
    if t < s - 1 {
      assert t % SLOTS_PER_HISTORICAL_ROOT != (s - 1) % SLOTS_PER_HISTORICAL_ROOT;
      RingHolds(root, s - 1, t);
    }
  }

  lemma OneOfEachTurn(u: nat, t: nat)
    requires u % SLOTS_PER_HISTORICAL_ROOT == t % SLOTS_PER_HISTORICAL_ROOT
    requires u < t + SLOTS_PER_HISTORICAL_ROOT && t < u + SLOTS_PER_HISTORICAL_ROOT
    ensures u == t
  {
  }

  /** Exactly one of the last 8192 slots before `s` has place `k`. */
  lemma SlotAtPlace(s: nat, k: nat) returns (t: nat)
    requires k < SLOTS_PER_HISTORICAL_ROOT <= s
    ensures t < s <= t + SLOTS_PER_HISTORICAL_ROOT && t % SLOTS_PER_HISTORICAL_ROOT == k
    ensures forall u: nat :: u < s <= u + SLOTS_PER_HISTORICAL_ROOT && u % SLOTS_PER_HISTORICAL_ROOT == k ==> u == t
  {
    var n := SLOTS_PER_HISTORICAL_ROOT;
    t := s / n * n + k;
    if t >= s {
      t := t - n;
    }
    forall u: nat | u < s <= u + n && u % n == k
      ensures u == t
    {
      OneOfEachTurn(u, t);
    }
  }

  /** After the first turn each place holds the root of exactly one slot of the last 8192. */
  lemma RingPlaceHolds(root: nat -> Digest, s: nat, k: nat) returns (t: nat)
    requires k < SLOTS_PER_HISTORICAL_ROOT <= s
    ensures t < s <= t + SLOTS_PER_HISTORICAL_ROOT && t % SLOTS_PER_HISTORICAL_ROOT == k
    ensures RingAt(root, s)[k] == root(t)
    ensures forall u: nat :: u < s <= u + SLOTS_PER_HISTORICAL_ROOT && u % SLOTS_PER_HISTORICAL_ROOT == k ==> u == t
  {
    hide RingAt;
    t := SlotAtPlace(s, k);
    RingHolds(root, s, t);
  }

  /** Before the first turn the rest of the ring is zero. */
  lemma {:induction false} RingStartsZero(root: nat -> Digest, s: nat, k: nat)
    requires s <= k < SLOTS_PER_HISTORICAL_ROOT
    ensures RingAt(root, s)[k] == ZERO
  {
    hide ZeroDigests;
    if s > 0 {
      RingStartsZero(root, s - 1, k);
    }
  }

  function EraStart(slot: nat): nat {
    slot / SLOTS_PER_HISTORICAL_ROOT * SLOTS_PER_HISTORICAL_ROOT
  }

  function EraEnd(slot: nat): nat {
    EraStart(slot) + SLOTS_PER_HISTORICAL_ROOT - 1
  }

  /** What a provider promises: place `i` holds the root of slot `era_start + i`. */
  predicate BatchContract(root: nat -> Digest, slot: nat, roots: RootsPerHistoricalRoot) {
    forall i: nat :: i < SLOTS_PER_HISTORICAL_ROOT ==> roots[i] == root(EraStart(slot) + i)
  }

  /** What the beacon-API source reads: the state at the era's last slot. */
  function FetchedRoots(root: nat -> Digest, slot: nat): RootsPerHistoricalRoot {
    RingAt(root, EraEnd(slot))
  }

  const LAST_PLACE := 8191

  /** What place 8191 still holds at that moment: the root from one era earlier. */
  function StaleRoot(root: nat -> Digest, slot: nat): Digest {
    if EraStart(slot) == 0 then ZERO else root(EraStart(slot) - 1)
  }

  /** The fetched batch is current everywhere but at place 8191, which is one era old. */
  lemma FetchedIsStaleAtTheEnd(root: nat -> Digest, slot: nat, i: nat)
    requires i < SLOTS_PER_HISTORICAL_ROOT
    ensures FetchedRoots(root, slot)[i] == if i < LAST_PLACE then root(EraStart(slot) + i) else StaleRoot(root, slot)
  {
    var start, end := EraStart(slot), EraEnd(slot);
    if i < LAST_PLACE {
      assert (start + i) % SLOTS_PER_HISTORICAL_ROOT == i;
      RingHolds(root, end, start + i);
    } else if start > 0 {
      assert (start - 1) % SLOTS_PER_HISTORICAL_ROOT == LAST_PLACE;
      RingHolds(root, end, start - 1);
    } else {
      RingStartsZero(root, end, LAST_PLACE);
    }
  }

  /** The era's last root repeats the one a turn earlier. */
  predicate Repeats(root: nat -> Digest, slot: nat) {
    root(EraEnd(slot)) == StaleRoot(root, slot)
  }

  /** The contract is met exactly when the era's last root repeats the stale one. */
  lemma FetchedMeetsContractExactly(root: nat -> Digest, slot: nat)
    ensures BatchContract(root, slot, FetchedRoots(root, slot)) <==> Repeats(root, slot)
  {
    var roots := FetchedRoots(root, slot);
    forall i: nat | i < SLOTS_PER_HISTORICAL_ROOT
      ensures roots[i] == if i < LAST_PLACE then root(EraStart(slot) + i) else StaleRoot(root, slot)
    {
      FetchedIsStaleAtTheEnd(root, slot, i);
    }
    assert roots[LAST_PLACE] == StaleRoot(root, slot);
  }

  /** One slot later the state holds the whole era. */
  function EraRoots(root: nat -> Digest, slot: nat): RootsPerHistoricalRoot {
    RingAt(root, EraEnd(slot) + 1)
  }

  lemma EraRootsMeetContract(root: nat -> Digest, slot: nat)
    ensures BatchContract(root, slot, EraRoots(root, slot))
  {
    forall i: nat | i < SLOTS_PER_HISTORICAL_ROOT
      ensures EraRoots(root, slot)[i] == root(EraStart(slot) + i)
    {
      assert (EraStart(slot) + i) % SLOTS_PER_HISTORICAL_ROOT == i;
      RingHolds(root, EraEnd(slot) + 1, EraStart(slot) + i);
    }
  }

  /** For the last slot of an era the stale batch does no harm: its proof never contains the
      stale leaf. */
  lemma LastSlotProofIsRight(root: nat -> Digest, slot: nat)
    ensures BuildRootsProof(FetchedRoots(root, slot), LAST_PLACE) == BuildRootsProof(EraRoots(root, slot), LAST_PLACE)
  {
    hide FetchedRoots, EraRoots, StaleRoot, Siblings, BuildMerkleProofForIndex, Pow2, Low, CeilLog2;
    var stale, whole := FetchedRoots(root, slot), EraRoots(root, slot);
    EraRootsMeetContract(root, slot);
    forall i: nat | i != LAST_PLACE
      ensures LeafAt(stale, i) == LeafAt(whole, i)
    {
      if i < LAST_PLACE {
        FetchedIsStaleAtTheEnd(root, slot, i);
      }
    }
    HeightOf(stale);
    HeightOf(whole);
    EraIndices(LAST_PLACE);
    BuildIsSiblings(stale, LAST_PLACE);
    BuildIsSiblings(whole, LAST_PLACE);
    SiblingsAgree(stale, whole, LAST_PLACE, 0, ERA_HEIGHT);
  }

  /** So the whole proof for that slot is the one the true block roots give, in all four forks. */
  lemma {:induction false} LastSlotBuildsTheSame(
    root: nat -> Digest, slot: u64, stateRoots: RootsPerHistoricalRoot, block: BeaconBlock)
    requires slot % SLOTS_PER_HISTORICAL_ROOT == LAST_PLACE
    ensures BuildPostMergeProof(slot, HistoricalBatch(FetchedRoots(root, slot), stateRoots), block)
         == BuildPostMergeProof(slot, HistoricalBatch(EraRoots(root, slot), stateRoots), block)
  {
    hide FetchedRoots, EraRoots, BuildPostMergeProof, BlockRoot, BuildRootsProof, BuildExecutionBlockHashProof,
         RootsRoot;
    LastSlotProofIsRight(root, slot);
    BuiltChain(slot, HistoricalBatch(FetchedRoots(root, slot), stateRoots), block);
    BuiltChain(slot, HistoricalBatch(EraRoots(root, slot), stateRoots), block);
  }

  /** Only then the fetched roots are the era's. */
  lemma FetchedIsEraExactly(root: nat -> Digest, slot: nat)
    ensures FetchedRoots(root, slot) == EraRoots(root, slot) <==> Repeats(root, slot)
  {
    hide FetchedRoots, EraRoots, StaleRoot;
    var fetched, era := FetchedRoots(root, slot), EraRoots(root, slot);
    EraRootsMeetContract(root, slot);
    FetchedMeetsContractExactly(root, slot);
    assert era[LAST_PLACE] == root(EraStart(slot) + LAST_PLACE);
    FetchedIsStaleAtTheEnd(root, slot, LAST_PLACE);
    if Repeats(root, slot) {
      forall i: nat | i < SLOTS_PER_HISTORICAL_ROOT
        ensures fetched[i] == era[i]
      {
        assert fetched[i] == root(EraStart(slot) + i);
      }
    }
  }

  /** A chain on which no root comes twice. */
  function Counting(t: nat): Digest {
    Chunk(t)
  }

  /** For its slots, in every era, the source breaks the provider's contract. */
  lemma ContractFails(slot: u64)
    ensures !BatchContract(Counting, slot, FetchedRoots(Counting, slot))
    ensures FetchedRoots(Counting, slot) != EraRoots(Counting, slot)
  {
    hide FetchedRoots, EraRoots, BatchContract, Chunk;
    ChunkOfZero();
    if Repeats(Counting, slot) {
      ChunkInjective(EraEnd(slot), if EraStart(slot) == 0 then 0 else EraStart(slot) - 1);
    }
    FetchedMeetsContractExactly(Counting, slot);
    FetchedIsEraExactly(Counting, slot);
  }

  /** The collision that a wrongly accepted stale batch would amount to. */
  function StaleCollision(root: nat -> Digest, slot: nat): Option<(Pair, Pair)> {
    HonestCollision(EraRoots(root, slot), StaleRoot(root, slot),
                    Siblings(FetchedRoots(root, slot), 0, LAST_PLACE, ERA_HEIGHT), LAST_PLACE)
  }

  /** If the stale batch had the root of the whole era, its last place would be right, or the two
      trees collide. */
  lemma {:induction false} StaleRootBinds(root: nat -> Digest, slot: nat)
    requires RootsRoot(FetchedRoots(root, slot)) == RootsRoot(EraRoots(root, slot))
    ensures Repeats(root, slot) || Found(StaleCollision(root, slot))
  {
    hide FetchedRoots, EraRoots, StaleRoot, NodeAt, Siblings, HonestCollision;
    EraIndices(LAST_PLACE);
    FetchedIsStaleAtTheEnd(root, slot, LAST_PLACE);
    EraRootsMeetContract(root, slot);
    assert EraRoots(root, slot)[LAST_PLACE] == root(EraStart(slot) + LAST_PLACE);
    RootBinding(FetchedRoots(root, slot), EraRoots(root, slot), ERA_HEIGHT, LAST_PLACE);
  }

  // ---- When a proof from the fetched batch is accepted ----

  /** Block roots and state roots are written at the same place in the same step. */
  function FetchedBatch(root: nat -> Digest, stateRoot: nat -> Digest, slot: nat): HistoricalBatch {
    HistoricalBatch(FetchedRoots(root, slot), FetchedRoots(stateRoot, slot))
  }

  function EraBatch(root: nat -> Digest, stateRoot: nat -> Digest, slot: nat): HistoricalBatch {
    HistoricalBatch(EraRoots(root, slot), EraRoots(stateRoot, slot))
  }

  /** The batch whose commitment a proof built from the fetched one leads to: at the last slot the
      stale block root is not in the proof. */
  function ProvenBatch(root: nat -> Digest, stateRoot: nat -> Digest, slot: nat): HistoricalBatch {
    HistoricalBatch(
      if slot % SLOTS_PER_HISTORICAL_ROOT == LAST_PLACE then EraRoots(root, slot) else FetchedRoots(root, slot),
      FetchedRoots(stateRoot, slot))
  }

  /** What makes the fetched batch good enough for the proof of `slot`: repeated roots, the block
      roots everywhere but at the last slot, the state roots in Bellatrix. */
  predicate GoodEnough(root: nat -> Digest, stateRoot: nat -> Digest, slot: nat, fork: ForkName) {
    && (slot % SLOTS_PER_HISTORICAL_ROOT != LAST_PLACE ==> Repeats(root, slot))
    && (fork == Bellatrix ==> Repeats(stateRoot, slot))
  }

  lemma ProvenBatchIsRightHere(root: nat -> Digest, stateRoot: nat -> Digest, slot: u64, block: BeaconBlock)
    ensures BuildPostMergeProof(slot, FetchedBatch(root, stateRoot, slot), block)
         == BuildPostMergeProof(slot, ProvenBatch(root, stateRoot, slot), block)
    ensures ProvenBatch(root, stateRoot, slot).blockRoots[slot % SLOTS_PER_HISTORICAL_ROOT] == root(slot)
    ensures EraBatch(root, stateRoot, slot).blockRoots[slot % SLOTS_PER_HISTORICAL_ROOT] == root(slot)
  {
    hide FetchedRoots, EraRoots, BuildPostMergeProof, StaleRoot;
    var i := slot % SLOTS_PER_HISTORICAL_ROOT;
    assert EraStart(slot) + i == slot;
    EraRootsMeetContract(root, slot);
    assert EraRoots(root, slot)[i] == root(EraStart(slot) + i);
    if i == LAST_PLACE {
      LastSlotBuildsTheSame(root, slot, FetchedRoots(stateRoot, slot), block);
    } else {
      FetchedIsStaleAtTheEnd(root, slot, i);
    }
  }

  /** The collision of two batch roots, or of two trees of block roots, or of state roots. */
  function BatchCollision(root: nat -> Digest, stateRoot: nat -> Digest, slot: nat, fork: ForkName)
    : Option<(Pair, Pair)>
  {
    var proven, era := ProvenBatch(root, stateRoot, slot), EraBatch(root, stateRoot, slot);
    var x := Pair(RootsRoot(proven.blockRoots), RootsRoot(proven.stateRoots));
    var y := Pair(RootsRoot(era.blockRoots), RootsRoot(era.stateRoots));
    if fork == Bellatrix && Collides(x, y) then Some((x, y))
    else if Found(StaleCollision(root, slot)) then StaleCollision(root, slot)
    else StaleCollision(stateRoot, slot)
  }

  /** The commitment the proof leads to is the era's exactly when the fetched batch is good
      enough, short of a collision. */
  lemma {:induction false} CommitmentBinds(root: nat -> Digest, stateRoot: nat -> Digest, slot: nat, fork: ForkName)
    ensures var kind := KindForFork(fork);
      var same := EraCommitment(kind, ProvenBatch(root, stateRoot, slot))
          == EraCommitment(kind, EraBatch(root, stateRoot, slot));
      && (GoodEnough(root, stateRoot, slot, fork) ==> same)
      && (same ==> GoodEnough(root, stateRoot, slot, fork) || Found(BatchCollision(root, stateRoot, slot, fork)))
  {
    hide FetchedRoots, EraRoots, RootsRoot, Repeats, StaleCollision;
    FetchedIsEraExactly(root, slot);
    FetchedIsEraExactly(stateRoot, slot);
    if RootsRoot(FetchedRoots(root, slot)) == RootsRoot(EraRoots(root, slot)) {
      StaleRootBinds(root, slot);
    }
    if RootsRoot(FetchedRoots(stateRoot, slot)) == RootsRoot(EraRoots(stateRoot, slot)) {
      StaleRootBinds(stateRoot, slot);
    }
  }

  /** For every slot and all four forks: against the era's true commitment, the proof built from
      the fetched batch for the block at that slot is accepted exactly when the header is the
      block's, passes its era check and the fetched batch is good enough, short of a collision. */
  lemma {:induction false} StaleProofAcceptedExactly(
    root: nat -> Digest, stateRoot: nat -> Digest, acc: Accumulators, summaries: Summaries, header: Header,
    slot: u64, block: BeaconBlock)
    requires BlockRoot(block) == root(slot)
    requires Anchored(acc, summaries, slot, EraBatch(root, stateRoot, slot), block.Fork())
    ensures var fork := block.Fork();
      var hwp := HeaderWithProof(header, BuildPostMergeProof(slot, FetchedBatch(root, stateRoot, slot), block));
      var h := block.body.payload.blockHash;
      var good :=
        && GuardAdmits(KindForFork(fork), header.number, header.timestamp)
        && HashSlow(header) == h
        && GoodEnough(root, stateRoot, slot, fork);
      && (good ==> Validate(acc, summaries, hwp) == Accepted)
      && (Validate(acc, summaries, hwp) == Accepted ==>
          || good
          || Found(BatchCollision(root, stateRoot, slot, fork))
          || Found(BuiltCollision(header, block)))
  {
    hide FetchedRoots, EraRoots, Validate, Fold, RootsRoot, BatchRoot, BlockRoot, BuildRootsProof, BlockRootProof,
         BuildPostMergeProof, BuildExecutionBlockHashProof, StaleRoot, BatchCollision, GoodEnough, OpeningCollision,
         OpensIn, GuardAdmits, ProvenBatch, EraBatch, EraProof, EraCommitment, BeaconIndex, ExecutionIndex, Found,
         Anchored;
    var kind := KindForFork(block.Fork());
    var proven, era := ProvenBatch(root, stateRoot, slot), EraBatch(root, stateRoot, slot);
    ProvenBatchIsRightHere(root, stateRoot, slot, block);
    BuiltChain(slot, proven, block);
    AcceptedOpens(acc, summaries, HeaderWithProof(header, BuildPostMergeProof(slot, proven, block)));
    AnchoredIs(acc, summaries, slot, era, block.Fork());
    EraProofIs(kind, slot, proven);
    EraProofFolds(kind, slot, proven);
    OpeningsOfBlock(kind, HashSlow(header), BuildExecutionBlockHashProof(block), Modern(block));
    OpensInModern(kind, HashSlow(header), BuildExecutionBlockHashProof(block), block);
    CommitmentBinds(root, stateRoot, slot, block.Fork());
  }

  lemma AnchoredIs(acc: Accumulators, summaries: Summaries, slot: u64, batch: HistoricalBatch, fork: ForkName)
    requires Anchored(acc, summaries, slot, batch, fork)
    ensures AnchorOf(acc, summaries, KindForFork(fork), slot) == Some(EraCommitment(KindForFork(fork), batch))
  {
    hide RootsRoot, BatchRoot;
  }

  lemma EraProofIs(kind: ProofKind, slot: u64, batch: HistoricalBatch)
    ensures var i := slot % SLOTS_PER_HISTORICAL_ROOT;
      EraProof(kind, slot, batch)
        == if kind == HistoricalRoots then BlockRootProof(batch, i) else BuildRootsProof(batch.blockRoots, i)
  {
    hide BlockRootProof, BuildRootsProof;
  }

  // ---- Chains of blocks ----

  /** A chain from genesis on: some slots have a block, and each block names its own slot. */
  ghost predicate IsChain(blocks: nat -> Option<ChainBlock>) {
    && blocks(0).Some?
    && forall t: nat :: blocks(t).Some? ==> blocks(t).value.Fields()[0] == Chunk(t)
  }

  /** The slot of the latest block at slot `t`. */
  function LatestAt(blocks: nat -> Option<ChainBlock>, t: nat): (s: nat)
    requires blocks(0).Some?
    ensures s <= t && blocks(s).Some?
  {
    if blocks(t).Some? then t else LatestAt(blocks, t - 1)
  }

  /** The root at a slot without a block is the one of the latest block. */
  function RootsOf(blocks: nat -> Option<ChainBlock>): nat -> Digest
    requires blocks(0).Some?
  {
    (t: nat) => blocks(LatestAt(blocks, t)).value.Root()
  }

  lemma RootAt(blocks: nat -> Option<ChainBlock>, t: nat)
    requires blocks(0).Some?
    ensures RootsOf(blocks)(t) == blocks(LatestAt(blocks, t)).value.Root()
    ensures blocks(t).Some? ==> LatestAt(blocks, t) == t
  {
  }

  /** A block fetched for its slot has the root of that slot. */
  lemma RootAtBlock(blocks: nat -> Option<ChainBlock>, slot: nat, block: BeaconBlock)
    requires blocks(0).Some? && blocks(slot) == Some(Modern(block))
    ensures RootsOf(blocks)(slot) == BlockRoot(block)
  {
    hide BlockRoot;
    RootAt(blocks, slot);
  }

  lemma {:induction false} LatestIsNoEarlier(blocks: nat -> Option<ChainBlock>, s: nat, t: nat)
    requires blocks(0).Some? && blocks(s).Some? && s <= t
    ensures LatestAt(blocks, t) >= s
  {
    if blocks(t).None? {
      LatestIsNoEarlier(blocks, s, t - 1);
    }
  }

  /** The 64 bytes that hash to a block's root. */
  function TopPair(block: ChainBlock): Pair {
    Pair(NodeAt(block.Fields(), 2, 0), NodeAt(block.Fields(), 2, 1))
  }

  lemma RootOfFields(block: ChainBlock)
    ensures block.Root() == NodeAt(block.Fields(), 3, 0) == HashPair(TopPair(block))
  {
    hide LeafAt;
    HeightOf(block.Fields());
  }

  function BlockCollision(x: ChainBlock, y: ChainBlock): Option<(Pair, Pair)> {
    HonestCollision(y.Fields(), x.Fields()[0], Siblings(x.Fields(), 0, 0, 3), 0)
  }

  /** Blocks of two slots have two roots, or reveal a collision. */
  lemma BlocksDiffer(x: ChainBlock, s: u64, y: ChainBlock, t: u64)
    requires x.Fields()[0] == Chunk(s) && y.Fields()[0] == Chunk(t) && x.Root() == y.Root()
    ensures s == t || Found(BlockCollision(x, y))
  {
    hide NodeAt, Siblings, Chunk, HonestCollision, Found;
    RootOfFields(x);
    RootOfFields(y);
    assert Pow2(3) == 8;
    RootBinding(x.Fields(), y.Fields(), 3, 0);
    if x.Fields()[0] == y.Fields()[0] {
      ChunkInjective(s, t);
    }
  }

  /** What it would take for the last root of an era with a block to repeat the one a turn earlier:
      a block root of zero in the first era, a collision of two blocks in any other. */
  ghost predicate RepeatFound(blocks: nat -> Option<ChainBlock>, slot: nat)
    requires blocks(0).Some?
  {
    var last := blocks(LatestAt(blocks, EraEnd(slot))).value;
    if EraStart(slot) == 0 then HashPair(TopPair(last)) == ZERO
    else Found(BlockCollision(last, blocks(LatestAt(blocks, EraStart(slot) - 1)).value))
  }

  lemma EraRepeatsNothing(blocks: nat -> Option<ChainBlock>, slot: u64, t: nat)
    requires IsChain(blocks) && blocks(t).Some?
    requires EraStart(slot) <= t <= EraEnd(slot)
    requires Repeats(RootsOf(blocks), slot)
    ensures RepeatFound(blocks, slot)
  {
    hide Chunk, BlockCollision, Found, RootsOf, LatestAt, TopPair, BlockRoot, ContainerRoot;
    var s := LatestAt(blocks, EraEnd(slot));
    LatestIsNoEarlier(blocks, t, EraEnd(slot));
    RootAt(blocks, EraEnd(slot));
    RootOfFields(blocks(s).value);
    if EraStart(slot) > 0 {
      var s' := LatestAt(blocks, EraStart(slot) - 1);
      RootAt(blocks, EraStart(slot) - 1);
      BlocksDiffer(blocks(s).value, s, blocks(s').value, s');
    }
  }

  /** On any chain, and short of a collision or of a block root of zero, the proof that is built
      from the fetched batch for the block of a slot is accepted at an era's last slot at most,
      whatever the header. */
  lemma {:induction false} FetchedProofsFail(
    blocks: nat -> Option<ChainBlock>, stateRoot: nat -> Digest, acc: Accumulators, summaries: Summaries,
    header: Header, slot: u64, block: BeaconBlock)
    requires IsChain(blocks) && blocks(slot) == Some(Modern(block))
    requires Anchored(acc, summaries, slot, EraBatch(RootsOf(blocks), stateRoot, slot), block.Fork())
    requires Validate(acc, summaries, HeaderWithProof(header, BuildPostMergeProof(slot,
      FetchedBatch(RootsOf(blocks), stateRoot, slot), block))) == Accepted
    ensures
      || slot % SLOTS_PER_HISTORICAL_ROOT == LAST_PLACE
      || RepeatFound(blocks, slot)
      || Found(BatchCollision(RootsOf(blocks), stateRoot, slot, block.Fork()))
      || Found(BuiltCollision(header, block))
  {
    hide Validate, BuildPostMergeProof, FetchedBatch, EraBatch, RepeatFound, Found, BatchCollision, BuiltCollision,
         BlockRoot, Anchored, Repeats, RootsOf;
    RootAtBlock(blocks, slot, block);
    StaleProofAcceptedExactly(RootsOf(blocks), stateRoot, acc, summaries, header, slot, block);
    if Repeats(RootsOf(blocks), slot) {
      EraRepeatsNothing(blocks, slot, slot);
    }
  }
}
