/** Pre-merge proofs built from an epoch accumulator (src/proof_construction.rs,
    src/portal_types/execution/accumulator.rs). */
module PreMerge {
  import opened Primitives
  import opened Bits
  import opened MerkleSpec
  import opened MerkleProof
  import opened NetworkSpec
  import opened Beacon
  import opened Ssz
  import opened HeaderWithProof

  type U256 = x: int | 0 <= x < 0x1_0000000000000000_0000000000000000_0000000000000000_0000000000000000

  datatype HeaderRecord = HeaderRecord(blockHash: Digest, totalDifficulty: U256)

  /** A list of at most 8192 records; the epoch of the merge is shorter. */
  type EpochAccumulator = s: seq<HeaderRecord> | |s| <= SLOTS_PER_HISTORICAL_ROOT

  function RecordRoot(record: HeaderRecord): Digest {
    H(record.blockHash, Chunk(record.totalDifficulty))
  }

  function RecordRoots(epoch: seq<HeaderRecord>): (roots: seq<Digest>)
    ensures |roots| == |epoch| && forall i :: 0 <= i < |epoch| ==> roots[i] == RecordRoot(epoch[i])
  {
    seq(|epoch|, i requires 0 <= i < |epoch| => RecordRoot(epoch[i]))
  }

  /** The hash tree root of the list: the root at its capacity of 2^13, mixed with its length. */
  function EpochRoot(epoch: EpochAccumulator): Digest {
    H(Root(RecordRoots(epoch), ERA_HEIGHT), Chunk(|epoch|))
  }

  datatype ConstructionError = HashMismatch | GenerationFailed | LeafMismatch | LengthNot15

  datatype Construction =
    | Constructed(proof: Vector15)
    | Failed(error: ConstructionError)
    | IndexOutOfRange

  /** Difficulty, the thirteen siblings of the record, length. */
  function PreMergeProof(epoch: EpochAccumulator, i: nat): Vector15
    requires i < |epoch|
  {
    [Chunk(epoch[i].totalDifficulty)] + Siblings(RecordRoots(epoch), 0, i, ERA_HEIGHT) + [Chunk(|epoch|)]
  }

  /** The index within the epoch decides between a panic and a result, the stored hash between
      an error and a proof. */
  function PreMergeConstruction(header: Header, epoch: EpochAccumulator): Construction {
    var i := header.number % SLOTS_PER_HISTORICAL_ROOT;
    if i >= |epoch| then IndexOutOfRange
    else if epoch[i].blockHash != HashSlow(header) then Failed(HashMismatch)
    else Constructed(PreMergeProof(epoch, i))
  }

  method ConstructPreMergeProof(header: Header, epoch: EpochAccumulator) returns (r: Construction)
    ensures r == PreMergeConstruction(header, epoch)
  {
    hide Create, Descend, Siblings, Chunk;
    var index := header.number % SLOTS_PER_HISTORICAL_ROOT;
    if index >= |epoch| {
      return IndexOutOfRange;
    }
    var record := epoch[index];
    if record.blockHash != HashSlow(header) {
      return Failed(HashMismatch);
    }
    var difficulty := Chunk(record.totalDifficulty);
    var recordHash := H(record.blockHash, difficulty);
    var leaves := RecordRoots(epoch);
    var tree := Create(leaves, 13);
    EraIndices(index);
    GenerateOnCreated(leaves, 13, index);
    var generated := GenerateProof(tree, index, 13);
    if !generated.Proof? {
      return Failed(GenerationFailed);
    }
    if generated.leaf != recordHash {
      return Failed(LeafMismatch);
    }
    var proof := generated.branch;
    proof := [difficulty] + proof;
    proof := proof + [Chunk(|epoch|)];
    if |proof| != 15 {
      return Failed(LengthNot15);
    }
    r := Constructed(proof);
  }

  /** Position `i` of the list at its capacity, whether or not there is a record: the fourteen
      steps above the leaf. */
  function ListBranch(epoch: EpochAccumulator, i: nat): (branch: seq<Digest>)
    ensures |branch| == 14
  {
    Siblings(RecordRoots(epoch), 0, i, ERA_HEIGHT) + [Chunk(|epoch|)]
  }

  lemma ListBranchFolds(epoch: EpochAccumulator, i: nat)
    requires i < SLOTS_PER_HISTORICAL_ROOT
    ensures Fold(LeafAt(RecordRoots(epoch), i), ListBranch(epoch, i), 2 * SLOTS_PER_HISTORICAL_ROOT + i)
        == EpochRoot(epoch)
  {
    hide Fold, NodeAt, Siblings, Chunk, LeafAt;
    var leaves := RecordRoots(epoch);
    EraIndices(i);
    OpenLeaf(leaves, ERA_HEIGHT, i);
    ExtendOpening(LeafAt(leaves, i), Siblings(leaves, 0, i, ERA_HEIGHT), i, Root(leaves, ERA_HEIGHT), Chunk(|epoch|),
                  2 * SLOTS_PER_HISTORICAL_ROOT + i);
  }

  /** The first step joins hash and difficulty into the record, the next thirteen climb to the
      list's root, the last mixes in the length. */
  lemma PreMergeProofFolds(epoch: EpochAccumulator, i: nat)
    requires i < |epoch|
    ensures Fold(epoch[i].blockHash, PreMergeProof(epoch, i), 4 * SLOTS_PER_HISTORICAL_ROOT + 2 * i) == EpochRoot(epoch)
  {
    hide Fold, Siblings, Chunk, EpochRoot;
    ListBranchFolds(epoch, i);
    PrependOpening(epoch[i].blockHash, Chunk(epoch[i].totalDifficulty), ListBranch(epoch, i),
                   2 * SLOTS_PER_HISTORICAL_ROOT + i, EpochRoot(epoch));
    assert PreMergeProof(epoch, i) == [Chunk(epoch[i].totalDifficulty)] + ListBranch(epoch, i);
  }

  // ---- What the root of an epoch commits to ----

  lemma U256Bound(x: U256)
    ensures x < Pow256(32)
  {
    assert Pow256(8) == 0x1_0000000000000000;
    assert Pow256(16) == 0x1_0000000000000000_0000000000000000;
    assert Pow256(24) == 0x1_0000000000000000_0000000000000000_0000000000000000;
    assert Pow256(32) == 0x1_0000000000000000_0000000000000000_0000000000000000_0000000000000000;
  }

  function RecordPair(record: HeaderRecord): Pair {
    Pair(record.blockHash, Chunk(record.totalDifficulty))
  }

  /** Records with one root have one hash and one difficulty, or collide. */
  lemma RecordBinds(x: HeaderRecord, y: HeaderRecord)
    requires RecordRoot(x) == RecordRoot(y)
    ensures x == y || Collides(RecordPair(x), RecordPair(y))
  {
    hide Chunk, Pow256;
    U256Bound(x.totalDifficulty);
    U256Bound(y.totalDifficulty);
    ChunkGivesBack(x.totalDifficulty, y.totalDifficulty);
  }

  function TopPair(epoch: EpochAccumulator): Pair {
    Pair(Root(RecordRoots(epoch), ERA_HEIGHT), Chunk(|epoch|))
  }

  /** Looks for a collision at the top, on the way to record `k`, and at record `k`. */
  function EpochCollision(a: EpochAccumulator, b: EpochAccumulator, k: nat): Option<(Pair, Pair)> {
    if Collides(TopPair(a), TopPair(b)) then Some((TopPair(a), TopPair(b)))
    else
      var s, t := RecordRoots(a), RecordRoots(b);
      var below := HonestCollision(t, LeafAt(s, k), Siblings(s, 0, k, ERA_HEIGHT), k);
      if Found(below) then below
      else if k < |a| && k < |b| then Some((RecordPair(a[k]), RecordPair(b[k])))
      else None
  }

  lemma {:induction false} RecordsBind(a: EpochAccumulator, b: EpochAccumulator, k: nat)
    requires EpochRoot(a) == EpochRoot(b) && |a| == |b| && k < |a|
    ensures a[k] == b[k] || Found(EpochCollision(a, b, k))
  {
    hide NodeAt, Siblings, Chunk, HonestCollision, RecordRoot, Pow2;
    Powers();
    if !Collides(TopPair(a), TopPair(b)) {
      RootBinding(RecordRoots(a), RecordRoots(b), ERA_HEIGHT, k);
      if RecordRoot(a[k]) == RecordRoot(b[k]) {
        RecordBinds(a[k], b[k]);
      }
    }
  }

  /** Epochs with one root are equal, in length, hashes and difficulties, or collide. */
  lemma {:induction false} EpochRootBinds(a: EpochAccumulator, b: EpochAccumulator) returns (k: nat)
    requires EpochRoot(a) == EpochRoot(b)
    ensures a == b || Found(EpochCollision(a, b, k))
  {
    hide NodeAt, Chunk, RecordRoots, RecordPair, HonestCollision, Siblings;
    k := 0;
    if !Collides(TopPair(a), TopPair(b)) {
      ChunkInjective(|a|, |b|);
      while k < |a| && a[k] == b[k]
        invariant k <= |a|
        invariant a[..k] == b[..k]
      {
        k := k + 1;
      }
      if k < |a| {
        RecordsBind(a, b, k);
      } else {
        assert a == a[..k] && b == b[..k];
      }
    }
  }
}
