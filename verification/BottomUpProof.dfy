/** The bottom-up proof builder over a leaf list padded to a power of two
    (src/portal_types/consensus/proof.rs), with the layer-by-layer tree it hands the leaves to. */
module BottomUpProof {
  import opened Primitives
  import opened Bits
  import opened MerkleSpec
  import opened MerkleProof

  /** The height of the tree over `leaves` padded to the next power of two. */
  function Height(leaves: seq<Digest>): nat {
    CeilLog2(|leaves|)
  }

  /** The first of `p`, `2 * p`, `4 * p`, ... that is at least `n`. */
  function Doubled(p: nat, n: nat): (m: nat)
    requires p >= 1
    ensures m >= n
    decreases n - p
  {
    if p >= n then p else Doubled(2 * p, n)
  }

  /** `next_power_of_two` */
  function NextPowerOfTwo(n: nat): (m: nat)
    ensures m >= n
  {
    Doubled(1, n)
  }

  lemma {:induction false} DoubledIsPow2(k: nat, n: nat)
    requires k <= CeilLog2(n)
    ensures Doubled(Pow2(k), n) == Pow2(CeilLog2(n))
    decreases CeilLog2(n) - k
  {
    var c := CeilLog2(n);
    if k < c {
      Pow2Grows(k, c - 1);
      DoubledIsPow2(k + 1, n);
    }
  }

  /** The leaves, followed by zero leaves up to the next power of two. */
  function PaddedLeaves(leaves: seq<Digest>): (padded: seq<Digest>)
    ensures |padded| == NextPowerOfTwo(|leaves|)
  {
    leaves + ZeroDigests(NextPowerOfTwo(|leaves|) - |leaves|)
  }

  /** Hashes a layer in pairs; a node without a partner moves up as it is. */
  function NextLayer(layer: seq<Digest>): (next: seq<Digest>)
    ensures |next| == (|layer| + 1) / 2
  {
    if |layer| < 2 then layer else [H(layer[0], layer[1])] + NextLayer(layer[2..])
  }

  /** The siblings on the way to the root, layer by layer, where there are any. */
  function LayerProof(layer: seq<Digest>, index: nat): seq<Digest>
    decreases |layer|
  {
    if |layer| <= 1 then []
    else
      var sibling := Sibling(index);
      (if sibling < |layer| then [layer[sibling]] else []) + LayerProof(NextLayer(layer), index / 2)
  }

  function LayerRoot(layer: seq<Digest>): Digest
    requires layer != []
    decreases |layer|
  {
    if |layer| == 1 then layer[0] else LayerRoot(NextLayer(layer))
  }

  function BuildMerkleProofForIndex(leaves: seq<Digest>, index: nat): seq<Digest> {
    LayerProof(PaddedLeaves(leaves), index)
  }

  /** `layer` is row `level` of the perfect tree over `leaves`. */
  predicate IsRow(layer: seq<Digest>, leaves: seq<Digest>, level: nat) {
    forall k: nat :: k < |layer| ==> layer[k] == NodeAt(leaves, level, k)
  }

  lemma {:induction false} NextLayerAt(layer: seq<Digest>, k: nat)
    requires 2 * k + 1 < |layer|
    ensures NextLayer(layer)[k] == H(layer[2 * k], layer[2 * k + 1])
  {
    if k > 0 {
      NextLayerAt(layer[2..], k - 1);
    }
  }

  lemma {:induction false} NextRow(layer: seq<Digest>, leaves: seq<Digest>, level: nat)
    requires IsRow(layer, leaves, level) && |layer| % 2 == 0
    ensures IsRow(NextLayer(layer), leaves, level + 1)
  {
    forall k: nat | k < |layer| / 2
      ensures NextLayer(layer)[k] == NodeAt(leaves, level + 1, k)
    {
      NextLayerAt(layer, k);
      assert layer[2 * k] == NodeAt(leaves, level, 2 * k);
    }
  }

  lemma {:induction false} LayerProofIsSiblings(
    layer: seq<Digest>, leaves: seq<Digest>, level: nat, height: nat, index: nat)
    requires |layer| == Pow2(height) && index < |layer|
    requires IsRow(layer, leaves, level)
    ensures LayerProof(layer, index) == Siblings(leaves, level, index, height)
    decreases height
  {
    if height > 0 {
      NextRow(layer, leaves, level);
      LayerProofIsSiblings(NextLayer(layer), leaves, level + 1, height - 1, index / 2);
    }
  }

  /** An index past the layer finds no sibling in it or in any layer above. */
  lemma {:induction false} OutOfRangeFindsNothing(layer: seq<Digest>, height: nat, index: nat)
    requires |layer| == Pow2(height) && index >= |layer|
    ensures LayerProof(layer, index) == []
    decreases height
  {
    if height > 0 {
      OutOfRangeFindsNothing(NextLayer(layer), height - 1, index / 2);
    }
  }

  lemma {:induction false} LayerRootIsNode(layer: seq<Digest>, leaves: seq<Digest>, level: nat, height: nat, top: nat)
    requires |layer| == Pow2(height) && top == level + height
    requires IsRow(layer, leaves, level)
    ensures LayerRoot(layer) == NodeAt(leaves, top, 0)
    decreases height
  {
    if height == 0 {
      assert layer[0] == NodeAt(leaves, level, 0);
    } else {
      NextRow(layer, leaves, level);
      LayerRootIsNode(NextLayer(layer), leaves, level + 1, height - 1, top);
    }
  }

  lemma PaddedIsRow(leaves: seq<Digest>)
    ensures |PaddedLeaves(leaves)| == Pow2(Height(leaves))
    ensures IsRow(PaddedLeaves(leaves), leaves, 0)
  {
    DoubledIsPow2(0, |leaves|);
  }

  /** The built proof is the branch of the perfect tree, one node for each level. */
  lemma BuildIsSiblings(leaves: seq<Digest>, index: nat)
    requires index < Pow2(Height(leaves))
    ensures BuildMerkleProofForIndex(leaves, index) == Siblings(leaves, 0, index, Height(leaves))
  {
    PaddedIsRow(leaves);
    LayerProofIsSiblings(PaddedLeaves(leaves), leaves, 0, Height(leaves), index);
  }

  /** Pairing layers of the padded list reaches the root of the perfect tree, at the smallest
      height that holds every leaf. */
  lemma LayerRootIsRoot(leaves: seq<Digest>)
    ensures LayerRoot(PaddedLeaves(leaves)) == Root(leaves, Height(leaves))
  {
    PaddedIsRow(leaves);
    LayerRootIsNode(PaddedLeaves(leaves), leaves, 0, Height(leaves), Height(leaves));
  }

  /** The bottom-up and the top-down builder produce one and the same branch, and their trees
      one and the same root. */
  lemma {:induction false} BuildersAgree(leaves: seq<Digest>, index: nat)
    requires index < |leaves|
    ensures var depth := Height(leaves);
      && Create(leaves, depth).Hash() == LayerRoot(PaddedLeaves(leaves))
      && (depth <= MAX_TREE_DEPTH ==>
          Descend(Create(leaves, depth), index, depth) == Proof(leaves[index], BuildMerkleProofForIndex(leaves, index)))
  {
    hide Create, Descend, LayerRoot, PaddedLeaves, BuildMerkleProofForIndex, NodeAt;
    var depth := Height(leaves);
    SmallIndex(index, depth);
    if depth <= MAX_TREE_DEPTH {
      GenerateOnCreated(leaves, depth, index);
    }
    BuildIsSiblings(leaves, index);
    CreateRefinesPerfectTree(leaves, depth);
    LayerRootIsRoot(leaves);
  }

  /** A built proof folds to the root at every index that agrees with the leaf's in the low bits. */
  lemma BuildFolds(leaves: seq<Digest>, k: nat, index: nat)
    requires k < |leaves| && Low(index, Height(leaves)) == k
    ensures |BuildMerkleProofForIndex(leaves, k)| == Height(leaves)
    ensures Fold(leaves[k], BuildMerkleProofForIndex(leaves, k), index) == Root(leaves, Height(leaves))
  {
    BuildIsSiblings(leaves, k);
    OpenLeaf(leaves, Height(leaves), index);
  }
}
