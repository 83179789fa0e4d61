/** The right-sparse Merkle tree, its proof generator and the branch verifier
    (src/merkle/proof.rs). */
module MerkleProof {
  import opened Primitives
  import opened Bits
  import opened MerkleSpec

  /** The table of zero nodes ends here, so no tree is built deeper. */
  const MAX_TREE_DEPTH := 32

  /** The root of a perfect tree of zero leaves. */
  function ZeroHash(depth: nat): Digest {
    if depth == 0 then ZERO else H(ZeroHash(depth - 1), ZeroHash(depth - 1))
  }

  datatype MerkleTree =
    | Finalized(hash: Digest)
    | Leaf(hash: Digest)
    | Node(hash: Digest, left: MerkleTree, right: MerkleTree)
    | Zero(depth: nat)
  {
    function Hash(): Digest {
      if Zero? then ZeroHash(depth) else hash
    }

    /** The children, or nothing where there are none or the zero node is past the table; both
        come to a panic when a proof is generated. */
    function Branches(): Option<(MerkleTree, MerkleTree)> {
      match this
      case Node(_, l, r) => Some((l, r))
      case Zero(d) => if d == 0 || d - 1 > MAX_TREE_DEPTH then None else Some((Zero(d - 1), Zero(d - 1)))
      case _ => None
    }
  }

  /** The leaves of the left and of the right subtree. */
  function SplitLeaves(leaves: seq<Digest>, capacity: nat): (seq<Digest>, seq<Digest>) {
    if |leaves| <= capacity then (leaves, []) else (leaves[..capacity], leaves[capacity..])
  }

  function Create(leaves: seq<Digest>, depth: nat): MerkleTree
    decreases depth, leaves
  {
    if leaves == [] then Zero(depth)
    else if depth == 0 then Leaf(leaves[0])
    else
      var (ls, rs) := SplitLeaves(leaves, Pow2(depth - 1));
      var l, r := Create(ls, depth - 1), Create(rs, depth - 1);
      Node(H(l.Hash(), r.Hash()), l, r)
  }

  /** What proof generation comes to: a proof, the one error it can report, or a panic on a node
      whose children cannot be had. */
  datatype Outcome =
    | Proof(leaf: Digest, branch: seq<Digest>)
    | EncounteredFinalizedNode
    | Panicked
  {
    function Append(above: seq<Digest>): Outcome {
      if Proof? then Proof(leaf, branch + above) else this
    }
  }

  /** The proof read off a tree by recursion from the root; `GenerateProof` is its loop. */
  function Descend(tree: MerkleTree, index: nat, depth: nat): Outcome
    decreases depth, tree, index
  {
    if depth == 0 then Proof(tree.Hash(), [])
    else if tree.Finalized? then EncounteredFinalizedNode
    else match tree.Branches()
      case None => Panicked
      case Some((left, right)) =>
        if Shifted(index, depth - 1) % 2 == 1 then Descend(right, index, depth - 1).Append([left.Hash()])
        else Descend(left, index, depth - 1).Append([right.Hash()])
  }

  function Reverse(s: seq<Digest>): (r: seq<Digest>)
    ensures |r| == |s| && forall i :: 0 <= i < |s| ==> r[i] == s[|s| - 1 - i]
  {
    seq(|s|, i requires 0 <= i < |s| => s[|s| - 1 - i])
  }

  lemma DescendEnds(tree: MerkleTree, index: nat, depth: nat)
    ensures depth == 0 ==> Descend(tree, index, depth) == Proof(tree.Hash(), [])
    ensures depth > 0 && tree.Finalized? ==> Descend(tree, index, depth) == EncounteredFinalizedNode
    ensures depth > 0 && !tree.Finalized? && tree.Branches().None? ==> Descend(tree, index, depth) == Panicked
  {
  }

  method GenerateProof(tree: MerkleTree, index: nat, depth: nat) returns (r: Outcome)
    ensures r == Descend(tree, index, depth)
  {
    hide Descend, Shifted, ZeroHash;
    var proof, node, level := [], tree, depth;
    assert Descend(tree, index, depth).Append([]) == Descend(tree, index, depth);
    while level > 0
      invariant 0 <= level <= depth
      invariant Descend(tree, index, depth) == Descend(node, index, level).Append(Reverse(proof))
    {
      DescendEnds(node, index, level);
      var bit := Shifted(index, level - 1) % 2;
      if node.Finalized? {
        return EncounteredFinalizedNode;
      }
      match node.Branches() {
        case None =>
          return Panicked;
        case Some((left, right)) =>
          DescendStep(node, index, level);
          var sibling := if bit == 1 then left else right;
          assert Reverse(proof + [sibling.Hash()]) == [sibling.Hash()] + Reverse(proof);
          proof := proof + [sibling.Hash()];
          node := if bit == 1 then right else left;
      }
      level := level - 1;
    }
    DescendEnds(node, index, 0);
    proof := Reverse(proof);
    r := Proof(node.Hash(), proof);
  }

  /** The climb from level `i` on, with sides from the shifted index. */
  function Climb(node: Digest, branch: seq<Digest>, index: nat, i: nat): Digest
    requires i <= |branch|
    decreases |branch| - i
  {
    if i == |branch| then node
    else Climb(HashPair(Join(node, branch[i], Shifted(index, i))), branch, index, i + 1)
  }

  /** Up to 64 levels the climb is the fold by the bits of the index. */
  lemma {:induction false} ClimbIsFold(node: Digest, branch: seq<Digest>, index: nat, i: nat)
    requires i <= |branch| <= 64
    ensures Climb(node, branch, index, i) == Fold(node, branch[i..], Shr(index, i))
    decreases |branch| - i
  {
    if i < |branch| {
      assert branch[i..][1..] == branch[i + 1..];
      ShrShr(index, i, 1);
      ClimbIsFold(HashPair(Join(node, branch[i], Shifted(index, i))), branch, index, i + 1);
    }
  }

  /** Above them it goes by the same bits again. */
  lemma {:induction false} ClimbWraps(node: Digest, branch: seq<Digest>, index: nat, i: nat)
    requires 64 <= i <= |branch|
    ensures Climb(node, branch, index, i) == Climb(node, branch[64..], index, i - 64)
    decreases |branch| - i
  {
    if i < |branch| {
      ClimbWraps(HashPair(Join(node, branch[i], Shifted(index, i))), branch, index, i + 1);
    }
  }

  method MerkleRootFromBranch(leaf: Digest, branch: seq<Digest>, depth: nat, index: nat) returns (root: Digest)
    requires |branch| == depth
    ensures root == Climb(leaf, branch, index, 0)
    ensures depth <= 64 ==> root == Fold(leaf, branch, index)
  {
    root := leaf;
    for i := 0 to depth
      invariant Climb(root, branch, index, i) == Climb(leaf, branch, index, 0)
    {
      if Shifted(index, i) % 2 == 1 {
        root := H(branch[i], root);
      } else {
        root := H(root, branch[i]);
      }
    }
    if depth <= 64 {
      ClimbIsFold(leaf, branch, index, 0);
      assert branch[0..] == branch;
    }
  }

  predicate Verifies(leaf: Digest, branch: seq<Digest>, depth: nat, index: nat, root: Digest) {
    |branch| == depth && Fold(leaf, branch, index) == root
  }

  method VerifyMerkleProof(leaf: Digest, branch: seq<Digest>, depth: nat, index: nat, root: Digest)
    returns (accepted: bool)
    ensures accepted <==> |branch| == depth && Climb(leaf, branch, index, 0) == root
    ensures depth <= 64 ==> accepted == Verifies(leaf, branch, depth, index, root)
  {
    if |branch| == depth {
      var computed := MerkleRootFromBranch(leaf, branch, depth, index);
      accepted := computed == root;
    } else {
      accepted := false;
    }
  }

  // ---- The tree against the perfect tree ----

  /** `tree` stands for the node at height `depth`, position `i`, and so do its children down
      to the leaves; no node on the way is `Finalized`. */
  predicate Represents(tree: MerkleTree, leaves: seq<Digest>, depth: nat, i: nat)
    decreases depth, tree, leaves, i
  {
    && !tree.Finalized?
    && tree.Hash() == NodeAt(leaves, depth, i)
    && (depth > 0 ==>
        && tree.Branches().Some?
        && Represents(tree.Branches().value.0, leaves, depth - 1, 2 * i)
        && Represents(tree.Branches().value.1, leaves, depth - 1, 2 * i + 1))
  }

  /** The first `width` leaves of `part` are the leaves of `leaves` from `base` on. */
  predicate Covers(part: seq<Digest>, leaves: seq<Digest>, base: nat, width: nat) {
    forall k: nat :: k < width ==> LeafAt(part, k) == LeafAt(leaves, base + k)
  }

  lemma CoverHalves(part: seq<Digest>, leaves: seq<Digest>, base: nat, half: nat)
    requires Covers(part, leaves, base, 2 * half)
    ensures var (ls, rs) := SplitLeaves(part, half);
      Covers(ls, leaves, base, half) && Covers(rs, leaves, base + half, half)
  {
    var (ls, rs) := SplitLeaves(part, half);
    forall k: nat | k < half
      ensures LeafAt(ls, k) == LeafAt(leaves, base + k)
    {
      assert LeafAt(ls, k) == LeafAt(part, k);
    }
    forall k: nat | k < half
      ensures LeafAt(rs, k) == LeafAt(leaves, base + half + k)
    {
      assert LeafAt(rs, k) == LeafAt(part, half + k);
      assert base + half + k == base + (half + k);
    }
  }

  /** A node over the subtrees of both halves represents their parent. */
  lemma CreateNode(part: seq<Digest>, leaves: seq<Digest>, depth: nat, i: nat)
    requires 0 < depth <= MAX_TREE_DEPTH
    requires var (ls, rs) := SplitLeaves(part, Pow2(depth - 1));
      && Represents(Create(ls, depth - 1), leaves, depth - 1, 2 * i)
      && Represents(Create(rs, depth - 1), leaves, depth - 1, 2 * i + 1)
    ensures Represents(Create(part, depth), leaves, depth, i)
  {
    hide LeafAt, Pow2;
    var (ls, rs) := SplitLeaves(part, Pow2(depth - 1));
    var tree := Create(part, depth);
    assert tree.Branches() == Some((Create(ls, depth - 1), Create(rs, depth - 1)));
  }

  lemma CreateLeaf(part: seq<Digest>, leaves: seq<Digest>, i: nat)
    requires Covers(part, leaves, i, 1)
    ensures Represents(Create(part, 0), leaves, 0, i)
  {
    assert LeafAt(part, 0) == LeafAt(leaves, i + 0);
  }

  lemma {:induction false} CreateRepresents(part: seq<Digest>, leaves: seq<Digest>, depth: nat, i: nat)
    requires depth <= MAX_TREE_DEPTH
    requires Covers(part, leaves, Shl(i, depth), Pow2(depth))
    ensures Represents(Create(part, depth), leaves, depth, i)
    decreases depth
  {
    hide Covers, Create, Represents, SplitLeaves;
    if depth == 0 {
      CreateLeaf(part, leaves, i);
    } else {
      var half := Pow2(depth - 1);
      var (ls, rs) := SplitLeaves(part, half);
      ShlNext(2 * i, depth - 1);
      CoverHalves(part, leaves, Shl(i, depth), half);
      CreateRepresents(ls, leaves, depth - 1, 2 * i);
      CreateRepresents(rs, leaves, depth - 1, 2 * i + 1);
      CreateNode(part, leaves, depth, i);
    }
  }

  /** The child on the side of `bit`, and the other one. */
  function Sides(tree: MerkleTree, bit: nat): (MerkleTree, MerkleTree)
    requires tree.Branches().Some?
  {
    var (left, right) := tree.Branches().value;
    if bit % 2 == 1 then (right, left) else (left, right)
  }

  lemma RepresentsStep(tree: MerkleTree, leaves: seq<Digest>, depth: nat, i: nat)
    requires depth > 0 && Represents(tree, leaves, depth, i / 2)
    ensures !tree.Finalized? && tree.Branches().Some?
    ensures var (child, other) := Sides(tree, i);
      Represents(child, leaves, depth - 1, i) && other.Hash() == NodeAt(leaves, depth - 1, Sibling(i))
  {
    hide NodeAt, ZeroHash;
  }

  lemma DescendStep(tree: MerkleTree, index: nat, depth: nat)
    requires depth > 0 && !tree.Finalized? && tree.Branches().Some?
    ensures var (child, other) := Sides(tree, Shifted(index, depth - 1));
      Descend(tree, index, depth) == Descend(child, index, depth - 1).Append([other.Hash()])
  {
  }

  lemma DescendLeaf(tree: MerkleTree, leaves: seq<Digest>, k: nat, index: nat)
    requires Represents(tree, leaves, 0, k)
    ensures Descend(tree, index, 0) == Proof(LeafAt(leaves, k), Siblings(leaves, 0, k, 0))
  {
  }

  /** Descending by `index` from the node above leaf `k` reaches leaf `k` when the two agree in
      the bits below that node. */
  lemma {:induction false} DescendRepresents(tree: MerkleTree, leaves: seq<Digest>, depth: nat, k: nat, index: nat)
    requires Represents(tree, leaves, depth, Shr(k, depth))
    requires Low(k, depth) == Low(index, depth)
    requires depth <= 64
    ensures Descend(tree, index, depth) == Proof(LeafAt(leaves, k), Siblings(leaves, 0, k, depth))
    decreases depth
  {
    hide Represents, NodeAt, LeafAt, Low, Descend, Siblings;
    if depth == 0 {
      DescendLeaf(tree, leaves, k, index);
    } else {
      LowHalfAgree(k, index, depth - 1);
      ShrShr(k, depth - 1, 1);
      assert Shr(k, depth) == Shr(k, depth - 1) / 2;
      RepresentsStep(tree, leaves, depth, Shr(k, depth - 1));
      DescendStep(tree, index, depth);
      assert Sides(tree, Shr(index, depth - 1)) == Sides(tree, Shr(k, depth - 1));
      DescendRepresents(Sides(tree, Shr(k, depth - 1)).0, leaves, depth - 1, k, index);
      SiblingsSnoc(leaves, 0, k, depth - 1);
    }
  }

  /** The sparse tree hashes to the root of the zero-padded perfect tree. Leaves past
      `2^depth` are dropped, as the release build drops them; `CreateAssertsExactly` is about
      the debug build. */
  lemma CreateRefinesPerfectTree(leaves: seq<Digest>, depth: nat)
    ensures Create(leaves, depth).Hash() == Root(leaves, depth)
  {
    ShlZero(depth);
    CreateHash(leaves, leaves, depth, 0);
  }

  lemma CreateHashStep(leaves: seq<Digest>, depth: nat)
    requires depth > 0
    ensures var (ls, rs) := SplitLeaves(leaves, Pow2(depth - 1));
      Create(leaves, depth).Hash() == H(Create(ls, depth - 1).Hash(), Create(rs, depth - 1).Hash())
  {
  }

  lemma CreateHashLeaf(part: seq<Digest>, leaves: seq<Digest>, i: nat)
    requires Covers(part, leaves, i, 1)
    ensures Create(part, 0).Hash() == NodeAt(leaves, 0, i)
  {
    assert LeafAt(part, 0) == LeafAt(leaves, i + 0);
  }

  /** A created tree hashes to the perfect tree's node, at any height. */
  lemma {:induction false} CreateHash(part: seq<Digest>, leaves: seq<Digest>, depth: nat, i: nat)
    requires Covers(part, leaves, Shl(i, depth), Pow2(depth))
    ensures Create(part, depth).Hash() == NodeAt(leaves, depth, i)
    decreases depth
  {
    hide Covers, Create, SplitLeaves, LeafAt;
    if depth == 0 {
      CreateHashLeaf(part, leaves, i);
    } else {
      var half := Pow2(depth - 1);
      var (ls, rs) := SplitLeaves(part, half);
      ShlNext(2 * i, depth - 1);
      CoverHalves(part, leaves, Shl(i, depth), half);
      CreateHash(ls, leaves, depth - 1, 2 * i);
      CreateHash(rs, leaves, depth - 1, 2 * i + 1);
      CreateHashStep(part, depth);
    }
  }

  /** Generation on a created tree always yields the indexed leaf with exactly `depth`
      siblings; neither the error nor the `unwrap` is reached. */
  lemma GenerateOnCreated(leaves: seq<Digest>, depth: nat, index: nat)
    requires depth <= MAX_TREE_DEPTH
    ensures var k := Low(index, depth);
      Descend(Create(leaves, depth), index, depth) == Proof(LeafAt(leaves, k), Siblings(leaves, 0, k, depth))
  {
    ShlZero(depth);
    CreateRepresents(leaves, leaves, depth, 0);
    LowIsSmall(index, depth);
    DescendRepresents(Create(leaves, depth), leaves, depth, Low(index, depth), index);
  }

  /** The node at which proof generation stops. */
  function Reached(tree: MerkleTree, index: nat, depth: nat): Option<MerkleTree>
    decreases depth, tree, index
  {
    if depth == 0 then Some(tree)
    else match tree.Branches()
      case None => None
      case Some((left, right)) =>
        Reached(if Shifted(index, depth - 1) % 2 == 1 then right else left, index, depth - 1)
  }

  lemma CreatedBranches(leaves: seq<Digest>, depth: nat)
    requires 0 < depth <= MAX_TREE_DEPTH
    ensures var (ls, rs) := SplitLeaves(leaves, Pow2(depth - 1));
      Create(leaves, depth).Branches() == Some((Create(ls, depth - 1), Create(rs, depth - 1)))
  {
  }

  lemma ReachedStep(tree: MerkleTree, index: nat, depth: nat)
    requires depth > 0 && tree.Branches().Some?
    ensures Reached(tree, index, depth) == Reached(Sides(tree, Shifted(index, depth - 1)).0, index, depth - 1)
  {
  }

  lemma ReachedCreated(leaves: seq<Digest>, index: nat)
    ensures Reached(Create(leaves, 0), index, 0) == Some(if 0 < |leaves| then Leaf(leaves[0]) else Zero(0))
  {
  }

  /** Generation stops at a `Leaf`, as its debug assertion demands, exactly when the index
      modulo the width is one of a given leaf; otherwise it stops at `Zero(0)`. */
  lemma {:induction false} StopsAtLeaf(leaves: seq<Digest>, depth: nat, index: nat)
    requires depth <= MAX_TREE_DEPTH
    ensures var k := Low(index, depth);
      Reached(Create(leaves, depth), index, depth) == Some(if k < |leaves| then Leaf(leaves[k]) else Zero(0))
    decreases depth
  {
    hide Create, Reached, Pow2, Shr;
    if depth == 0 {
      ReachedCreated(leaves, index);
    } else {
      var (ls, rs) := SplitLeaves(leaves, Pow2(depth - 1));
      CreatedBranches(leaves, depth);
      ReachedStep(Create(leaves, depth), index, depth);
      LowTop(index, depth - 1);
      ShrLow(index, depth - 1);
      StopsAtLeaf(if Shr(index, depth - 1) % 2 == 1 then rs else ls, depth - 1, index);
    }
  }

  /** The debug assertions met while a tree is created: at the bottom exactly one leaf is left. */
  predicate CreateAsserts(leaves: seq<Digest>, depth: nat)
    decreases depth, leaves
  {
    if leaves == [] then true
    else if depth == 0 then |leaves| == 1
    else
      var (ls, rs) := SplitLeaves(leaves, Pow2(depth - 1));
      CreateAsserts(ls, depth - 1) && CreateAsserts(rs, depth - 1)
  }

  /** They hold exactly when the leaves fit the depth. */
  lemma {:induction false} CreateAssertsExactly(leaves: seq<Digest>, depth: nat)
    ensures CreateAsserts(leaves, depth) <==> |leaves| <= Pow2(depth)
    decreases depth
  {
    if depth > 0 {
      var (ls, rs) := SplitLeaves(leaves, Pow2(depth - 1));
      CreateAssertsExactly(ls, depth - 1);
      CreateAssertsExactly(rs, depth - 1);
    }
  }

  /** The zero hashes of `count` levels from `level` up. */
  function ZeroHashes(level: nat, count: nat): (hashes: seq<Digest>)
    ensures |hashes| == count && forall i :: 0 <= i < count ==> hashes[i] == ZeroHash(level + i)
    decreases count, level
  {
    if count == 0 then [] else [ZeroHash(level)] + ZeroHashes(level + 1, count - 1)
  }

  /** On a zero node generation finds zero hashes as long as there is a level below it and the node table
      reaches that far, and panics otherwise. */
  lemma {:induction false} GenerateOnZero(height: nat, index: nat, depth: nat)
    ensures Descend(Zero(height), index, depth)
         == if depth <= height && (depth == 0 || height <= 33)
            then Proof(ZeroHash(height - depth), ZeroHashes(height - depth, depth))
            else Panicked
    decreases depth
  {
    hide ZeroHash, Shifted;
    DescendEnds(Zero(height), index, depth);
    if depth > 0 && 0 < height <= 33 {
      DescendStep(Zero(height), index, depth);
      GenerateOnZero(height - 1, index, depth - 1);
      if depth <= height {
        assert ZeroHashes(height - depth, depth) == ZeroHashes(height - depth, depth - 1) + [ZeroHash(height - 1)];
      }
    }
  }

  /** Sides and order on four leaves. */
  lemma FourLeaves(a: Digest, b: Digest, c: Digest, d: Digest)
    ensures Create([a, b, c, d], 2).Hash() == H(H(a, b), H(c, d))
    ensures Descend(Create([a, b, c, d], 2), 1, 2) == Proof(b, [a, H(c, d)])
  {
    var leaves := [a, b, c, d];
    assert NodeAt(leaves, 0, 0) == a && NodeAt(leaves, 0, 1) == b && NodeAt(leaves, 0, 2) == c
        && NodeAt(leaves, 0, 3) == d;
    assert NodeAt(leaves, 1, 0) == H(a, b) && NodeAt(leaves, 1, 1) == H(c, d);
    assert Pow2(1) == 2 && Pow2(0) == 1;
    CreateRefinesPerfectTree(leaves, 2);
    GenerateOnCreated(leaves, 2, 1);
    assert Siblings(leaves, 0, 1, 2) == [NodeAt(leaves, 0, 0)] + Siblings(leaves, 1, 0, 1);
    assert Siblings(leaves, 1, 0, 1) == [NodeAt(leaves, 1, 1)] + Siblings(leaves, 2, 0, 0);
  }

  /** Generate, then verify; the debug assertions on the way hold. */
  lemma {:induction false} GenerateThenVerify(leaves: seq<Digest>, depth: nat, index: nat)
    requires depth <= MAX_TREE_DEPTH
    requires index < |leaves| <= Pow2(depth)
    ensures var tree := Create(leaves, depth);
      var proof := Descend(tree, index, depth);
      && proof.Proof? && proof.leaf == leaves[index]
      && Verifies(proof.leaf, proof.branch, depth, index, tree.Hash())
      && CreateAsserts(leaves, depth) && Reached(tree, index, depth) == Some(Leaf(leaves[index]))
  {
    hide Create, Descend, Fold, NodeAt, Reached, CreateAsserts;
    CreateAssertsExactly(leaves, depth);
    SmallIndex(index, depth);
    GenerateOnCreated(leaves, depth, index);
    CreateRefinesPerfectTree(leaves, depth);
    OpenLeaf(leaves, depth, index);
    StopsAtLeaf(leaves, depth, index);
  }
}
