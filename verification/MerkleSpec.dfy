/** What a Merkle proof means, independently of how trees and proofs are built. */
module MerkleSpec {
  import opened Primitives
  import opened Bits

  /** Leaf `i` of a list that is followed by zero leaves for ever. */
  function LeafAt(leaves: seq<Digest>, i: nat): Digest {
    if i < |leaves| then leaves[i] else ZERO
  }

  /** The node at height `level` that covers leaves `i * 2^level` up to `(i + 1) * 2^level`. */
  function NodeAt(leaves: seq<Digest>, level: nat, i: nat): Digest {
    if level == 0 then LeafAt(leaves, i)
    else H(NodeAt(leaves, level - 1, 2 * i), NodeAt(leaves, level - 1, 2 * i + 1))
  }

  /** The root of the perfect tree of height `depth` over the zero-padded leaves. */
  function Root(leaves: seq<Digest>, depth: nat): Digest {
    NodeAt(leaves, depth, 0)
  }

  function Sibling(i: nat): nat {
    if i % 2 == 0 then i + 1 else i - 1
  }

  /** The nodes beside the path that climbs `count` levels from node `i` at `level`. */
  function Siblings(leaves: seq<Digest>, level: nat, i: nat, count: nat): (branch: seq<Digest>)
    ensures |branch| == count
    decreases count, leaves, level, i
  {
    if count == 0 then []
    else [NodeAt(leaves, level, Sibling(i))] + Siblings(leaves, level + 1, i / 2, count - 1)
  }

  /** The 64 bytes hashed at one step of a fold. */
  datatype Pair = Pair(left: Digest, right: Digest)

  function Join(node: Digest, sibling: Digest, index: nat): Pair {
    if index % 2 == 1 then Pair(sibling, node) else Pair(node, sibling)
  }

  function HashPair(p: Pair): Digest {
    H(p.left, p.right)
  }

  /** The root a branch leads to from `node`, taking sides from the bits of `index`. */
  function Fold(node: Digest, branch: seq<Digest>, index: nat): Digest
    decreases |branch|
  {
    if branch == [] then node
    else Fold(HashPair(Join(node, branch[0], index)), branch[1..], index / 2)
  }

  lemma NodeAbove(leaves: seq<Digest>, level: nat, i: nat)
    ensures HashPair(Join(NodeAt(leaves, level, i), NodeAt(leaves, level, Sibling(i)), i))
         == NodeAt(leaves, level + 1, i / 2)
  {
    hide LeafAt;
    assert i % 2 == 0 ==> i == 2 * (i / 2);
    assert i % 2 == 1 ==> i == 2 * (i / 2) + 1;
  }

  /** Completeness: the siblings of a path fold to the node at the end of the path. */
  lemma {:induction false} FoldSiblings(leaves: seq<Digest>, level: nat, i: nat, count: nat)
    ensures Fold(NodeAt(leaves, level, i), Siblings(leaves, level, i, count), i)
         == NodeAt(leaves, level + count, Shr(i, count))
    decreases count
  {
    hide NodeAt;
    if count > 0 {
      var branch := Siblings(leaves, level, i, count);
      assert branch[1..] == Siblings(leaves, level + 1, i / 2, count - 1);
      NodeAbove(leaves, level, i);
      FoldSiblings(leaves, level + 1, i / 2, count - 1);
    }
  }

  lemma {:induction false} SiblingsSnoc(leaves: seq<Digest>, level: nat, i: nat, count: nat)
    ensures Siblings(leaves, level, i, count + 1)
         == Siblings(leaves, level, i, count) + [NodeAt(leaves, level + count, Sibling(Shr(i, count)))]
    decreases count
  {
    if count > 0 {
      SiblingsSnoc(leaves, level + 1, i / 2, count - 1);
    }
  }

  /** Bits of the index above the length of the branch are never looked at. */
  lemma {:induction false} HighBitsIgnored(node: Digest, branch: seq<Digest>, i: nat, j: nat)
    requires Low(i, |branch|) == Low(j, |branch|)
    ensures Fold(node, branch, i) == Fold(node, branch, j)
    decreases |branch|
  {
    if branch != [] {
      HighBitsIgnored(HashPair(Join(node, branch[0], i)), branch[1..], i / 2, j / 2);
    }
  }

  /** Concatenated branches fold one after the other, the second at the shifted index. */
  lemma {:induction false} FoldConcat(node: Digest, p: seq<Digest>, q: seq<Digest>, index: nat)
    ensures Fold(node, p + q, index) == Fold(Fold(node, p, index), q, Shr(index, |p|))
    decreases |p|
  {
    if p == [] {
      assert p + q == q;
    } else {
      assert (p + q)[1..] == p[1..] + q;
      FoldConcat(HashPair(Join(node, p[0], index)), p[1..], q, index / 2);
    }
  }

  /** The composition law in terms of two separate indices. */
  lemma {:induction false} FoldCompose(node: Digest, p: seq<Digest>, i: nat, q: seq<Digest>, j: nat)
    requires i < Pow2(|p|)
    ensures Fold(node, p + q, i + Pow2(|p|) * j) == Fold(Fold(node, p, i), q, j)
  {
    var index := i + Pow2(|p|) * j;
    FoldConcat(node, p, q, index);
    SplitIndex(i, j, |p|);
    SmallIndex(i, |p|);
    HighBitsIgnored(node, p, index, i);
  }

  /** Three chained openings make one opening at the composed index. */
  lemma {:induction false} ChainOpenings(a: Digest, p: seq<Digest>, i: nat, b: Digest, q: seq<Digest>, j: nat,
                                         c: Digest, r: seq<Digest>, k: nat, d: Digest, wp: nat, wq: nat)
    requires wp == Pow2(|p|) && wq == Pow2(|q|) && i < wp && j < wq
    requires Fold(a, p, i) == b && Fold(b, q, j) == c && Fold(c, r, k) == d
    ensures Fold(a, p + q + r, i + wp * (j + wq * k)) == d
  {
    assert p + q + r == p + (q + r);
    FoldCompose(a, p, i, q + r, j + Pow2(|q|) * k);
    FoldCompose(b, q, j, r, k);
  }

  /** An opening extended by one node on the right of the root. */
  lemma {:induction false} ExtendOpening(leaf: Digest, p: seq<Digest>, i: nat, root: Digest, top: Digest, index: nat)
    requires i < Pow2(|p|) && Fold(leaf, p, i) == root
    requires index == i + Pow2(|p|) * 2
    ensures Fold(leaf, p + [top], index) == H(root, top)
  {
    FoldCompose(leaf, p, i, [top], 2);
    assert [top][1..] == [];
  }

  /** An opening extended by one node on the right of the leaf. */
  lemma PrependOpening(node: Digest, first: Digest, p: seq<Digest>, i: nat, root: Digest)
    requires Fold(H(node, first), p, i) == root
    ensures Fold(node, [first] + p, 2 * i) == root
  {
    assert ([first] + p)[1..] == p;
  }

  lemma FoldNone(node: Digest, i: nat)
    ensures Fold(node, [], i) == node
  {
  }

  lemma FoldOne(node: Digest, p: seq<Digest>, i: nat)
    requires |p| == 1
    ensures Fold(node, p, i) == HashPair(Join(node, p[0], i))
  {
    assert p[1..] == [];
  }

  /** The two lists differ at leaf `k` at most. */
  ghost predicate AgreeBut(s: seq<Digest>, t: seq<Digest>, k: nat) {
    forall i: nat :: i != k ==> LeafAt(s, i) == LeafAt(t, i)
  }

  lemma {:induction false} NodeAgrees(s: seq<Digest>, t: seq<Digest>, k: nat, level: nat, i: nat)
    requires AgreeBut(s, t, k) && i != Shr(k, level)
    ensures NodeAt(s, level, i) == NodeAt(t, level, i)
    decreases level
  {
    if level > 0 {
      ShrShr(k, level - 1, 1);
      NodeAgrees(s, t, k, level - 1, 2 * i);
      NodeAgrees(s, t, k, level - 1, 2 * i + 1);
    }
  }

  /** The branch of a leaf does not depend on the leaf. */
  lemma {:induction false} SiblingsAgree(s: seq<Digest>, t: seq<Digest>, k: nat, level: nat, count: nat)
    requires AgreeBut(s, t, k)
    ensures Siblings(s, level, Shr(k, level), count) == Siblings(t, level, Shr(k, level), count)
    decreases count
  {
    if count > 0 {
      ShrShr(k, level, 1);
      NodeAgrees(s, t, k, level, Sibling(Shr(k, level)));
      SiblingsAgree(s, t, k, level + 1, count - 1);
    }
  }

  // ---- Binding, without assuming that the hash has no collisions ----

  predicate Collides(a: Pair, b: Pair) {
    a != b && HashPair(a) == HashPair(b)
  }

  predicate Found(c: Option<(Pair, Pair)>) {
    c.Some? && Collides(c.value.0, c.value.1)
  }

  /** Folds two branches in step and returns the first two distinct inputs that hash alike. */
  function FindCollision(a: Digest, p: seq<Digest>, b: Digest, q: seq<Digest>, index: nat): Option<(Pair, Pair)>
    requires |p| == |q|
    decreases |p|
  {
    if p == [] then None
    else
      var x, y := Join(a, p[0], index), Join(b, q[0], index);
      if Collides(x, y) then Some((x, y))
      else FindCollision(HashPair(x), p[1..], HashPair(y), q[1..], index / 2)
  }

  /** Two openings of one root at one index agree in leaf and branch, or reveal a collision. */
  lemma {:induction false} Binding(a: Digest, p: seq<Digest>, b: Digest, q: seq<Digest>, index: nat)
    requires |p| == |q|
    requires Fold(a, p, index) == Fold(b, q, index)
    ensures (a == b && p == q) || Found(FindCollision(a, p, b, q, index))
    decreases |p|
  {
    if p != [] {
      var x, y := Join(a, p[0], index), Join(b, q[0], index);
      if !Collides(x, y) {
        Binding(HashPair(x), p[1..], HashPair(y), q[1..], index / 2);
        if x == y && p[1..] == q[1..] {
          assert p == [p[0]] + p[1..] && q == [q[0]] + q[1..];
        }
      }
    }
  }

  /** Where one opening of `root` is known, any other is the same or reveals a collision. */
  lemma OpeningIs(a: Digest, p: seq<Digest>, b: Digest, q: seq<Digest>, index: nat, root: Digest)
    requires |p| == |q| && Fold(b, q, index) == root
    ensures a == b && p == q ==> Fold(a, p, index) == root
    ensures Fold(a, p, index) == root ==> (a == b && p == q) || Found(FindCollision(a, p, b, q, index))
  {
    hide Fold, FindCollision, Found;
    if Fold(a, p, index) == root {
      Binding(a, p, b, q, index);
    }
  }

  /** The branch that the tree over `leaves` itself has for leaf `k`. */
  function HonestCollision(leaves: seq<Digest>, leaf: Digest, branch: seq<Digest>, index: nat): Option<(Pair, Pair)> {
    var k := Low(index, |branch|);
    FindCollision(leaf, branch, LeafAt(leaves, k), Siblings(leaves, 0, k, |branch|), index)
  }

  lemma OpenLeaf(leaves: seq<Digest>, depth: nat, index: nat)
    ensures var k := Low(index, depth);
      Fold(LeafAt(leaves, k), Siblings(leaves, 0, k, depth), index) == Root(leaves, depth)
  {
    var k := Low(index, depth);
    LowIsSmall(index, depth);
    FoldSiblings(leaves, 0, k, depth);
    HighBitsIgnored(LeafAt(leaves, k), Siblings(leaves, 0, k, depth), index, k);
  }

  /** An accepted opening against the root of a perfect tree is the tree's own leaf and branch
      at the index modulo the width, or the two reveal a collision. */
  lemma BindingToTree(leaves: seq<Digest>, leaf: Digest, branch: seq<Digest>, index: nat)
    requires Fold(leaf, branch, index) == Root(leaves, |branch|)
    ensures var k := Low(index, |branch|);
      || (leaf == LeafAt(leaves, k) && branch == Siblings(leaves, 0, k, |branch|))
      || Found(HonestCollision(leaves, leaf, branch, index))
  {
    var k := Low(index, |branch|);
    OpenLeaf(leaves, |branch|, index);
    Binding(leaf, branch, LeafAt(leaves, k), Siblings(leaves, 0, k, |branch|), index);
  }

  /** Two leaf lists with one root agree at every position, or reveal a collision. */
  lemma RootBinding(s: seq<Digest>, t: seq<Digest>, depth: nat, k: nat)
    requires Root(s, depth) == Root(t, depth)
    requires k < Pow2(depth)
    ensures LeafAt(s, k) == LeafAt(t, k) || Found(HonestCollision(t, LeafAt(s, k), Siblings(s, 0, k, depth), k))
  {
    SmallIndex(k, depth);
    OpenLeaf(s, depth, k);
    BindingToTree(t, LeafAt(s, k), Siblings(s, 0, k, depth), k);
  }
}
