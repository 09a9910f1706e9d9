/** The Merkle tree over transaction hashes: root, proofs, and what equal roots say about the leaves. */
module Merkle {
  import opened Text

  function HashPair(hash: Hash, a: string, b: string): Digest {
    hash(hash(a + b))
  }

  // ---------------------------------------------------------------------------------------------
  // The tree, layer by layer.

  /** An odd layer repeats its last element. */
  ghost function Padded(layer: seq<string>): (p: seq<string>)
    ensures |p| % 2 == 0 && |layer| <= |p| <= |layer| + 1
    ensures forall i :: 0 <= i < |layer| ==> p[i] == layer[i]
  {
    if |layer| % 2 != 0 then layer + [layer[|layer| - 1]] else layer
  }

  ghost function Above(hash: Hash, layer: seq<string>): (next: seq<string>)
    ensures |next| == (|layer| + 1) / 2
    ensures forall i :: 0 <= i < |next| ==>
              next[i] == HashPair(hash, Padded(layer)[2 * i], Padded(layer)[2 * i + 1])
  {
    seq(|Padded(layer)| / 2, i requires 0 <= i < |Padded(layer)| / 2 =>
      HashPair(hash, Padded(layer)[2 * i], Padded(layer)[2 * i + 1]))
  }

  ghost function Top(hash: Hash, layer: seq<string>): string
    requires layer != []
    decreases |layer|
  {
    if |layer| == 1 then layer[0] else Top(hash, Above(hash, layer))
  }

  ghost function Root(hash: Hash, leaves: seq<string>): string {
    if leaves == [] then seq(64, i => '0') else Top(hash, leaves)
  }

  ghost function Sibling(i: nat): nat {
    if i % 2 == 0 then i + 1 else i - 1
  }

  /** The siblings on the way from the `i`-th element of a layer to the top. */
  ghost function Siblings(hash: Hash, layer: seq<string>, i: nat): (proof: seq<string>)
    requires i < |layer|
    decreases |layer|
  {
    if |layer| == 1 then []
    else [Padded(layer)[Sibling(i)]] + Siblings(hash, Above(hash, layer), i / 2)
  }

  // ---------------------------------------------------------------------------------------------
  // The two ways of folding a proof.

  /** Puts the current hash on the left or on the right by the parity of the index. */
  ghost function FoldByParity(hash: Hash, current: string, i: nat, proof: seq<string>): string
    decreases |proof|
  {
    if proof == [] then current
    else
      var parent := if i % 2 == 0 then HashPair(hash, current, proof[0]) else HashPair(hash, proof[0], current);
      FoldByParity(hash, parent, i / 2, proof[1..])
  }

  /** Always puts the current hash on the left, as `verifyProof` does. */
  ghost function FoldLeft(hash: Hash, current: string, proof: seq<string>): string
    decreases |proof|
  {
    if proof == [] then current else FoldLeft(hash, HashPair(hash, current, proof[0]), proof[1..])
  }

  ghost predicate IsFirstIndex(leaves: seq<string>, leaf: string, i: nat) {
    i < |leaves| && leaves[i] == leaf && forall j :: 0 <= j < i ==> leaves[j] != leaf
  }

  /** The first index of `leaf`, or the length of the list. */
  ghost function FirstIndex(leaves: seq<string>, leaf: string): (i: nat)
    ensures i <= |leaves|
    ensures i < |leaves| <==> leaf in leaves
    ensures i < |leaves| ==> IsFirstIndex(leaves, leaf, i)
  {
    if leaves == [] || leaves[0] == leaf then 0 else 1 + FirstIndex(leaves[1..], leaf)
  }

  ghost function Pow2(n: nat): nat {
    if n == 0 then 1 else 2 * Pow2(n - 1)
  }

  /** A node and its sibling, in index order, hash to their parent. */
  lemma ParentOf(hash: Hash, layer: seq<string>, i: nat)
    requires i < |layer| && |layer| > 1
    ensures Sibling(i) < |Padded(layer)|
    ensures var s := Padded(layer)[Sibling(i)];
      Above(hash, layer)[i / 2] == if i % 2 == 0 then HashPair(hash, layer[i], s) else HashPair(hash, s, layer[i])
  {
    assert Padded(layer)[i] == layer[i];
  }

  /** Every proof rebuilds the root when folded by index parity. */
  lemma {:induction false} ParityFoldRebuildsRoot(hash: Hash, layer: seq<string>, i: nat)
    requires i < |layer|
    ensures FoldByParity(hash, layer[i], i, Siblings(hash, layer, i)) == Top(hash, layer)
    decreases |layer|
  {
    if |layer| > 1 {
      ParentOf(hash, layer, i);
      ParityFoldRebuildsRoot(hash, Above(hash, layer), i / 2);
      assert Siblings(hash, layer, i)[1..] == Siblings(hash, Above(hash, layer), i / 2);
    }
  }

  /** The number of layers above one of the given size. */
  ghost function Height(size: nat): nat {
    if size <= 1 then 0 else Height((size + 1) / 2) + 1
  }

  /** The height is the logarithm of the size, rounded up. */
  lemma {:induction false} HeightIsLogarithm(size: nat)
    requires size > 0
    ensures size <= Pow2(Height(size)) && (size > 1 ==> Pow2(Height(size) - 1) < size)
  {
    if size > 1 {
      HeightIsLogarithm((size + 1) / 2);
    }
  }

  lemma {:induction false} AsManyAsHigh(hash: Hash, layer: seq<string>, i: nat)
    requires i < |layer|
    ensures |Siblings(hash, layer, i)| == Height(|layer|)
    decreases |layer|
  {
    if |layer| > 1 {
      AsManyAsHigh(hash, Above(hash, layer), i / 2);
    }
  }

  /** A proof has as many entries as the logarithm of the number of leaves, rounded up. */
  lemma ProofLength(hash: Hash, layer: seq<string>, i: nat)
    requires i < |layer|
    ensures var n := |Siblings(hash, layer, i)|;
      |layer| <= Pow2(n) && (n > 0 ==> Pow2(n - 1) < |layer|)
  {
    AsManyAsHigh(hash, layer, i);
    HeightIsLogarithm(|layer|);
  }

  /** For the first leaf the two folds agree. */
  lemma {:induction false} FoldsAgreeAtZero(hash: Hash, current: string, proof: seq<string>)
    ensures FoldLeft(hash, current, proof) == FoldByParity(hash, current, 0, proof)
    decreases |proof|
  {
    if proof != [] {
      FoldsAgreeAtZero(hash, HashPair(hash, current, proof[0]), proof[1..]);
    }
  }

  // ---------------------------------------------------------------------------------------------
  // Collisions, always as explicit witnesses.

  datatype Pair = Pair(left: string, right: string)

  /** Two different inputs of `hashPair` with one output. */
  ghost predicate PairCollision(hash: Hash, p: Pair, q: Pair) {
    p != q && HashPair(hash, p.left, p.right) == HashPair(hash, q.left, q.right)
  }

  /** When the four strings have one length, a colliding pair is a digest collision. */
  lemma PairCollisionIsCollision(hash: Hash, p: Pair, q: Pair) returns (a: string, b: string)
    requires PairCollision(hash, p, q) && |p.left| == |q.left|
    ensures Collision(hash, a, b)
  {
    if p.left + p.right == q.left + q.right {
      ConcatSplits(p.left, p.right, q.left, q.right);
    }
    a, b := DoubleCollision(hash, p.left + p.right, q.left + q.right);
  }

  /** Different layers below equal layers: some pair of children collides. */
  lemma LayerCollision(hash: Hash, l: seq<string>, m: seq<string>) returns (p: Pair, q: Pair, i: nat)
    requires |l| == |m| && l != m && Above(hash, l) == Above(hash, m)
    ensures PairCollision(hash, p, q)
    ensures 2 * i + 1 < |Padded(l)| && p == Pair(Padded(l)[2 * i], Padded(l)[2 * i + 1])
    ensures 2 * i + 1 < |Padded(m)| && q == Pair(Padded(m)[2 * i], Padded(m)[2 * i + 1])
  {
    var k := DifferenceIn(l, m);
    i := k / 2;
    p := Pair(Padded(l)[2 * i], Padded(l)[2 * i + 1]);
    q := Pair(Padded(m)[2 * i], Padded(m)[2 * i + 1]);
    assert Padded(l)[k] != Padded(m)[k];
    assert Above(hash, l)[i] == Above(hash, m)[i];
  }

  lemma DifferenceIn(l: seq<string>, m: seq<string>) returns (k: nat)
    requires |l| == |m| && l != m
    ensures k < |l| && l[k] != m[k]
  {
    k :| 0 <= k < |l| && l[k] != m[k];
  }

  /** Two different leaf lists of one length with one root yield a colliding pair of `hashPair` inputs. */
  lemma {:induction false} EqualRootsCollide(hash: Hash, l: seq<string>, m: seq<string>) returns (p: Pair, q: Pair)
    requires |l| == |m| && l != m && Root(hash, l) == Root(hash, m)
    ensures PairCollision(hash, p, q)
    decreases |l|
  {
    assert |l| > 1;
    var i;
    if Above(hash, l) == Above(hash, m) {
      p, q, i := LayerCollision(hash, l, m);
    } else {
      p, q := EqualRootsCollide(hash, Above(hash, l), Above(hash, m));
    }
  }

  ghost predicate AllDigests(l: seq<string>) {
    forall i :: 0 <= i < |l| ==> |l[i]| == 64
  }

  /** When the leaves are digests, equal roots of different lists yield a collision of the digest itself. */
  lemma {:induction false} EqualRootsBreakHash(hash: Hash, l: seq<string>, m: seq<string>)
    returns (a: string, b: string)
    requires |l| == |m| && l != m && Root(hash, l) == Root(hash, m)
    requires AllDigests(l) && AllDigests(m)
    ensures Collision(hash, a, b)
    decreases |l|
  {
    assert |l| > 1;
    if Above(hash, l) == Above(hash, m) {
      var p, q, i := LayerCollision(hash, l, m);
      a, b := PairCollisionIsCollision(hash, p, q);
    } else {
      a, b := EqualRootsBreakHash(hash, Above(hash, l), Above(hash, m));
    }
  }

  /** Lists of different lengths can share a root without any collision: repeating the odd last leaf is invisible. */
  lemma OddTailIsInvisible(hash: Hash, l: seq<string>)
    requires |l| % 2 == 1 && |l| > 1
    ensures Root(hash, l + [l[|l| - 1]]) == Root(hash, l)
  {
    var m := l + [l[|l| - 1]];
    assert Padded(m) == m == Padded(l);
    assert Above(hash, m) == Above(hash, l);
  }

  // ---------------------------------------------------------------------------------------------
  // What `verifyProof` accepts.

  /** At every level where the node is a right child, its left neighbour is equal to it. */
  ghost predicate Mirrored(hash: Hash, layer: seq<string>, i: nat)
    requires i < |layer|
    decreases |layer|
  {
    |layer| > 1 ==> (i % 2 == 1 ==> layer[i - 1] == layer[i]) && Mirrored(hash, Above(hash, layer), i / 2)
  }

  /** One level up: what was put on the left is the node itself, which if odd equals its sibling, or a collision. */
  lemma LeftStep(hash: Hash, layer: seq<string>, i: nat, current: string) returns (a: string, b: string)
    requires i < |layer| && |layer| > 1 && AllDigests(layer) && |current| == 64
    requires Sibling(i) < |Padded(layer)|
    requires HashPair(hash, current, Padded(layer)[Sibling(i)]) == Above(hash, layer)[i / 2]
    ensures Collision(hash, a, b) || (current == layer[i] && (i % 2 == 1 ==> layer[i - 1] == layer[i]))
  {
    ParentOf(hash, layer, i);
    var s := Padded(layer)[Sibling(i)];
    var p, q := Pair(current, s), if i % 2 == 0 then Pair(layer[i], s) else Pair(s, layer[i]);
    a, b := "", "";
    if p != q {
      a, b := PairCollisionIsCollision(hash, p, q);
    }
  }

  /** A left fold that reaches the top follows the nodes of the tree, or exhibits a collision. */
  lemma {:induction false} LeftFoldFollowsTree(hash: Hash, layer: seq<string>, i: nat, current: string)
    returns (a: string, b: string)
    requires i < |layer| && AllDigests(layer) && |current| == 64
    requires FoldLeft(hash, current, Siblings(hash, layer, i)) == Top(hash, layer)
    ensures Collision(hash, a, b) || (current == layer[i] && Mirrored(hash, layer, i))
    decreases |layer|
  {
    a, b := "", "";
    if |layer| > 1 {
      ParentOf(hash, layer, i);
      var s := Padded(layer)[Sibling(i)];
      assert Siblings(hash, layer, i)[1..] == Siblings(hash, Above(hash, layer), i / 2);
      a, b := LeftFoldFollowsTree(hash, Above(hash, layer), i / 2, HashPair(hash, current, s));
      if !Collision(hash, a, b) {
        a, b := LeftStep(hash, layer, i, current);
      }
    }
  }

  /** A mirrored node other than the first repeats an earlier one, or a collision is exhibited. */
  lemma {:induction false} MirroredRepeats(hash: Hash, layer: seq<string>, i: nat)
    returns (j: nat, a: string, b: string)
    requires 0 < i < |layer| && AllDigests(layer) && Mirrored(hash, layer, i)
    ensures Collision(hash, a, b) || (j < i && layer[j] == layer[i])
    decreases |layer|
  {
    j, a, b := i - 1, "", "";
    if i % 2 == 0 {
      ParentOf(hash, layer, i);
      j, a, b := MirroredRepeats(hash, Above(hash, layer), i / 2);
      if !Collision(hash, a, b) {
        ParentOf(hash, layer, 2 * j);
        var p := Pair(layer[2 * j], Padded(layer)[2 * j + 1]);
        var q := Pair(layer[i], Padded(layer)[i + 1]);
        if p != q {
          a, b := PairCollisionIsCollision(hash, p, q);
        }
      }
      j := 2 * j;
    }
  }

  /**
   * `verifyProof` accepts the proof generated for a leaf that stands first in the list. If it
   * accepts the proof generated for a leaf that first occurs later, the digest has an explicit collision.
   */
  lemma VerifyAcceptsFirstLeafOnly(hash: Hash, leaves: seq<string>, leaf: string) returns (a: string, b: string)
    requires leaf in leaves
    ensures var i := FirstIndex(leaves, leaf);
            var accepted := FoldLeft(hash, leaf, Siblings(hash, leaves, i)) == Root(hash, leaves);
      && (i == 0 ==> accepted)
      && (i > 0 && AllDigests(leaves) && accepted ==> Collision(hash, a, b))
  {
    var i := FirstIndex(leaves, leaf);
    a, b := "", "";
    if i == 0 {
      FoldsAgreeAtZero(hash, leaf, Siblings(hash, leaves, 0));
      ParityFoldRebuildsRoot(hash, leaves, 0);
    } else if AllDigests(leaves) && FoldLeft(hash, leaf, Siblings(hash, leaves, i)) == Root(hash, leaves) {
      a, b := LeftFoldFollowsTree(hash, leaves, i, leaf);
      if !Collision(hash, a, b) {
        var j;
        j, a, b := MirroredRepeats(hash, leaves, i);
      }
    }
  }

  /**
   * A digest-sized string with digest-sized siblings, as many as there are layers above the given one, folds to
   * the top only if it is the first node of the layer with its own proof, or a collision is exhibited.
   */
  lemma {:induction false} AcceptedIsFirstNode(hash: Hash, layer: seq<string>, leaf: string, proof: seq<string>)
    returns (a: string, b: string)
    requires layer != [] && AllDigests(layer) && |leaf| == 64 && AllDigests(proof)
    requires |proof| == Height(|layer|)
    ensures Collision(hash, a, b) ||
            (FoldLeft(hash, leaf, proof) == Top(hash, layer) <==> leaf == layer[0] && proof == Siblings(hash, layer, 0))
    decreases |layer|
  {
    a, b := "", "";
    if |layer| > 1 {
      var above, siblings := Above(hash, layer), Siblings(hash, layer, 0);
      var parent := HashPair(hash, leaf, proof[0]);
      assert siblings[1..] == Siblings(hash, above, 0);
      a, b := AcceptedIsFirstNode(hash, above, parent, proof[1..]);
      ParentOf(hash, layer, 0);
      var p, q := Pair(leaf, proof[0]), Pair(layer[0], siblings[0]);
      if !Collision(hash, a, b) {
        if parent == above[0] && p != q {
          a, b := PairCollisionIsCollision(hash, p, q);
        }
        assert proof == [proof[0]] + proof[1..] && siblings == [siblings[0]] + siblings[1..];
      }
    }
  }

  // ---------------------------------------------------------------------------------------------
  // The loops.

  /** The body of the layer loop shared by both builders: pad, then hash pair by pair. */
  method HashLayer(hash: Hash, layer0: seq<string>) returns (layer: seq<string>, nextLayer: seq<string>)
    requires |layer0| > 1
    ensures layer == Padded(layer0) && nextLayer == Above(hash, layer0)
  {
    layer := layer0;
    if |layer| % 2 != 0 {
      layer := layer + [layer[|layer| - 1]];
    }
    nextLayer := [];
    var i := 0;
    while i < |layer|
      invariant i % 2 == 0 && i <= |layer|
      invariant nextLayer == Above(hash, layer0)[..i / 2]
    {
      nextLayer := nextLayer + [HashPair(hash, layer[i], layer[i + 1])];
      i := i + 2;
    }
  }

  method BuildRoot(hash: Hash, txHashes: seq<string>) returns (root: string)
    ensures root == Root(hash, txHashes)
  {
    if txHashes == [] {
      return seq(64, i => '0');
    }
    if |txHashes| == 1 {
      return txHashes[0];
    }
    var layer := txHashes;
    while |layer| > 1
      invariant layer != [] && Top(hash, layer) == Top(hash, txHashes)
      decreases |layer|
    {
      var padded, nextLayer := HashLayer(hash, layer);
      layer := nextLayer;
    }
    root := layer[0];
  }

  /** `std::find`: the first index of `txHash`, or the length of the list. */
  method Find(txHashes: seq<string>, txHash: string) returns (idx: nat)
    ensures idx == FirstIndex(txHashes, txHash)
  {
    idx := 0;
    while idx < |txHashes| && txHashes[idx] != txHash
      invariant idx <= |txHashes| && forall j :: 0 <= j < idx ==> txHashes[j] != txHash
    {
      idx := idx + 1;
    }
  }

  /** The climbing loop of `generateProof`. */
  method Climb(hash: Hash, leaves: seq<string>, first: nat) returns (proof: seq<string>)
    requires first < |leaves|
    ensures proof == Siblings(hash, leaves, first)
  {
    proof := [];
    var layer := leaves;
    var idx: nat := first;
    while |layer| > 1
      invariant idx < |layer|
      invariant Siblings(hash, leaves, first) == proof + Siblings(hash, layer, idx)
      decreases |layer|
    {
      var padded, nextLayer := HashLayer(hash, layer);
      var sibling := if idx % 2 == 0 then idx + 1 else idx - 1;
      ParentOf(hash, layer, idx);
      SiblingsStep(hash, layer, idx, proof);
      proof := proof + [padded[sibling]];
      layer := nextLayer;
      idx := idx / 2;
    }
  }

  lemma SiblingsStep(hash: Hash, layer: seq<string>, i: nat, proof: seq<string>)
    requires i < |layer| && |layer| > 1
    ensures Sibling(i) < |Padded(layer)|
    ensures proof + Siblings(hash, layer, i) ==
            (proof + [Padded(layer)[Sibling(i)]]) + Siblings(hash, Above(hash, layer), i / 2)
  {
    ParentOf(hash, layer, i);
    assert Siblings(hash, layer, i) == [Padded(layer)[Sibling(i)]] + Siblings(hash, Above(hash, layer), i / 2);
  }

  /** The proof for the first occurrence of `txHash`, empty when it does not occur. */
  method GenerateProof(hash: Hash, txHashes: seq<string>, txHash: string) returns (proof: seq<string>)
    ensures proof == if txHash in txHashes then Siblings(hash, txHashes, FirstIndex(txHashes, txHash)) else []
  {
    var idx := Find(txHashes, txHash);
    if idx == |txHashes| {
      return [];
    }
    proof := Climb(hash, txHashes, idx);
  }

  method VerifyProof(hash: Hash, root: string, txHash: string, proof: seq<string>) returns (ok: bool)
    ensures ok <==> FoldLeft(hash, txHash, proof) == root
  {
    var current := txHash;
    for i := 0 to |proof|
      invariant FoldLeft(hash, txHash, proof) == FoldLeft(hash, current, proof[i..])
    {
      assert proof[i..][1..] == proof[i + 1..];
      current := HashPair(hash, current, proof[i]);
    }
    ok := current == root;
  }
}
