/** What a Merkle root and its proofs leave open: leaf lists of any lengths, and proofs of any length. */
module MerkleLayers {
  import opened Text
  import opened Merkle

  // ---------------------------------------------------------------------------------------------
  // What a root is.

  /** The left one of two leaves is hashed first, in two rounds. */
  lemma RootOfTwo(hash: Hash, a: string, b: string)
    ensures Root(hash, [a, b]) == hash(hash(a + b))
  {
    var x := HashPair(hash, a, b);
    assert Padded([a, b]) == [a, b];
    assert Above(hash, [a, b]) == [x];
    SameRootAbove(hash, [a, b]);
  }

  /** No leaf, one leaf, and three, the last of which is hashed with itself. */
  lemma SmallRoots(hash: Hash, a: string, b: string, c: string)
    ensures Root(hash, []) == seq(64, i => '0') && Root(hash, [a]) == a
    ensures Root(hash, [a, b, c]) == hash(hash(hash(hash(a + b)) + hash(hash(c + c))))
  {
    var x: string, y: string := HashPair(hash, a, b), HashPair(hash, c, c);
    assert Padded([a, b, c]) == [a, b, c, c];
    assert Above(hash, [a, b, c]) == [x, y];
    SameRootAbove(hash, [a, b, c]);
    RootOfTwo(hash, x, y);
  }

  /** Two even layers side by side. */
  lemma AboveSideBySide(hash: Hash, l: seq<string>, m: seq<string>)
    requires |l| % 2 == 0 && |m| % 2 == 0
    ensures Above(hash, l + m) == Above(hash, l) + Above(hash, m)
  {
    var both := l + m;
    var left, right := Above(hash, l), Above(hash, m);
    assert Padded(both) == both && Padded(l) == l && Padded(m) == m;
    forall q | 0 <= q < |both| / 2 ensures Above(hash, both)[q] == (left + right)[q] {
      if q >= |left| {
        assert both[2 * q] == m[2 * (q - |left|)] && both[2 * q + 1] == m[2 * (q - |left|) + 1];
      }
    }
  }

  /** Two lists whose concatenation has the pair of their roots as its root. */
  ghost predicate RootsPair(hash: Hash, l: seq<string>, m: seq<string>) {
    Root(hash, l + m) == HashPair(hash, Root(hash, l), Root(hash, m))
  }

  lemma SinglesPair(hash: Hash, l: seq<string>, m: seq<string>)
    requires |l| == |m| == 1
    ensures RootsPair(hash, l, m)
  {
    assert l + m == [l[0], m[0]];
    RootOfTwo(hash, l[0], m[0]);
  }

  lemma HalvesStep(hash: Hash, l: seq<string>, m: seq<string>, n: nat)
    requires n > 0 && |l| == |m| == 2 * n
    requires RootsPair(hash, Above(hash, l), Above(hash, m))
    ensures RootsPair(hash, l, m)
  {
    HalvesAbove(hash, l, m, n);
  }

  lemma DoublePower(k: nat)
    requires k > 0
    ensures Pow2(k) == 2 * Pow2(k - 1) && Pow2(k - 1) > 0
  {
    PowerIsPositive(k - 1);
  }

  lemma HalfLayer(hash: Hash, l: seq<string>, n: nat)
    requires |l| == 2 * n
    ensures |Above(hash, l)| == n
  {
  }

  lemma {:induction false} HalvesPair(hash: Hash, l: seq<string>, m: seq<string>, size: nat, k: nat)
    requires |l| == |m| == size && size == Pow2(k)
    ensures RootsPair(hash, l, m)
    decreases k
  {
    if k == 0 {
      SinglesPair(hash, l, m);
    } else {
      var n := Pow2(k - 1);
      DoublePower(k);
      HalfLayer(hash, l, n);
      HalfLayer(hash, m, n);
      HalvesPair(hash, Above(hash, l), Above(hash, m), n, k - 1);
      HalvesStep(hash, l, m, n);
    }
  }

  /** The root of two full halves is the double digest of their roots, the left one first. */
  lemma RootOfHalves(hash: Hash, l: seq<string>, m: seq<string>, k: nat)
    requires |l| == |m| == Pow2(k)
    ensures Root(hash, l + m) == hash(hash(Root(hash, l) + Root(hash, m)))
  {
    HalvesPair(hash, l, m, |l|, k);
  }

  lemma HalvesAbove(hash: Hash, l: seq<string>, m: seq<string>, n: nat)
    requires n > 0 && |l| == |m| == 2 * n
    ensures |Above(hash, l)| == |Above(hash, m)| == n
    ensures Root(hash, Above(hash, l)) == Root(hash, l) && Root(hash, Above(hash, m)) == Root(hash, m)
    ensures Root(hash, Above(hash, l) + Above(hash, m)) == Root(hash, l + m)
  {
    AboveSideBySide(hash, l, m);
    SameRootAbove(hash, l);
    SameRootAbove(hash, m);
    SameRootAbove(hash, l + m);
  }

  lemma SameRootAbove(hash: Hash, layer: seq<string>)
    requires |layer| > 1
    ensures Root(hash, Above(hash, layer)) == Root(hash, layer)
  {
  }

  // ---------------------------------------------------------------------------------------------
  // Proofs of any length.

  lemma {:induction false} FoldSplits(hash: Hash, current: string, proof: seq<string>, n: nat)
    requires n <= |proof|
    ensures FoldLeft(hash, current, proof) == FoldLeft(hash, FoldLeft(hash, current, proof[..n]), proof[n..])
    decreases n
  {
    if n > 0 {
      FoldSplits(hash, HashPair(hash, current, proof[0]), proof[1..], n - 1);
      assert proof[1..][..n - 1] == proof[..n][1..] && proof[1..][n - 1..] == proof[n..];
    } else {
      assert proof[0..] == proof;
    }
  }

  lemma {:induction false} FoldIsDigest(hash: Hash, current: string, proof: seq<string>)
    requires |current| == 64
    ensures |FoldLeft(hash, current, proof)| == 64
    decreases |proof|
  {
    if proof != [] {
      FoldIsDigest(hash, HashPair(hash, current, proof[0]), proof[1..]);
    }
  }

  /** A string and its proof are the first node's of the layer that is as far below the root as the proof is long. */
  ghost predicate FromLayer(hash: Hash, layer: seq<string>, leaf: string, proof: seq<string>)
    requires layer != []
    decreases |layer|
  {
    if |proof| < Height(|layer|) then FromLayer(hash, Above(hash, layer), leaf, proof)
    else leaf == layer[0] && proof == Siblings(hash, layer, 0)
  }

  /** With a proof longer than the tree is high, a string hashes up to the first leaf. */
  ghost predicate BelowLeaf(hash: Hash, leaves: seq<string>, leaf: string, proof: seq<string>, extra: nat)
    requires leaves != [] && extra <= |proof|
  {
    FoldLeft(hash, leaf, proof[..extra]) == leaves[0] && proof[extra..] == Siblings(hash, leaves, 0)
  }

  /** What a proof has to be. */
  ghost predicate Acceptable(hash: Hash, leaves: seq<string>, leaf: string, proof: seq<string>)
    requires leaves != []
  {
    var h := Height(|leaves|);
    if |proof| <= h then FromLayer(hash, leaves, leaf, proof) else BelowLeaf(hash, leaves, leaf, proof, |proof| - h)
  }

  /** What `verifyProof` computes for the root of the leaves. */
  ghost predicate Verified(hash: Hash, leaves: seq<string>, leaf: string, proof: seq<string>) {
    FoldLeft(hash, leaf, proof) == Root(hash, leaves)
  }

  lemma {:induction false} ShortProof(hash: Hash, layer: seq<string>, leaf: string, proof: seq<string>)
    returns (a: string, b: string)
    requires layer != [] && AllDigests(layer) && |leaf| == 64 && AllDigests(proof)
    requires |proof| <= Height(|layer|)
    ensures Collision(hash, a, b) || (Verified(hash, layer, leaf, proof) <==> FromLayer(hash, layer, leaf, proof))
    decreases |layer|
  {
    if |proof| < Height(|layer|) {
      a, b := ShortProof(hash, Above(hash, layer), leaf, proof);
    } else {
      a, b := AcceptedIsFirstNode(hash, layer, leaf, proof);
    }
  }

  lemma LongProof(hash: Hash, leaves: seq<string>, leaf: string, proof: seq<string>, extra: nat)
    returns (a: string, b: string)
    requires leaves != [] && AllDigests(leaves) && |leaf| == 64 && AllDigests(proof)
    requires |proof| == Height(|leaves|) + extra
    ensures Collision(hash, a, b) ||
            (Verified(hash, leaves, leaf, proof) <==> BelowLeaf(hash, leaves, leaf, proof, extra))
  {
    FoldSplits(hash, leaf, proof, extra);
    FoldIsDigest(hash, leaf, proof[..extra]);
    a, b := AcceptedIsFirstNode(hash, leaves, FoldLeft(hash, leaf, proof[..extra]), proof[extra..]);
  }

  /**
   * `verifyProof` looks at no length. A digest-sized string is accepted with a proof of digest-sized strings
   * exactly when it is the first node of the layer that many steps below the root and the proof is that
   * node's, or, with a longer proof, when it hashes up to the first leaf; or a collision is exhibited.
   */
  lemma AcceptedExactly(hash: Hash, leaves: seq<string>, leaf: string, proof: seq<string>)
    returns (a: string, b: string)
    requires leaves != [] && AllDigests(leaves) && |leaf| == 64 && AllDigests(proof)
    ensures Collision(hash, a, b) ||
            (Verified(hash, leaves, leaf, proof) <==> Acceptable(hash, leaves, leaf, proof))
  {
    if |proof| <= Height(|leaves|) {
      a, b := ShortProof(hash, leaves, leaf, proof);
    } else {
      a, b := LongProof(hash, leaves, leaf, proof, |proof| - Height(|leaves|));
    }
  }

  /** The root is accepted as a leaf, with the empty proof. */
  lemma RootIsAccepted(hash: Hash, leaves: seq<string>)
    ensures FoldLeft(hash, Root(hash, leaves), []) == Root(hash, leaves)
  {
  }

  /** So is the parent of the first two leaves, with the rest of the first leaf's proof. */
  lemma InnerNodeIsAccepted(hash: Hash, leaves: seq<string>)
    requires |leaves| > 1
    ensures var node := HashPair(hash, leaves[0], leaves[1]);
      FoldLeft(hash, node, Siblings(hash, leaves, 0)[1..]) == Root(hash, leaves)
  {
    var above := Above(hash, leaves);
    ParentOf(hash, leaves, 0);
    assert Siblings(hash, leaves, 0)[1..] == Siblings(hash, above, 0);
    FoldsAgreeAtZero(hash, above[0], Siblings(hash, above, 0));
    ParityFoldRebuildsRoot(hash, above, 0);
  }

  // ---------------------------------------------------------------------------------------------
  // Leaf lists of any length.

  /** The leaf at position `p` once the odd tail of every layer has been repeated. */
  ghost function Source(size: nat, p: nat): (i: nat)
    ensures size > 0 ==> i < size
  {
    if size <= 1 then 0
    else
      var i := 2 * Source((size + 1) / 2, p / 2) + p % 2;
      if i < size then i else size - 1
  }

  /** The leaves with the odd tail of every layer repeated: as many as a tree of this height can have. */
  ghost function Completed(leaves: seq<string>): (c: seq<string>)
    requires leaves != []
    ensures |c| == Pow2(Height(|leaves|))
  {
    seq(Pow2(Height(|leaves|)), p requires 0 <= p < Pow2(Height(|leaves|)) => leaves[Source(|leaves|, p)])
  }

  lemma CompletedSize(leaves: seq<string>)
    requires |leaves| > 1
    ensures |Completed(leaves)| == 2 * Pow2(Height((|leaves| + 1) / 2)) && |Completed(leaves)| > 1
  {
    PowerIsPositive(Height((|leaves| + 1) / 2));
  }

  lemma SourcePair(size: nat, q: nat)
    requires size > 1
    ensures var j := Source((size + 1) / 2, q);
      && 2 * j < size && Source(size, 2 * q) == 2 * j
      && Source(size, 2 * q + 1) == if 2 * j + 1 < size then 2 * j + 1 else size - 1
  {
    assert (2 * q) / 2 == q && (2 * q + 1) / 2 == q;
    assert (2 * q) % 2 == 0 && (2 * q + 1) % 2 == 1;
  }

  lemma PaddedAt(leaves: seq<string>, i: nat)
    requires i < |Padded(leaves)|
    ensures Padded(leaves)[i] == leaves[if i < |leaves| then i else |leaves| - 1]
  {
  }

  lemma CompletedAt(leaves: seq<string>, p: nat, i: nat)
    requires leaves != [] && p < |Completed(leaves)| && i == Source(|leaves|, p)
    ensures Completed(leaves)[p] == leaves[i]
  {
  }

  lemma CompletedPair(leaves: seq<string>, q: nat, j: nat)
    requires |leaves| > 1 && 2 * q + 1 < |Completed(leaves)| && j == Source((|leaves| + 1) / 2, q)
    ensures 2 * j + 1 < |Padded(leaves)|
    ensures Completed(leaves)[2 * q] == Padded(leaves)[2 * j]
    ensures Completed(leaves)[2 * q + 1] == Padded(leaves)[2 * j + 1]
  {
    var n := |leaves|;
    SourcePair(n, q);
    CompletedAt(leaves, 2 * q, 2 * j);
    CompletedAt(leaves, 2 * q + 1, if 2 * j + 1 < n then 2 * j + 1 else n - 1);
    PaddedAt(leaves, 2 * j);
    PaddedAt(leaves, 2 * j + 1);
  }

  lemma SamePairs(hash: Hash, c: seq<string>, q: nat, leaves: seq<string>, j: nat)
    requires |c| % 2 == 0 && 2 * q + 1 < |c| && 2 * j + 1 < |Padded(leaves)|
    requires c[2 * q] == Padded(leaves)[2 * j] && c[2 * q + 1] == Padded(leaves)[2 * j + 1]
    ensures Above(hash, c)[q] == Above(hash, leaves)[j]
  {
  }

  lemma PairOfCompleted(hash: Hash, leaves: seq<string>, c: seq<string>, q: nat, j: nat)
    requires |leaves| > 1 && c == Completed(leaves) && |c| % 2 == 0 && 2 * q + 1 < |c|
    requires j == Source((|leaves| + 1) / 2, q)
    ensures j < |Above(hash, leaves)| && Above(hash, c)[q] == Above(hash, leaves)[j]
  {
    CompletedPair(leaves, q, j);
    SamePairs(hash, c, q, leaves, j);
  }

  lemma AboveCompletedAt(hash: Hash, leaves: seq<string>, c: seq<string>, q: nat)
    requires |leaves| > 1 && c == Completed(leaves) && |c| % 2 == 0 && 2 * q + 1 < |c|
    ensures var above, j := Above(hash, leaves), Source((|leaves| + 1) / 2, q);
      j < |above| && Above(hash, c)[q] == above[j]
  {
    PairOfCompleted(hash, leaves, c, q, Source((|leaves| + 1) / 2, q));
  }

  lemma SameElements(x: seq<string>, y: seq<string>)
    requires |x| == |y| && forall q :: 0 <= q < |x| ==> x[q] == y[q]
    ensures x == y
  {
  }

  /** Completing commutes with building the next layer. */
  lemma AboveCompleted(hash: Hash, leaves: seq<string>)
    requires |leaves| > 1
    ensures |Completed(leaves)| > 1 && Above(hash, Completed(leaves)) == Completed(Above(hash, leaves))
  {
    var above := Above(hash, leaves);
    var c, d := Completed(leaves), Completed(above);
    CompletedSize(leaves);
    HalfLayer(hash, c, |d|);
    forall q | 0 <= q < |d| ensures Above(hash, c)[q] == d[q] {
      AboveCompletedAt(hash, leaves, c, q);
      CompletedAt(above, q, Source(|above|, q));
    }
    SameElements(Above(hash, c), d);
  }

  lemma {:induction false} PowerIsPositive(n: nat)
    ensures Pow2(n) >= 1
  {
    if n > 0 {
      PowerIsPositive(n - 1);
    }
  }

  /** Completing keeps the root. */
  lemma {:induction false} TopCompleted(hash: Hash, leaves: seq<string>)
    requires leaves != []
    ensures Completed(leaves) != [] && Top(hash, Completed(leaves)) == Top(hash, leaves)
    decreases |leaves|
  {
    PowerIsPositive(Height(|leaves|));
    if |leaves| > 1 {
      AboveCompleted(hash, leaves);
      TopCompleted(hash, Above(hash, leaves));
    }
  }

  /** No leaf is lost: the position of the `i`-th one. */
  ghost function Position(size: nat, i: nat): nat {
    if size <= 1 then 0 else 2 * Position((size + 1) / 2, i / 2) + i % 2
  }

  lemma SourceStep(size: nat, i: nat, q: nat)
    requires size > 1 && i < size && Source((size + 1) / 2, q) == i / 2
    ensures Source(size, 2 * q + i % 2) == i
  {
    SourcePair(size, q);
    if i % 2 == 0 {
      assert i == 2 * (i / 2);
    } else {
      assert i == 2 * (i / 2) + 1;
    }
  }

  lemma {:induction false} PositionInTree(size: nat, i: nat)
    requires i < size
    ensures Position(size, i) < Pow2(Height(size))
  {
    if size > 1 {
      PositionInTree((size + 1) / 2, i / 2);
    }
  }

  lemma {:induction false} SourceOfPosition(size: nat, i: nat)
    requires i < size
    ensures Source(size, Position(size, i)) == i
  {
    if size > 1 {
      SourceOfPosition((size + 1) / 2, i / 2);
      SourceStep(size, i, Position((size + 1) / 2, i / 2));
    }
  }

  lemma CompletedDetermines(l: seq<string>, m: seq<string>)
    requires l != [] && |l| == |m| && Completed(l) == Completed(m)
    ensures l == m
  {
    forall i | 0 <= i < |l| ensures l[i] == m[i] {
      PositionInTree(|l|, i);
      SourceOfPosition(|l|, i);
      CompletedAt(l, Position(|l|, i), i);
      CompletedAt(m, Position(|m|, i), i);
    }
  }

  /** The empty list has the root of a single leaf of zeros. */
  ghost function Leaves(l: seq<string>): (leaves: seq<string>)
    ensures leaves != []
  {
    if l == [] then [seq(64, i => '0')] else l
  }

  /** The completed lists agree as far down as the lower tree reaches. */
  ghost predicate SameBelow(hash: Hash, low: seq<string>, high: seq<string>)
    requires low != [] && high != []
    decreases |high|
  {
    if Height(|low|) < Height(|high|) then SameBelow(hash, low, Above(hash, high))
    else Completed(low) == Completed(high)
  }

  ghost predicate SameTree(hash: Hash, l: seq<string>, m: seq<string>) {
    var x, y := Leaves(l), Leaves(m);
    if Height(|x|) <= Height(|y|) then SameBelow(hash, x, y) else SameBelow(hash, y, x)
  }

  lemma CompletedDigests(leaves: seq<string>)
    requires leaves != [] && AllDigests(leaves)
    ensures AllDigests(Completed(leaves))
  {
    forall p | 0 <= p < |Completed(leaves)| ensures |Completed(leaves)[p]| == 64 {
      CompletedAt(leaves, p, Source(|leaves|, p));
    }
  }

  lemma EqualTopsExactly(hash: Hash, x: seq<string>, y: seq<string>) returns (a: string, b: string)
    requires x != [] && y != [] && AllDigests(x) && AllDigests(y) && Height(|x|) == Height(|y|)
    ensures Collision(hash, a, b) || (Top(hash, x) == Top(hash, y) <==> Completed(x) == Completed(y))
  {
    a, b := "", "";
    TopCompleted(hash, x);
    TopCompleted(hash, y);
    CompletedDigests(x);
    CompletedDigests(y);
    if Top(hash, x) == Top(hash, y) && Completed(x) != Completed(y) {
      a, b := EqualRootsBreakHash(hash, Completed(x), Completed(y));
    }
  }

  lemma {:induction false} EqualTopsBelow(hash: Hash, low: seq<string>, high: seq<string>)
    returns (a: string, b: string)
    requires low != [] && high != [] && Height(|low|) <= Height(|high|)
    requires AllDigests(low) && AllDigests(high)
    ensures Collision(hash, a, b) || (Top(hash, low) == Top(hash, high) <==> SameBelow(hash, low, high))
    decreases |high|
  {
    if Height(|low|) < Height(|high|) {
      a, b := EqualTopsBelow(hash, low, Above(hash, high));
    } else {
      a, b := EqualTopsExactly(hash, low, high);
    }
  }

  /**
   * Two lists of digests of any lengths have one root exactly when their completed trees agree as far down as
   * the lower one reaches, or a collision is exhibited.
   */
  lemma EqualRootsExactly(hash: Hash, l: seq<string>, m: seq<string>) returns (a: string, b: string)
    requires AllDigests(l) && AllDigests(m)
    ensures Collision(hash, a, b) || (Root(hash, l) == Root(hash, m) <==> SameTree(hash, l, m))
  {
    var x, y := Leaves(l), Leaves(m);
    if Height(|x|) <= Height(|y|) {
      a, b := EqualTopsBelow(hash, x, y);
    } else {
      a, b := EqualTopsBelow(hash, y, x);
    }
  }

  /** Lists of one length have the same tree only if they are equal. */
  lemma SameTreeSameLength(hash: Hash, l: seq<string>, m: seq<string>)
    requires |l| == |m| && SameTree(hash, l, m)
    ensures l == m
  {
    if l != [] {
      CompletedDetermines(l, m);
    }
  }

  /** Without any collision a single leaf can have the root of any list, and the empty list that of a leaf of zeros. */
  lemma RootIsALeaf(hash: Hash, l: seq<string>)
    ensures Root(hash, [Root(hash, l)]) == Root(hash, l)
    ensures Root(hash, []) == Root(hash, [seq(64, i => '0')])
  {
  }
}
