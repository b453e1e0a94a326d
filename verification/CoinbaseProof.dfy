/** The coinbase proof: a proof inside the first subtree, followed by a proof of its
    root in the tree over the subtree roots.
 */
module CoinbaseProof {
  import opened Hashing
  import opened PowersOfTwo
  import opened Canonical
  import opened MerkleProof
  import opened Results

  /** The roots GetMerkleProofForCoinbase puts in its top tree: not padded. */
  function Roots<T>(hs: Hasher<T>, blocks: seq<seq<T>>): (r: seq<T>)
    requires NoneEmpty(blocks)
    ensures |r| == |blocks|
    ensures forall i :: 0 <= i < |r| ==> r[i] == Root(hs, blocks[i])
  {
    if blocks == [] then [] else [Root(hs, blocks[0])] + Roots(hs, blocks[1..])
  }

  /** The proof for the first leaf of the first subtree. */
  function CoinbaseSiblings<T>(hs: Hasher<T>, blocks: seq<seq<T>>): seq<T>
    requires |blocks| > 0 && NoneEmpty(blocks)
  {
    Siblings(hs, blocks[0], 0) + Siblings(hs, Roots(hs, blocks), 0)
  }

  lemma {:induction false} FoldAppend<T>(hs: Hasher<T>, x: T, p: seq<T>, q: seq<T>)
    ensures Fold(hs, x, p + q, 0) == Fold(hs, Fold(hs, x, p, 0), q, 0)
    decreases |p|
  {
    if p == [] {
      assert p + q == q;
    } else {
      assert (p + q)[0] == p[0] && (p + q)[1..] == p[1..] + q;
      FoldAppend(hs, Parent(hs, x, p[0], 0), p[1..], q);
    }
  }

  /** The proof for the first hash does not depend on that hash. */
  lemma {:induction false} SiblingsOfFirst<T>(hs: Hasher<T>, s: seq<T>, x: T)
    requires |s| > 0
    ensures Siblings(hs, s[0 := x], 0) == Siblings(hs, s, 0)
    decreases |s|
  {
    if |s| > 1 {
      var s' := s[0 := x];
      assert s'[2..] == s[2..];
      assert Up(hs, s') == Up(hs, s)[0 := hs.pair(x, s[1])];
      SiblingsOfFirst(hs, Up(hs, s), hs.pair(x, s[1]));
    }
  }

  /** The proof survives the replacement of the placeholder: with any coinbase hash
      it folds to the root of the top tree in which only the root of the first subtree
      has been recomputed. */
  lemma {:induction false} SurvivesReplacement<T>(hs: Hasher<T>, blocks: seq<seq<T>>, coinbase: T)
    requires |blocks| > 0 && NoneEmpty(blocks)
    ensures Fold(hs, coinbase, CoinbaseSiblings(hs, blocks), 0)
         == Root(hs, Roots(hs, blocks)[0 := Root(hs, blocks[0][0 := coinbase])])
  {
    var first := blocks[0][0 := coinbase];
    var top := Roots(hs, blocks)[0 := Root(hs, first)];
    SiblingsOfFirst(hs, blocks[0], coinbase);
    SiblingsFoldToRoot(hs, first, 0);
    SiblingsOfFirst(hs, Roots(hs, blocks), Root(hs, first));
    SiblingsFoldToRoot(hs, top, 0);
    FoldAppend(hs, coinbase, Siblings(hs, blocks[0], 0), Siblings(hs, Roots(hs, blocks), 0));
  }

  /** The first leaf itself folds to the root of the top tree. */
  lemma {:induction false} FoldsToTopRoot<T>(hs: Hasher<T>, blocks: seq<seq<T>>)
    requires |blocks| > 0 && NoneEmpty(blocks)
    ensures Fold(hs, blocks[0][0], CoinbaseSiblings(hs, blocks), 0) == Root(hs, Roots(hs, blocks))
  {
    SurvivesReplacement(hs, blocks, blocks[0][0]);
    assert blocks[0][0 := blocks[0][0]] == blocks[0];
    assert Roots(hs, blocks)[0 := Root(hs, blocks[0])] == Roots(hs, blocks);
  }

  /** The roots of the subtrees that have height k are padded roots. */
  lemma {:induction false} RootsArePadded<T>(hs: Hasher<T>, blocks: seq<seq<T>>, k: nat, i: nat)
    requires IsBlock(blocks, k) && i < |blocks|
    ensures NoneAbove(blocks, k)
    ensures i < |blocks| - 1 || CeilLog2(|blocks[i]|) == k ==>
      Roots(hs, blocks)[i] == PaddedRoots(hs, blocks, k)[i]
  {
    BlockHeights(blocks, k);
  }

  lemma {:induction false} AllRootsArePadded<T>(hs: Hasher<T>, blocks: seq<seq<T>>, k: nat)
    requires IsBlock(blocks, k) && CeilLog2(|blocks[|blocks| - 1]|) == k
    ensures NoneAbove(blocks, k)
    ensures Roots(hs, blocks) == PaddedRoots(hs, blocks, k)
  {
    BlockHeights(blocks, k);
    forall i | 0 <= i < |blocks| ensures Roots(hs, blocks)[i] == PaddedRoots(hs, blocks, k)[i] {
      RootsArePadded(hs, blocks, k, i);
    }
  }

  /** Block root: when the last subtree has the height of the others, the proof folds
      the first leaf to the root of the one flat tree over all leaves. */
  lemma {:induction false} ReachesBlockRoot<T>(hs: Hasher<T>, blocks: seq<seq<T>>, k: nat)
    requires IsBlock(blocks, k) && CeilLog2(|blocks[|blocks| - 1]|) == k
    ensures NoneEmpty(blocks)
    ensures |Concat(blocks)| > 0
    ensures Fold(hs, blocks[0][0], CoinbaseSiblings(hs, blocks), 0) == Root(hs, Concat(blocks))
  {
    AllRootsArePadded(hs, blocks, k);
    FoldsToTopRoot(hs, blocks);
    if |blocks| >= 2 {
      Composition(hs, blocks, k, PaddedRoots(hs, blocks, k), Concat(blocks));
    } else {
      assert Concat(blocks) == blocks[0] + Concat(blocks[1..]) == blocks[0];
      assert Roots(hs, blocks) == [Root(hs, blocks[0])];
    }
  }

  /** And with the coinbase in the place of the placeholder, the same proof folds it to
      the root of the flat tree that starts with the coinbase. */
  lemma {:induction false} CoinbaseReachesBlockRoot<T>(
      hs: Hasher<T>, blocks: seq<seq<T>>, k: nat, coinbase: T, leaves: seq<T>)
    requires IsBlock(blocks, k) && NoneEmpty(blocks) && CeilLog2(|blocks[|blocks| - 1]|) == k
    requires |Concat(blocks)| > 0 && leaves == Concat(blocks)[0 := coinbase]
    ensures Fold(hs, coinbase, CoinbaseSiblings(hs, blocks), 0) == Root(hs, leaves)
  {
    var first := blocks[0][0 := coinbase];
    var blocks' := blocks[0 := first];
    assert blocks'[1..] == blocks[1..];
    assert Concat(blocks') == leaves;
    assert Roots(hs, blocks') == Roots(hs, blocks)[0 := Root(hs, first)];
    SiblingsOfFirst(hs, blocks[0], coinbase);
    SiblingsOfFirst(hs, Roots(hs, blocks), Root(hs, first));
    ReachesBlockRoot(hs, blocks', k);
  }

  /** The root of the last subtree, lifted to height `k`, is that root: always when the
      subtree has height k, else only on a cycle of hashing a value with itself. */
  ghost predicate LastRootStays<T>(hs: Hasher<T>, blocks: seq<seq<T>>, k: nat)
    requires |blocks| > 0 && NoneEmpty(blocks) && NoneAbove(blocks, k)
  {
    var last := blocks[|blocks| - 1];
    Lift(hs, Root(hs, last), k - CeilLog2(|last|)) == Root(hs, last)
  }

  /** The collision between the tree over the roots and the tree over the padded roots. */
  function RootsCollision<T(==)>(hs: Hasher<T>, blocks: seq<seq<T>>, k: nat): (r: Option<(T, T, T, T)>)
    requires NoneEmpty(blocks) && NoneAbove(blocks, k)
    ensures r.Some? ==> IsCollision(hs, r.value.0, r.value.1, r.value.2, r.value.3)
  {
    TreeCollision(hs, Roots(hs, blocks), PaddedRoots(hs, blocks, k))
  }

  /** The proof folds the first leaf to the root of the flat tree over all leaves. */
  ghost predicate Reaches<T>(hs: Hasher<T>, blocks: seq<seq<T>>)
    requires |blocks| > 0 && NoneEmpty(blocks) && |Concat(blocks)| > 0
  {
    Fold(hs, blocks[0][0], CoinbaseSiblings(hs, blocks), 0) == Root(hs, Concat(blocks))
  }

  /** Only the root of the last subtree can differ from its padded root. */
  lemma {:induction false} SameRootsIff<T>(hs: Hasher<T>, blocks: seq<seq<T>>, k: nat)
    requires IsBlock(blocks, k) && NoneEmpty(blocks) && NoneAbove(blocks, k)
    ensures Roots(hs, blocks) == PaddedRoots(hs, blocks, k) <==> LastRootStays(hs, blocks, k)
  {
    var roots, padded := Roots(hs, blocks), PaddedRoots(hs, blocks, k);
    forall i | 0 <= i < |blocks| - 1 ensures roots[i] == padded[i] {
      RootsArePadded(hs, blocks, k, i);
    }
    LastDecides(roots, padded);
  }

  lemma {:induction false} LastDecides<T>(s: seq<T>, t: seq<T>)
    requires |s| == |t| > 0 && forall i :: 0 <= i < |s| - 1 ==> s[i] == t[i]
    ensures s == t <==> s[|s| - 1] == t[|t| - 1]
  {
  }

  /** Exactly when the coinbase proof of at least two subtrees reaches the block root,
      whatever the hash: when the last root stays what it is under lifting, and
      otherwise only with a collision, which `RootsCollision` finds. */
  lemma {:induction false} ReachesOrCollides<T>(hs: Hasher<T>, blocks: seq<seq<T>>, k: nat)
    requires IsBlock(blocks, k) && |blocks| >= 2 && |Concat(blocks)| > 0
    requires NoneEmpty(blocks) && NoneAbove(blocks, k)
    ensures LastRootStays(hs, blocks, k) ==> Reaches(hs, blocks)
    ensures Reaches(hs, blocks) && !LastRootStays(hs, blocks, k) ==> RootsCollision(hs, blocks, k).Some?
  {
    var roots, padded := Roots(hs, blocks), PaddedRoots(hs, blocks, k);
    SameRootsIff(hs, blocks, k);
    FoldsToTopRoot(hs, blocks);
    Composition(hs, blocks, k, padded, Concat(blocks));
    if roots != padded && Root(hs, roots) == Root(hs, padded) {
      TreesCollide(hs, roots, padded);
    }
  }

  /** The proof misses the block root when the last subtree is lower than the others:
      reaching it exhibits a collision, or a cycle of hashing a value with itself. */
  lemma {:induction false} MissesBlockRoot<T>(hs: Hasher<T>, blocks: seq<seq<T>>, k: nat)
    requires IsBlock(blocks, k) && |blocks| >= 2 && CeilLog2(|blocks[|blocks| - 1]|) != k
    ensures NoneEmpty(blocks) && NoneAbove(blocks, k) && |Concat(blocks)| > 0
    ensures Reaches(hs, blocks) ==>
      || RootsCollision(hs, blocks, k).Some?
      || (CeilLog2(|blocks[|blocks| - 1]|) < k && LastRootStays(hs, blocks, k))
  {
    BlockHeights(blocks, k);
    ManyLeaves(hs, blocks, k);
    ReachesOrCollides(hs, blocks, k);
  }

  /** The trees over the roots and over the padded roots show no collision, and the root
      of a lower last subtree lies on no cycle. */
  ghost predicate NoCoincidence<T>(hs: Hasher<T>, blocks: seq<seq<T>>, k: nat)
    requires |blocks| > 0 && NoneEmpty(blocks) && NoneAbove(blocks, k)
  {
    && RootsCollision(hs, blocks, k).None?
    && (CeilLog2(|blocks[|blocks| - 1]|) < k ==> !LastRootStays(hs, blocks, k))
  }

  /** Barring such a coincidence, exactly these blocks are reached. */
  lemma {:induction false} ReachesBlockRootIff<T>(hs: Hasher<T>, blocks: seq<seq<T>>, k: nat)
    requires IsBlock(blocks, k) && NoneEmpty(blocks) && NoneAbove(blocks, k) && |Concat(blocks)| > 0
    requires |blocks| == 1 || NoCoincidence(hs, blocks, k)
    ensures Reaches(hs, blocks) <==> |blocks| == 1 || CeilLog2(|blocks[|blocks| - 1]|) == k
  {
    var last := blocks[|blocks| - 1];
    if |blocks| == 1 {
      assert IsBlock(blocks, CeilLog2(|last|));
      ReachesBlockRoot(hs, blocks, CeilLog2(|last|));
    } else if CeilLog2(|last|) == k {
      ReachesBlockRoot(hs, blocks, k);
    } else {
      ReachesOrCollides(hs, blocks, k);
    }
  }

  /** A hash that is injective and runs in no cycle excludes every coincidence. */
  lemma {:induction false} ReachesBlockRootInjective<T(!new)>(hs: Hasher<T>, blocks: seq<seq<T>>, k: nat)
    requires Injective(hs) && NoLiftCycle(hs) && IsBlock(blocks, k)
    ensures NoneEmpty(blocks) && |Concat(blocks)| > 0
    ensures Reaches(hs, blocks) <==> |blocks| == 1 || CeilLog2(|blocks[|blocks| - 1]|) == k
  {
    BlockHeights(blocks, k);
    LevelOfBlocks(hs, blocks, k);
    assert |Concat(blocks)| > 0 by {
      assert (|blocks| - 1) * Pow2(k) >= 0;
    }
    ReachesBlockRootIff(hs, blocks, k);
  }
}
