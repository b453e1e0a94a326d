/** Subtree roots in a block: GetMerkleProofForCoinbase on subtree objects, and the
    theorems about padding and replacement in terms of subtree states.
 */
module BlockProof {
  import opened Hashing
  import opened PowersOfTwo
  import opened Canonical
  import opened MerkleStore
  import opened MerkleProof
  import opened CoinbaseProof
  import opened Results
  import opened Bytes
  import opened SubtreeState
  import opened Subtrees

  /** A subtree without nodes may still hold a root, read with it from a stream. */
  predicate HasRoot(s: State) {
    s.root.Some? || |s.nodes| > 0
  }

  /** The root a subtree in state `s` answers. */
  function RootOf(hs: Hasher<Hash>, s: State): Hash
    requires HasRoot(s)
  {
    if s.root.Some? then s.root.value else StoreRoot(hs, Hashes(s.nodes))
  }

  /** A non-empty subtree whose cache is right, over leaves that are no sentinels. */
  ghost predicate Healthy(hs: Hasher<Hash>, s: State) {
    |s.nodes| > 0 && RootCoherent(hs, s) && Proper(hs, Hashes(s.nodes))
  }

  lemma {:induction false} RootOfHealthy(hs: Hasher<Hash>, s: State)
    requires Healthy(hs, s)
    ensures RootOf(hs, s) == Canonical.Root(hs, Hashes(s.nodes)) != hs.zero
  {
    StoreRootIsRoot(hs, Hashes(s.nodes));
    RootNonZero(hs, Hashes(s.nodes));
  }

  function LeafLists(states: seq<State>): (b: seq<seq<Hash>>)
    ensures |b| == |states|
    ensures forall i :: 0 <= i < |b| ==> b[i] == Hashes(states[i].nodes)
  {
    if states == [] then [] else [Hashes(states[0].nodes)] + LeafLists(states[1..])
  }

  // ----- padding -----

  /** What RootHashPadded(k) answers for a subtree in state `s`. */
  function Padded(hs: Hasher<Hash>, s: State, k: nat): Hash
    requires |s.nodes| > 0 && CeilLog2(|s.nodes|) <= k
  {
    Lift(hs, RootOf(hs, s), k - CeilLog2(|s.nodes|))
  }

  lemma {:induction false} LiftNonZero(hs: Hasher<Hash>, x: Hash, d: nat)
    requires NeverZero(hs) && x != hs.zero
    ensures Lift(hs, x, d) != hs.zero
    decreases d
  {
    if d > 0 {
      LiftNonZero(hs, hs.pair(x, x), d - 1);
    }
  }

  lemma {:induction false} PaddedOfHealthy(hs: Hasher<Hash>, s: State, k: nat)
    requires Healthy(hs, s) && CeilLog2(|s.nodes|) <= k
    ensures Padded(hs, s, k) == PaddedRoot(hs, Hashes(s.nodes), k) != hs.zero
  {
    var root := RootOf(hs, s);
    assert root == Canonical.Root(hs, Hashes(s.nodes)) != hs.zero by {
      RootOfHealthy(hs, s);
    }
    LiftNonZero(hs, root, k - CeilLog2(|s.nodes|));
  }

  /** `root` is the padded root of a subtree that is not higher than `k`. */
  ghost predicate PaddedTo(hs: Hasher<Hash>, s: State, k: nat, root: Hash) {
    Healthy(hs, s) && CeilLog2(|s.nodes|) <= k && root == Padded(hs, s, k)
  }

  /** Composition, as the code computes it: the store over the padded roots of the
      subtrees of a block ends in the root of the store over all leaves. */
  lemma {:induction false} PaddedRootsCompose(
      hs: Hasher<Hash>, states: seq<State>, k: nat, roots: seq<Hash>, leaves: seq<Hash>)
    requires |states| == |roots| >= 2 && IsBlock(LeafLists(states), k)
    requires forall i :: 0 <= i < |states| ==> PaddedTo(hs, states[i], k, roots[i])
    requires leaves == Concat(LeafLists(states))
    ensures |leaves| > 0 && StoreRoot(hs, roots) == StoreRoot(hs, leaves)
  {
    var blocks: seq<seq<Hash>> := LeafLists(states);
    BlockHeights(blocks, k);
    PaddedToRoots(hs, states, k, roots, blocks);
    Composition(hs, blocks, k, roots, leaves);
    ConcatNonZero(hs, blocks);
    StoreRootIsRoot(hs, roots);
    StoreRootIsRoot(hs, leaves);
  }

  lemma {:induction false} PaddedToRoots(
      hs: Hasher<Hash>, states: seq<State>, k: nat, roots: seq<Hash>, blocks: seq<seq<Hash>>)
    requires |states| == |roots| > 0 && blocks == LeafLists(states) && NoneAbove(blocks, k)
    requires forall i :: 0 <= i < |states| ==> PaddedTo(hs, states[i], k, roots[i])
    ensures roots == PaddedRoots(hs, blocks, k) && Proper(hs, roots)
    ensures forall i :: 0 <= i < |blocks| ==> NonZero(hs, blocks[i])
  {
    forall i | 0 <= i < |states|
      ensures roots[i] == PaddedRoots(hs, blocks, k)[i] && roots[i] != hs.zero && Proper(hs, blocks[i])
    {
      assert PaddedTo(hs, states[i], k, roots[i]);
      PaddedOfHealthy(hs, states[i], k);
    }
    assert Proper(hs, blocks[0]);
  }

  lemma {:induction false} ConcatNonZero(hs: Hasher<Hash>, blocks: seq<seq<Hash>>)
    requires forall i :: 0 <= i < |blocks| ==> NonZero(hs, blocks[i])
    ensures NonZero(hs, Concat(blocks))
  {
    if blocks != [] {
      ConcatNonZero(hs, blocks[1..]);
      assert NonZero(hs, blocks[0]);
    }
  }

  // ----- the coinbase proof on objects -----

  /** When GetMerkleProofForCoinbase succeeds: the first subtree has nodes, every
      subtree answers a root, and no root is the coinbase placeholder. */
  ghost predicate Provable(hs: Hasher<Hash>, states: seq<State>) {
    && |states| > 0 && |states[0].nodes| > 0
    && forall i :: 0 <= i < |states| ==> GoodRoot(hs, states[i])
  }

  ghost function Views(subtrees: seq<Subtree>): (v: seq<State>)
    requires forall i :: 0 <= i < |subtrees| ==> subtrees[i].Valid()
    reads subtrees, set i | 0 <= i < |subtrees| :: subtrees[i].nodes
    ensures |v| == |subtrees|
    ensures forall i :: 0 <= i < |v| ==> v[i] == subtrees[i].View()
  {
    seq(|subtrees|, i
      requires 0 <= i < |subtrees| && subtrees[i].Valid()
      reads subtrees, set j | 0 <= j < |subtrees| :: subtrees[j].nodes
      => subtrees[i].View())
  }

  /** What the subtrees answer, stored roots included. */
  function RootsOf(hs: Hasher<Hash>, states: seq<State>): (r: seq<Hash>)
    requires forall i :: 0 <= i < |states| ==> HasRoot(states[i])
    ensures |r| == |states|
    ensures forall i :: 0 <= i < |r| ==> r[i] == RootOf(hs, states[i])
  {
    if states == [] then [] else [RootOf(hs, states[0])] + RootsOf(hs, states[1..])
  }

  /** A proof inside the first subtree, and one of the first root among all roots. */
  function CoinbaseProofOf(hs: Hasher<Hash>, states: seq<State>): seq<Hash>
    requires Provable(hs, states)
  {
    Siblings(hs, Hashes(states[0].nodes), 0) + Siblings(hs, RootsOf(hs, states), 0)
  }

  /** No sentinel among the hashes the two stores are built over. */
  ghost predicate NoSentinels(hs: Hasher<Hash>, states: seq<State>)
    requires Provable(hs, states)
  {
    Proper(hs, Hashes(states[0].nodes)) && NonZero(hs, RootsOf(hs, states))
  }

  /** The roots of the first `n` subtrees. */
  ghost predicate RootsSoFar(hs: Hasher<Hash>, states: seq<State>, n: nat, roots: seq<Hash>) {
    && |roots| == n <= |states|
    && forall i :: 0 <= i < n ==>
         GoodRoot(hs, states[i]) && roots[i] == RootOf(hs, states[i])
  }

  /** Every root cache holds what it held, or the root it has answered. */
  ghost predicate OnlyCached(hs: Hasher<Hash>, subtrees: seq<Subtree>, states: seq<State>)
    requires |states| == |subtrees|
    reads subtrees
  {
    forall i :: 0 <= i < |subtrees| ==>
      subtrees[i].rootHash == states[i].root || subtrees[i].rootHash == Cached(hs, states[i]).root
  }

  ghost predicate GoodRoot(hs: Hasher<Hash>, s: State) {
    HasRoot(s) && RootOf(hs, s) != COINBASE_PLACEHOLDER
  }

  /** The root of one subtree goes into the top tree, unless there is none or it is
      the placeholder. */
  method AddRoot(hs: Hasher<Hash>, subtree: Subtree, topTree: Subtree, ghost state: State)
    returns (r: Option<Error>)
    requires subtree.Valid() && topTree.Valid() && topTree != subtree && topTree.nodes != subtree.nodes
    requires subtree.View() == state || subtree.View() == Cached(hs, state)
    requires topTree.length < topTree.treeSize <= topTree.nodes.Length
    modifies subtree`rootHash, topTree, topTree.nodes
    ensures subtree.rootHash == Cached(hs, state).root
    ensures topTree.Valid() && topTree.nodes == old(topTree.nodes) && topTree.treeSize == old(topTree.treeSize)
    ensures r.None? <==> GoodRoot(hs, state)
    ensures r.None? ==> Hashes(topTree.Nodes()) == old(Hashes(topTree.Nodes())) + [RootOf(hs, state)]
    ensures r != Some(NoSubtreesAvailable)
  {
    var root := subtree.RootHash(hs);
    if root.None? {
      return Some(Panic);
    }
    assert root.value == RootOf(hs, state);
    var reply := topTree.AddNode(root.value, subtree.fees, subtree.sizeInBytes);
    if reply.Failed? {
      return Some(reply.error);
    }
    return None;
  }

  lemma {:induction false} RootsGrow(hs: Hasher<Hash>, states: seq<State>, n: nat, roots: seq<Hash>)
    requires n < |states| && RootsSoFar(hs, states, n, roots) && GoodRoot(hs, states[n])
    ensures RootsSoFar(hs, states, n + 1, roots + [RootOf(hs, states[n])])
  {
  }

  /** A top tree over all subtree roots, or the error that stops the loop. */
  method BuildTopTree(hs: Hasher<Hash>, subtrees: seq<Subtree>, ghost states: seq<State>)
    returns (r: Result<Subtree>)
    requires |subtrees| > 0 && (forall i :: 0 <= i < |subtrees| ==> subtrees[i].Valid())
    requires states == Views(subtrees)
    modifies subtrees`rootHash
    ensures OnlyCached(hs, subtrees, states)
    ensures r.Ok? <==> forall i :: 0 <= i < |states| ==> GoodRoot(hs, states[i])
    ensures r != Err(NoSubtreesAvailable)
    ensures r.Ok? ==> r.value.Valid() && RootsSoFar(hs, states, |states|, Hashes(r.value.Nodes()))
  {
    var size := CeilPowerOfTwo(|subtrees|);
    assert size == Pow2(CeilLog2(|subtrees|));
    var created := Subtree.NewTreeByLeafCount(size);
    var topTree := created.value;
    r := AddRoots(hs, subtrees, topTree, states);
  }

  /** The loop over the subtrees. */
  method AddRoots(hs: Hasher<Hash>, subtrees: seq<Subtree>, topTree: Subtree, ghost states: seq<State>)
    returns (r: Result<Subtree>)
    requires forall i :: 0 <= i < |subtrees| ==>
      subtrees[i].Valid() && subtrees[i] != topTree && subtrees[i].nodes != topTree.nodes
    requires states == Views(subtrees)
    requires topTree.Valid() && topTree.length == 0 && |subtrees| <= topTree.treeSize <= topTree.nodes.Length
    modifies subtrees`rootHash, topTree, topTree.nodes
    ensures OnlyCached(hs, subtrees, states)
    ensures r.Ok? <==> forall i :: 0 <= i < |states| ==> GoodRoot(hs, states[i])
    ensures r != Err(NoSubtreesAvailable)
    ensures r.Ok? ==>
      r.value == topTree && topTree.Valid() && RootsSoFar(hs, states, |states|, Hashes(topTree.Nodes()))
  {
    for i := 0 to |subtrees|
      invariant topTree.Valid() && topTree.nodes == old(topTree.nodes) && topTree.treeSize == old(topTree.treeSize)
      invariant RootsSoFar(hs, states, i, Hashes(topTree.Nodes()))
      invariant OnlyCached(hs, subtrees, states)
    {
      ghost var roots := Hashes(topTree.Nodes());
      var error := AddRoot(hs, subtrees[i], topTree, states[i]);
      if error.Some? {
        return Err(error.value);
      }
      RootsGrow(hs, states, i, roots);
    }
    return Ok(topTree);
  }

  /** Succeeds exactly when `Provable`, with one entry per level of the two trees. What it
      returns is right whatever roots the subtrees hold. */
  method GetMerkleProofForCoinbase(hs: Hasher<Hash>, subtrees: seq<Subtree>) returns (r: Result<seq<Hash>>)
    requires forall i :: 0 <= i < |subtrees| ==> subtrees[i].Valid()
    modifies subtrees`rootHash
    ensures subtrees == [] <==> r == Err(NoSubtreesAvailable)
    ensures r.Ok? <==> Provable(hs, old(Views(subtrees)))
    ensures OnlyCached(hs, subtrees, old(Views(subtrees)))
    ensures r.Ok? ==> |r.value| == CeilLog2(|old(Views(subtrees))[0].nodes|) + CeilLog2(|subtrees|)
    ensures r.Ok? && NoSentinels(hs, old(Views(subtrees))) ==>
      r.value == CoinbaseProofOf(hs, old(Views(subtrees)))
  {
    ghost var states := Views(subtrees);
    if |subtrees| == 0 {
      return Err(NoSubtreesAvailable);
    }
    var merkleProof := subtrees[0].GetMerkleProof(hs, 0);
    if merkleProof.Err? {
      return merkleProof;
    }
    var topTree := BuildTopTree(hs, subtrees, states);
    if topTree.Err? {
      return Err(topTree.error);
    }
    var topMerkleProof := topTree.value.GetMerkleProof(hs, 0);
    assert Hashes(topTree.value.Nodes()) == RootsOf(hs, states);
    return Ok(merkleProof.value + topMerkleProof.value);
  }

  /** The coinbase proof survives placeholder replacement, for all subtrees on which the
      call succeeds: with any non-zero coinbase hash it folds to the root of the top tree
      whose first leaf is RootHashWithReplaceRootNode and whose other leaves are the roots
      the other subtrees answer. */
  lemma {:induction false} ProofSurvivesReplacement(
      hs: Hasher<Hash>, states: seq<State>, coinbase: Node, replaced: seq<Hash>, top: seq<Hash>)
    requires Provable(hs, states) && NoSentinels(hs, states) && coinbase.hash != hs.zero
    requires replaced == Hashes(Replaced(states[0], coinbase).nodes) && |replaced| > 0
    requires top == RootsOf(hs, states)[0 := StoreRoot(hs, replaced)]
    ensures Fold(hs, coinbase.hash, CoinbaseProofOf(hs, states), 0) == StoreRoot(hs, top)
  {
    var leaves, roots := Hashes(states[0].nodes), RootsOf(hs, states);
    assert replaced == leaves[0 := coinbase.hash];
    FirstReplaced(hs, leaves, coinbase.hash);
    FirstReplaced(hs, roots, StoreRoot(hs, replaced));
    FoldAppend(hs, coinbase.hash, Siblings(hs, leaves, 0), Siblings(hs, roots, 0));
  }

  /** The first leaf replaced by one that is no sentinel: the proof of the old one folds
      the new one to the root of the store over the new leaves. */
  lemma {:induction false} FirstReplaced(hs: Hasher<Hash>, leaves: seq<Hash>, x: Hash)
    requires Proper(hs, leaves) && |leaves| > 0 && x != hs.zero
    ensures Fold(hs, x, Siblings(hs, leaves, 0), 0) == StoreRoot(hs, leaves[0 := x]) != hs.zero
  {
    var leaves' := leaves[0 := x];
    SiblingsOfFirst(hs, leaves, x);
    SiblingsFoldToRoot(hs, leaves', 0);
    StoreRootIsRoot(hs, leaves');
    RootNonZero(hs, leaves');
  }

  // ----- when every subtree answers the root of its leaves -----

  ghost predicate AllHealthy(hs: Hasher<Hash>, states: seq<State>) {
    |states| > 0 && forall i :: 0 <= i < |states| ==> Healthy(hs, states[i])
  }

  lemma {:induction false} HealthyRoots(hs: Hasher<Hash>, states: seq<State>, blocks: seq<seq<Hash>>)
    requires AllHealthy(hs, states) && blocks == LeafLists(states)
    ensures NoneEmpty(blocks)
    ensures RootsOf(hs, states) == Roots(hs, blocks) && Proper(hs, RootsOf(hs, states))
  {
    forall i | 0 <= i < |states|
      ensures |blocks[i]| > 0
      ensures RootOf(hs, states[i]) == Canonical.Root(hs, blocks[i]) != hs.zero
    {
      RootOfHealthy(hs, states[i]);
    }
    assert NeverZero(hs) by { assert Healthy(hs, states[0]); }
  }

  /** Then the call succeeds unless a root is the placeholder, and answers the canonical
      proof of the block. */
  lemma {:induction false} HealthyProof(hs: Hasher<Hash>, states: seq<State>, blocks: seq<seq<Hash>>)
    requires AllHealthy(hs, states) && blocks == LeafLists(states) && NoneEmpty(blocks)
    ensures Provable(hs, states) <==> COINBASE_PLACEHOLDER !in Roots(hs, blocks)
    ensures Provable(hs, states) ==>
      NoSentinels(hs, states) && CoinbaseProofOf(hs, states) == CoinbaseSiblings(hs, blocks)
  {
    HealthyRoots(hs, states, blocks);
    assert Healthy(hs, states[0]);
    assert blocks[0] == Hashes(states[0].nodes);
    forall i | 0 <= i < |states| ensures GoodRoot(hs, states[i]) <==> Roots(hs, blocks)[i] != COINBASE_PLACEHOLDER {
      assert RootsOf(hs, states)[i] == RootOf(hs, states[i]);
    }
  }

  /** Block root, as the code computes it: when the last subtree has the height of the
      others, the returned list folds the coinbase to the root of the store over all
      leaves of the block, with the coinbase as the first of them. */
  lemma {:induction false} CoinbaseReachesStoreRoot(
      hs: Hasher<Hash>, states: seq<State>, k: nat, coinbase: Hash, blocks: seq<seq<Hash>>, leaves: seq<Hash>)
    requires Provable(hs, states) && AllHealthy(hs, states) && coinbase != hs.zero
    requires blocks == LeafLists(states) && IsBlock(blocks, k) && CeilLog2(|blocks[|blocks| - 1]|) == k
    requires |Concat(blocks)| > 0 && leaves == Concat(blocks)[0 := coinbase]
    ensures Fold(hs, coinbase, CoinbaseProofOf(hs, states), 0) == StoreRoot(hs, leaves)
  {
    HealthyRoots(hs, states, blocks);
    HealthyProof(hs, states, blocks);
    CoinbaseReachesBlockRoot(hs, blocks, k, coinbase, leaves);
    LeavesNonZero(hs, states, blocks);
    StoreRootIsRoot(hs, leaves);
  }

  lemma {:induction false} LeavesNonZero(hs: Hasher<Hash>, states: seq<State>, blocks: seq<seq<Hash>>)
    requires AllHealthy(hs, states) && blocks == LeafLists(states)
    ensures Proper(hs, Concat(blocks))
  {
    forall i | 0 <= i < |blocks| ensures Proper(hs, blocks[i]) {
      assert blocks[i] == Hashes(states[i].nodes) && Healthy(hs, states[i]);
    }
    assert Proper(hs, blocks[0]);
    ConcatNonZero(hs, blocks);
  }

  // ----- the hypotheses at hashes of 32 bytes -----

  lemma {:induction false} ConstantRoot(leaves: seq<Hash>)
    requires |leaves| > 1
    ensures Canonical.Root(CONSTANT_HASHER, leaves) == CONSTANT_HASH
    decreases |leaves|
  {
    if |leaves| > 2 {
      ConstantRoot(Up(CONSTANT_HASHER, leaves));
    }
  }

  /** Any subtrees without cached roots, over leaves that are neither zero nor, alone in
      their subtree, the placeholder, meet the hypotheses of the coinbase theorems. */
  lemma {:induction false} CoinbaseHypothesesAreSatisfiable(states: seq<State>)
    requires |states| > 0
    requires forall i :: 0 <= i < |states| ==>
      && states[i].root.None? && |states[i].nodes| > 0 && ZERO_HASH !in Hashes(states[i].nodes)
      && (|states[i].nodes| == 1 ==> states[i].nodes[0].hash != COINBASE_PLACEHOLDER)
    ensures AllHealthy(CONSTANT_HASHER, states) && Provable(CONSTANT_HASHER, states)
    ensures NoSentinels(CONSTANT_HASHER, states)
  {
    forall i | 0 <= i < |states|
      ensures Healthy(CONSTANT_HASHER, states[i]) && GoodRoot(CONSTANT_HASHER, states[i])
    {
      var leaves := Hashes(states[i].nodes);
      ProperIsSatisfiable(leaves);
      RootOfHealthy(CONSTANT_HASHER, states[i]);
      if |leaves| > 1 {
        ConstantRoot(leaves);
        assert CONSTANT_HASH[0] != COINBASE_PLACEHOLDER[0];
      }
    }
    HealthyProof(CONSTANT_HASHER, states, LeafLists(states));
  }
}
