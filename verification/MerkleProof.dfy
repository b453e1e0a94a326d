/** Merkle proofs: the walk over the flat store, what it proves and for whom. */
module MerkleProof {
  import opened Sequences
  import opened Hashing
  import opened PowersOfTwo
  import opened Canonical
  import opened MerkleStore
  import opened MerkleFill
  import opened Results

  // ----- the canonical proof -----

  function Sibling<T>(s: seq<T>, i: nat): T
    requires i < |s|
  {
    if i % 2 == 0 then Right(s, i) else s[i - 1]
  }

  /** The siblings on the way from hash `i` of `s` to the root. */
  function Siblings<T>(hs: Hasher<T>, s: seq<T>, i: nat): seq<T>
    requires i < |s|
    decreases |s|
  {
    if |s| == 1 then [] else [Sibling(s, i)] + Siblings(hs, Up(hs, s), i / 2)
  }

  /** The parent of `x` at position `i` and its sibling `y`. */
  function Parent<T>(hs: Hasher<T>, x: T, y: T, i: nat): T {
    if i % 2 == 0 then hs.pair(x, y) else hs.pair(y, x)
  }

  /** What a verifier computes from a leaf, its index and a proof. */
  function Fold<T>(hs: Hasher<T>, x: T, proof: seq<T>, i: nat): T
    decreases |proof|
  {
    if proof == [] then x else Fold(hs, Parent(hs, x, proof[0], i), proof[1..], i / 2)
  }

  lemma {:induction false} ParentOfSibling<T>(hs: Hasher<T>, s: seq<T>, i: nat)
    requires i < |s|
    ensures i / 2 < |Up(hs, s)| && Up(hs, s)[i / 2] == Parent(hs, s[i], Sibling(s, i), i)
  {
    UpAt(hs, s, i / 2);
  }

  /** Completeness: the canonical proof has one entry per level and folds the leaf
      to the root. */
  lemma {:induction false} SiblingsFoldToRoot<T>(hs: Hasher<T>, s: seq<T>, i: nat)
    requires i < |s|
    ensures |Siblings(hs, s, i)| == CeilLog2(|s|)
    ensures Fold(hs, s[i], Siblings(hs, s, i), i) == Root(hs, s)
    decreases |s|
  {
    if |s| > 1 {
      ParentOfSibling(hs, s, i);
      SiblingsFoldToRoot(hs, Up(hs, s), i / 2);
      assert Siblings(hs, s, i)[1..] == Siblings(hs, Up(hs, s), i / 2);
    }
  }

  /** Folding the stored leaf with the canonical proof gives what RootHash answers. */
  lemma {:induction false} ProofReachesRootHash<T(!new)>(hs: Hasher<T>, nodes: seq<T>, index: nat)
    requires Proper(hs, nodes) && index < |nodes|
    ensures Fold(hs, nodes[index], Siblings(hs, nodes, index), index) == StoreRoot(hs, nodes)
  {
    SiblingsFoldToRoot(hs, nodes, index);
    StoreRootIsRoot(hs, nodes);
  }

  // ----- soundness: a second proof is a collision -----

  /** The first pair of different parents' children with one hash, on the two paths. */
  function FindCollision<T(==)>(hs: Hasher<T>, x: T, p: seq<T>, y: T, q: seq<T>, i: nat): Option<(T, T, T, T)>
    requires |p| == |q|
    decreases |p|
  {
    if p == [] then None
    else
      var (a, b) := if i % 2 == 0 then (x, p[0]) else (p[0], x);
      var (c, d) := if i % 2 == 0 then (y, q[0]) else (q[0], y);
      if (a, b) != (c, d) && hs.pair(a, b) == hs.pair(c, d) then Some((a, b, c, d))
      else FindCollision(hs, hs.pair(a, b), p[1..], hs.pair(c, d), q[1..], i / 2)
  }

  /** Two proofs of one length that fold to one hash at one index are the same proof
      of the same leaf, or `FindCollision` finds a collision of the hash in them. */
  lemma {:induction false} TwoProofsCollide<T>(hs: Hasher<T>, x: T, p: seq<T>, y: T, q: seq<T>, i: nat)
    requires |p| == |q| && Fold(hs, x, p, i) == Fold(hs, y, q, i)
    ensures match FindCollision(hs, x, p, y, q, i)
            case None => x == y && p == q
            case Some((a, b, c, d)) => IsCollision(hs, a, b, c, d)
    decreases |p|
  {
    if p != [] {
      if FindCollision(hs, x, p, y, q, i).None? || Parent(hs, x, p[0], i) != Parent(hs, y, q[0], i)
        || (x == y && p[0] == q[0])
      {
        TwoProofsCollide(hs, Parent(hs, x, p[0], i), p[1..], Parent(hs, y, q[0], i), q[1..], i / 2);
        assert p == [p[0]] + p[1..] && q == [q[0]] + q[1..];
      }
    }
  }

  /** Uniqueness: whoever folds another leaf, or other siblings, to the root has
      found a collision, and `FindCollision` extracts it. */
  lemma {:induction false} ProofIsUnique<T>(hs: Hasher<T>, s: seq<T>, i: nat, leaf: T, proof: seq<T>)
    requires i < |s| && |proof| == CeilLog2(|s|) && Fold(hs, leaf, proof, i) == Root(hs, s)
    ensures |proof| == |Siblings(hs, s, i)|
    ensures match FindCollision(hs, leaf, proof, s[i], Siblings(hs, s, i), i)
            case None => leaf == s[i] && proof == Siblings(hs, s, i)
            case Some((a, b, c, d)) => IsCollision(hs, a, b, c, d)
  {
    SiblingsFoldToRoot(hs, s, i);
    TwoProofsCollide(hs, leaf, proof, s[i], Siblings(hs, s, i), i);
  }

  /** Where no two pairs share a hash, there is no other leaf and no other proof. */
  lemma {:induction false} OnlyProof<T(!new)>(hs: Hasher<T>, s: seq<T>, i: nat, leaf: T, proof: seq<T>)
    requires Injective(hs) && i < |s| && |proof| == CeilLog2(|s|) && Fold(hs, leaf, proof, i) == Root(hs, s)
    ensures leaf == s[i] && proof == Siblings(hs, s, i)
  {
    ProofIsUnique(hs, s, i, leaf, proof);
  }

  // ----- subtree.go -----

  function GetLeafSiblingHash<T>(nodes: seq<T>, index: nat): T
    requires index < |nodes|
  {
    if index % 2 == 0 then
      if index + 1 >= |nodes| then nodes[index] else nodes[index + 1]
    else nodes[index - 1]
  }

  /** The guard on `totalLength` is too weak to keep the access inside the store; the
      requires states what the caller's walk guarantees. */
  function CalculateTreePosition<T(==)>(hs: Hasher<T>, merkleTree: seq<T>, treeIndexPos: nat, treeIndex: nat,
                                        totalLength: nat): (pos: nat)
    requires treeIndexPos + treeIndex < |merkleTree|
    requires (treeIndexPos + treeIndex) % 2 == 0 ==> treeIndexPos + treeIndex + 1 < |merkleTree|
    ensures pos < |merkleTree|
  {
    var treePos := treeIndexPos + treeIndex;
    if treePos % 2 == 0 then
      if totalLength > treePos + 1 && merkleTree[treePos + 1] != hs.zero then treePos + 1 else treePos
    else
      if merkleTree[treePos - 1] != hs.zero then treePos - 1 else treePos
  }

  /** The walk stays inside its segment, hence inside the store. */
  lemma {:induction false} WalkInBounds(height: nat, i: nat, treeIndex: nat)
    requires 1 <= i < height && treeIndex < Pow2(i)
    ensures Pow2(i + 1) <= Pow2(height)
    ensures (Pow2(height) - Pow2(i + 1)) % 2 == 0
    ensures Pow2(height) - Pow2(i + 1) + treeIndex < Pow2(height) - 1
    ensures treeIndex % 2 == 0 ==> Pow2(height) - Pow2(i + 1) + treeIndex + 1 < Pow2(height) - 1
  {
    Pow2Monotone(i + 1, height);
    EvenBelowPow2(treeIndex, i);
    EvenDifference(Pow2(height - 1), Pow2(i));
  }

  lemma {:induction false} EvenDifference(a: nat, b: nat)
    ensures (2 * a - 2 * b) % 2 == 0
  {
    assert 2 * a - 2 * b == 2 * (a - b);
  }

  /** `level` and then only sentinels, from cell `start` on. */
  ghost predicate SegmentHolds<T>(hs: Hasher<T>, tree: seq<T>, start: nat, width: nat, level: seq<T>) {
    && start + width <= |tree|
    && forall c: nat {:trigger GetNodeHashAt(hs, level, c)} ::
         c < width ==> tree[start + c] == GetNodeHashAt(hs, level, c)
  }

  lemma {:induction false} StoreHolds<T(!new)>(
      hs: Hasher<T>, nodes: seq<T>, j: nat, tree: seq<T>, start: nat, level: seq<T>)
    requires Proper(hs, nodes) && |nodes| > 1
    requires 1 <= j <= CeilLog2(|nodes|) && tree == Store(hs, nodes) && level == Level(hs, nodes, j)
    requires start == SegmentStart(CeilLog2(|nodes|), j)
    ensures SegmentHolds(hs, tree, start, Pow2(CeilLog2(|nodes|) - j), level) && NonZero(hs, level)
  {
    var width := Pow2(CeilLog2(|nodes|) - j);
    LevelNonZero(hs, nodes, j);
    forall c: nat | c < width ensures start + c < |tree| && tree[start + c] == GetNodeHashAt(hs, level, c) {
      StoreSegment(hs, nodes, j, c);
    }
    StoreSegment(hs, nodes, j, width - 1);
  }

  /** In the segment of a level the walk reads the canonical sibling, including on
      duplicated edges. */
  lemma {:induction false} WalkReadsSibling<T(!new)>(hs: Hasher<T>, tree: seq<T>, start: nat, width: nat, level: seq<T>,
                                  treeIndex: nat, total: nat)
    requires SegmentHolds(hs, tree, start, width, level) && NonZero(hs, level)
    requires treeIndex < |level| && treeIndex < width && start % 2 == 0
    requires treeIndex % 2 == 0 ==> treeIndex + 1 < width
    requires total > |tree|
    ensures tree[CalculateTreePosition(hs, tree, start, treeIndex, total)] == Sibling(level, treeIndex)
  {
    assert tree[start + treeIndex] == GetNodeHashAt(hs, level, treeIndex);
    if treeIndex % 2 == 0 {
      assert tree[start + (treeIndex + 1)] == GetNodeHashAt(hs, level, treeIndex + 1);
    } else {
      assert tree[start + (treeIndex - 1)] == GetNodeHashAt(hs, level, treeIndex - 1);
    }
  }

  lemma {:induction false} EvenBelowPow2(t: nat, k: nat)
    requires t < Pow2(k) && k > 0
    ensures t % 2 == 0 ==> t + 1 < Pow2(k)
  {
  }

  /** The proof so far and the canonical proof of the level the walk has reached. */
  ghost predicate WalkInv<T>(hs: Hasher<T>, nodes: seq<T>, index: nat, j: nat, treeIndex: nat, proof: seq<T>)
    requires index < |nodes|
  {
    && treeIndex < |Level(hs, nodes, j)|
    && Siblings(hs, nodes, index) == proof + Siblings(hs, Level(hs, nodes, j), treeIndex)
  }

  lemma {:induction false} WalkStep<T>(hs: Hasher<T>, nodes: seq<T>, index: nat, j: nat, treeIndex: nat, proof: seq<T>,
                    level: seq<T>)
    requires index < |nodes| && j < CeilLog2(|nodes|) && level == Level(hs, nodes, j)
    requires WalkInv(hs, nodes, index, j, treeIndex, proof)
    ensures treeIndex < |level|
    ensures WalkInv(hs, nodes, index, j + 1, treeIndex / 2, proof + [Sibling(level, treeIndex)])
  {
    RootOfLevel(hs, nodes, j);
    LevelStep(hs, nodes, j);
    var rest := Siblings(hs, Up(hs, level), treeIndex / 2);
    assert Siblings(hs, level, treeIndex) == [Sibling(level, treeIndex)] + rest;
    Assoc(proof, [Sibling(level, treeIndex)], rest);
  }

  /** The state of the walk when `i` levels are left. */
  ghost predicate WalkNumbers(index: nat, height: nat, i: nat, treeIndexPos: nat, treeIndex: nat) {
    && i <= height && treeIndex < Pow2(i)
    && (i == height ==> treeIndexPos == 0 && treeIndex == index)
    && (i < height ==> treeIndexPos == Pow2(height) - Pow2(i + 1))
  }

  /** What one round of the walk reads: at the leaf level from the nodes, above from the store. */
  method ReadSibling<T(==, !new)>(hs: Hasher<T>, nodes: seq<T>, index: nat, merkleTree: seq<T>, height: nat, i: nat,
                                  treeIndexPos: nat, treeIndex: nat, ghost level: seq<T>)
    returns (x: T)
    requires index < |nodes| && height == CeilLog2(|nodes|) && i > 0
    requires merkleTree == Store(hs, nodes) && |merkleTree| == Pow2(height) - 1
    requires WalkNumbers(index, height, i, treeIndexPos, treeIndex)
    requires level == Level(hs, nodes, height - i)
    ensures Proper(hs, nodes) && treeIndex < |level| ==> x == Sibling(level, treeIndex)
  {
    if i == height {
      x := GetLeafSiblingHash(nodes, index);
    } else {
      x := ReadTree(hs, nodes, merkleTree, height, i, treeIndexPos, treeIndex, level);
    }
  }

  /** Above the leaves: the cell calculateTreePosition chooses. */
  method ReadTree<T(==, !new)>(hs: Hasher<T>, nodes: seq<T>, merkleTree: seq<T>, height: nat, i: nat,
                               treeIndexPos: nat, treeIndex: nat, ghost level: seq<T>)
    returns (x: T)
    requires |nodes| > 0 && height == CeilLog2(|nodes|) && 0 < i < height
    requires merkleTree == Store(hs, nodes) && |merkleTree| == Pow2(height) - 1
    requires treeIndex < Pow2(i) && treeIndexPos == Pow2(height) - Pow2(i + 1)
    requires level == Level(hs, nodes, height - i)
    ensures Proper(hs, nodes) && treeIndex < |level| ==> x == Sibling(level, treeIndex)
  {
    var totalLength := Pow2(height) + |merkleTree|;
    WalkInBounds(height, i, treeIndex);
    if Proper(hs, nodes) && treeIndex < |level| {
      EvenBelowPow2(treeIndex, i);
      StoreHolds(hs, nodes, height - i, merkleTree, treeIndexPos, level);
      WalkReadsSibling(hs, merkleTree, treeIndexPos, Pow2(i), level, treeIndex, totalLength);
    }
    x := merkleTree[CalculateTreePosition(hs, merkleTree, treeIndexPos, treeIndex, totalLength)];
  }

  lemma {:induction false} NextNumbers(index: nat, height: nat, i: nat, treeIndexPos: nat, treeIndex: nat)
    requires WalkNumbers(index, height, i, treeIndexPos, treeIndex) && i > 0
    ensures WalkNumbers(index, height, i - 1, if i == height then 0 else treeIndexPos + Pow2(i), treeIndex / 2)
  {
  }

  /** The walk when `i` levels are left: where it stands and what it has collected. */
  ghost predicate Walking<T(!new)>(hs: Hasher<T>, nodes: seq<T>, index: nat, height: nat, i: nat,
                                   treeIndexPos: nat, treeIndex: nat, proof: seq<T>)
    requires index < |nodes|
  {
    && WalkNumbers(index, height, i, treeIndexPos, treeIndex)
    && |proof| == height - i
    && (Proper(hs, nodes) ==> WalkInv(hs, nodes, index, height - i, treeIndex, proof))
  }

  /** One round of the walk appends one sibling and goes one level up. */
  method WalkOnce<T(==, !new)>(hs: Hasher<T>, nodes: seq<T>, index: nat, merkleTree: seq<T>, height: nat, i: nat,
                               treeIndexPos: nat, treeIndex: nat, proof: seq<T>)
    returns (treeIndexPos': nat, treeIndex': nat, proof': seq<T>)
    requires index < |nodes| && height == CeilLog2(|nodes|) && i > 0
    requires merkleTree == Store(hs, nodes) && |merkleTree| == Pow2(height) - 1
    requires Walking(hs, nodes, index, height, i, treeIndexPos, treeIndex, proof)
    ensures Walking(hs, nodes, index, height, i - 1, treeIndexPos', treeIndex', proof')
  {
    ghost var level := Level(hs, nodes, height - i);
    var x := ReadSibling(hs, nodes, index, merkleTree, height, i, treeIndexPos, treeIndex, level);
    if Proper(hs, nodes) {
      WalkStep(hs, nodes, index, height - i, treeIndex, proof, level);
    }
    NextNumbers(index, height, i, treeIndexPos, treeIndex);
    treeIndexPos' := if i == height then 0 else treeIndexPos + Pow2(i);
    treeIndex', proof' := treeIndex / 2, proof + [x];
  }

  /** Subtree.GetMerkleProof, on the hashes of the nodes. */
  method GetMerkleProof<T(==, !new)>(hs: Hasher<T>, nodes: seq<T>, index: nat) returns (r: Result<seq<T>>)
    ensures r == Err(IndexOutOfRange) <==> index >= |nodes|
    ensures index < |nodes| ==> r.Ok? && |r.value| == CeilLog2(|nodes|)
    ensures index < |nodes| && Proper(hs, nodes) ==> r == Ok(Siblings(hs, nodes, index))
  {
    if index >= |nodes| {
      return Err(IndexOutOfRange);
    }
    var store := BuildMerkleTreeStoreFromBytes(hs, nodes);
    var proof := WalkStore(hs, nodes, index, store[..]);
    return Ok(proof);
  }

  method WalkStore<T(==, !new)>(hs: Hasher<T>, nodes: seq<T>, index: nat, merkleTree: seq<T>)
    returns (proof: seq<T>)
    requires index < |nodes| && merkleTree == Store(hs, nodes)
    ensures |proof| == CeilLog2(|nodes|)
    ensures Proper(hs, nodes) ==> proof == Siblings(hs, nodes, index)
  {
    var height := CeilLog2(|nodes|);
    StoreLength(hs, nodes);
    var treeIndexPos: nat, treeIndex: nat := 0, index;
    proof := [];
    var i := height;
    while i > 0
      invariant Walking(hs, nodes, index, height, i, treeIndexPos, treeIndex, proof)
    {
      treeIndexPos, treeIndex, proof :=
        WalkOnce(hs, nodes, index, merkleTree, height, i, treeIndexPos, treeIndex, proof);
      i := i - 1;
    }
    if Proper(hs, nodes) {
      WalkEnds(hs, nodes, index, treeIndex, proof);
    }
  }

  lemma {:induction false} WalkEnds<T>(hs: Hasher<T>, nodes: seq<T>, index: nat, treeIndex: nat, proof: seq<T>)
    requires index < |nodes| && WalkInv(hs, nodes, index, CeilLog2(|nodes|), treeIndex, proof)
    ensures proof == Siblings(hs, nodes, index)
  {
    RootIsTopLevel(hs, nodes);
  }
}
