/** What the duplicate-last rule leaves open: at which indices a leaf verifies, and which
    lists of leaves have one root. A tree of height h answers for 2^h positions, and
    behind the last leaf these repeat earlier ones.
 */
module DuplicateLast {
  import opened Hashing
  import opened PowersOfTwo
  import opened Canonical
  import opened MerkleProof
  import opened Results

  /** The leaf, of `n`, that stands at position `i` when every odd level is completed. */
  function Source(n: nat, i: nat): (j: nat)
    requires n > 0
    ensures j < n
  {
    if n == 1 then 0
    else
      var c := 2 * Source((n + 1) / 2, i / 2) + i % 2;
      if c < n then c else n - 1
  }

  /** The leaves stand at their own positions. */
  lemma {:induction false} SourceOfLeaf(n: nat, i: nat)
    requires i < n
    ensures Source(n, i) == i
  {
    if n > 1 {
      SourceOfLeaf((n + 1) / 2, i / 2);
    }
  }

  /** Behind an odd list the last leaf stands once more. */
  lemma {:induction false} SourceBehindOdd(n: nat)
    requires n % 2 == 1
    ensures Source(n, n) == n - 1
  {
    if n > 1 {
      SourceOfLeaf((n + 1) / 2, n / 2);
    }
  }

  /** i modulo p */
  function Wrap(i: nat, p: nat): (r: nat)
    requires p > 0
    ensures r < p
  {
    if i < p then i else Wrap(i - p, p)
  }

  lemma {:induction false} HalfWrap(i: nat, p: nat)
    requires p > 0
    ensures Wrap(i, 2 * p) / 2 == Wrap(i / 2, p) && Wrap(i, 2 * p) % 2 == i % 2
  {
    if i >= 2 * p {
      HalfWrap(i - 2 * p, p);
    }
  }

  /** A tree of height h has 2^h positions; then they start again. */
  lemma {:induction false} SourceWraps(n: nat, i: nat)
    requires n > 0
    ensures Source(n, i) == Source(n, Wrap(i, Pow2(CeilLog2(n))))
  {
    if n > 1 {
      HalfWrap(i, Pow2(CeilLog2(n) - 1));
      SourceWraps((n + 1) / 2, i / 2);
    }
  }

  /** The position beside `i`. */
  function Twin(i: nat): nat {
    if i % 2 == 0 then i + 1 else i - 1
  }

  function At<T>(s: seq<T>, i: nat): T
    requires |s| > 0
  {
    s[Source(|s|, i)]
  }

  /** The proof for any position. */
  function ProofAt<T>(hs: Hasher<T>, s: seq<T>, i: nat): seq<T>
    requires |s| > 0
    decreases |s|
  {
    if |s| == 1 then [] else [At(s, Twin(i))] + ProofAt(hs, Up(hs, s), i / 2)
  }

  /** The two positions below a position hold its two children. */
  lemma {:induction false} ParentAt<T>(hs: Hasher<T>, s: seq<T>, i: nat)
    requires |s| > 1
    ensures At(Up(hs, s), i / 2) == Parent(hs, At(s, i), At(s, Twin(i)), i)
  {
    var q := Source((|s| + 1) / 2, i / 2);
    assert Twin(i) / 2 == i / 2;
    UpAt(hs, s, q);
  }

  lemma {:induction false} PairAt<T>(hs: Hasher<T>, s: seq<T>, i: nat)
    requires |s| > 1
    ensures At(Up(hs, s), i) == hs.pair(At(s, 2 * i), At(s, 2 * i + 1))
  {
    ParentAt(hs, s, 2 * i);
    assert Twin(2 * i) == 2 * i + 1;
  }

  /** Every position verifies. */
  lemma {:induction false} FoldAt<T>(hs: Hasher<T>, s: seq<T>, i: nat)
    requires |s| > 0
    ensures |ProofAt(hs, s, i)| == CeilLog2(|s|)
    ensures Fold(hs, At(s, i), ProofAt(hs, s, i), i) == Root(hs, s)
    decreases |s|
  {
    if |s| > 1 {
      ParentAt(hs, s, i);
      FoldAt(hs, Up(hs, s), i / 2);
      assert ProofAt(hs, s, i)[1..] == ProofAt(hs, Up(hs, s), i / 2);
    }
  }

  lemma {:induction false} TwinIsSibling<T>(s: seq<T>, i: nat)
    requires i < |s|
    ensures At(s, Twin(i)) == Sibling(s, i)
  {
    if Twin(i) < |s| {
      SourceOfLeaf(|s|, Twin(i));
    } else {
      SourceBehindOdd(|s|);
    }
  }

  /** For a leaf it is the canonical proof. */
  lemma {:induction false} ProofAtLeaf<T>(hs: Hasher<T>, s: seq<T>, i: nat)
    requires i < |s|
    ensures At(s, i) == s[i] && ProofAt(hs, s, i) == Siblings(hs, s, i)
    decreases |s|
  {
    SourceOfLeaf(|s|, i);
    if |s| > 1 {
      ProofAtLeaf(hs, Up(hs, s), i / 2);
      TwinIsSibling(s, i);
    }
  }

  /** At which indices a leaf can be proved, for every index there is: a leaf and a proof
      fold to the root only if they are those of the position, or `FindCollision`
      finds a collision in them. */
  lemma {:induction false} VerifiesOnlyAt<T>(hs: Hasher<T>, s: seq<T>, i: nat, leaf: T, proof: seq<T>)
    requires |s| > 0 && |proof| == CeilLog2(|s|) && Fold(hs, leaf, proof, i) == Root(hs, s)
    ensures |proof| == |ProofAt(hs, s, i)|
    ensures match FindCollision(hs, leaf, proof, At(s, i), ProofAt(hs, s, i), i)
            case None => leaf == At(s, i) && proof == ProofAt(hs, s, i)
            case Some((a, b, c, d)) => IsCollision(hs, a, b, c, d)
  {
    FoldAt(hs, s, i);
    TwoProofsCollide(hs, leaf, proof, At(s, i), ProofAt(hs, s, i), i);
  }

  /** The last of an odd number of leaves verifies with its own proof at the index
      behind it, which GetMerkleProof refuses. */
  lemma {:induction false} LastLeafTwice<T>(hs: Hasher<T>, s: seq<T>)
    requires |s| % 2 == 1
    ensures Fold(hs, s[|s| - 1], Siblings(hs, s, |s| - 1), |s|) == Root(hs, s)
  {
    var n := |s|;
    SourceBehindOdd(n);
    FoldAt(hs, s, n);
    ProofAtLeaf(hs, s, n - 1);
    if n > 1 {
      SourceOfLeaf(n, Twin(n));
      assert n / 2 == (n - 1) / 2;
      assert ProofAt(hs, s, n) == ProofAt(hs, s, n - 1);
    }
  }

  // ----- lists of leaves with one root -----

  /** The same leaf at every position. */
  ghost predicate SamePositions<T(!new)>(s: seq<T>, t: seq<T>)
    requires |s| > 0 && |t| > 0
  {
    forall i: nat :: At(s, i) == At(t, i)
  }

  /** The 2^h positions below the root decide. */
  lemma {:induction false} SamePositionsIff<T(!new)>(s: seq<T>, t: seq<T>)
    requires |s| > 0 && |t| > 0 && CeilLog2(|s|) == CeilLog2(|t|)
    ensures SamePositions(s, t) <==> forall i: nat :: i < Pow2(CeilLog2(|s|)) ==> At(s, i) == At(t, i)
  {
    var p := Pow2(CeilLog2(|s|));
    if forall i: nat :: i < p ==> At(s, i) == At(t, i) {
      forall i: nat ensures At(s, i) == At(t, i) {
        SourceWraps(|s|, i);
        SourceWraps(|t|, i);
        assert At(s, Wrap(i, p)) == At(t, Wrap(i, p));
      }
    }
  }

  lemma {:induction false} SamePositionsUp<T(!new)>(hs: Hasher<T>, s: seq<T>, t: seq<T>)
    requires |s| > 1 && |t| > 1 && SamePositions(s, t)
    ensures SamePositions(Up(hs, s), Up(hs, t))
  {
    forall i: nat ensures At(Up(hs, s), i) == At(Up(hs, t), i) {
      PairAt(hs, s, i);
      PairAt(hs, t, i);
      assert At(s, 2 * i) == At(t, 2 * i) && At(s, 2 * i + 1) == At(t, 2 * i + 1);
    }
  }

  /** Lists of one height with the same leaves at all positions have one root. */
  lemma {:induction false} SamePositionsSameRoot<T(!new)>(hs: Hasher<T>, s: seq<T>, t: seq<T>)
    requires |s| > 0 && |t| > 0 && CeilLog2(|s|) == CeilLog2(|t|) && SamePositions(s, t)
    ensures Root(hs, s) == Root(hs, t)
    decreases |s|
  {
    if |s| == 1 {
      assert At(s, 0) == At(t, 0);
    } else {
      SamePositionsUp(hs, s, t);
      SamePositionsSameRoot(hs, Up(hs, s), Up(hs, t));
    }
  }

  /** And no others: where two lists of one height under one root differ at a position,
      the proofs for it contain a collision. */
  lemma {:induction false} DifferentPositionCollides<T>(hs: Hasher<T>, s: seq<T>, t: seq<T>, i: nat)
    requires |s| > 0 && |t| > 0 && CeilLog2(|s|) == CeilLog2(|t|)
    requires Root(hs, s) == Root(hs, t) && At(s, i) != At(t, i)
    ensures |ProofAt(hs, s, i)| == |ProofAt(hs, t, i)|
    ensures match FindCollision(hs, At(s, i), ProofAt(hs, s, i), At(t, i), ProofAt(hs, t, i), i)
            case None => false
            case Some((a, b, c, d)) => IsCollision(hs, a, b, c, d)
  {
    FoldAt(hs, s, i);
    FoldAt(hs, t, i);
    TwoProofsCollide(hs, At(s, i), ProofAt(hs, s, i), At(t, i), ProofAt(hs, t, i), i);
  }

  /** An odd list of several leaves and the list with the last leaf repeated have one root. */
  lemma {:induction false} RepeatedLastLeaf<T>(hs: Hasher<T>, s: seq<T>)
    requires |s| % 2 == 1 && |s| > 1
    ensures Root(hs, s + [s[|s| - 1]]) == Root(hs, s)
  {
    var before, x := s[..|s| - 1], s[|s| - 1];
    UpAppend(hs, before, [x]);
    UpAppend(hs, before, [x, x]);
    assert before + [x] == s && before + [x, x] == s + [x];
    assert Up(hs, [x]) == Up(hs, [x, x]) by {
      assert [x, x][2..] == [];
    }
  }
}
