/** Bitcoin's Merkle tree, level by level: adjacent hashes are paired, and the
    last hash of an odd level is paired with itself. This is the meaning the flat
    store, the proofs and the padded composition must agree with.
 */
module Canonical {
  import opened Hashing
  import opened PowersOfTwo
  import opened Results

  /** The level above `s`. */
  function Up<T>(hs: Hasher<T>, s: seq<T>): (r: seq<T>)
    ensures |r| == (|s| + 1) / 2
  {
    if |s| == 0 then []
    else if |s| == 1 then [hs.pair(s[0], s[0])]
    else [hs.pair(s[0], s[1])] + Up(hs, s[2..])
  }

  /** The hash that is paired with the one at an even position. */
  function Right<T>(s: seq<T>, i: nat): T
    requires i < |s|
  {
    if i + 1 < |s| then s[i + 1] else s[i]
  }

  /** Hash i of the next level is made of hashes 2i and 2i + 1. */
  lemma {:induction false} UpAt<T>(hs: Hasher<T>, s: seq<T>, i: nat)
    requires i < (|s| + 1) / 2
    ensures Up(hs, s)[i] == hs.pair(s[2 * i], Right(s, 2 * i))
  {
    if i > 0 {
      UpAt(hs, s[2..], i - 1);
    }
  }

  /** The level `j` steps above `s`. */
  function Level<T>(hs: Hasher<T>, s: seq<T>, j: nat): seq<T>
    decreases j
  {
    if j == 0 then s else Level(hs, Up(hs, s), j - 1)
  }

  /** The root: levels are built until one hash is left. */
  function Root<T>(hs: Hasher<T>, s: seq<T>): T
    requires |s| > 0
    decreases |s|
  {
    if |s| == 1 then s[0] else Root(hs, Up(hs, s))
  }

  /** The root of `s` lifted to height `k`. */
  function PaddedRoot<T>(hs: Hasher<T>, s: seq<T>, k: nat): T
    requires |s| > 0 && CeilLog2(|s|) <= k
  {
    Lift(hs, Root(hs, s), k - CeilLog2(|s|))
  }

  lemma {:induction false} LevelStep<T>(hs: Hasher<T>, s: seq<T>, j: nat)
    ensures Level(hs, s, j + 1) == Up(hs, Level(hs, s, j))
    decreases j
  {
    if j > 0 {
      LevelStep(hs, Up(hs, s), j - 1);
    }
  }

  /** Level j has ceil(n / 2^j) hashes. */
  lemma {:induction false} LevelSize<T>(hs: Hasher<T>, s: seq<T>, j: nat)
    ensures (|Level(hs, s, j)| - 1) * Pow2(j) < |s| <= |Level(hs, s, j)| * Pow2(j)
    decreases j
  {
    if j > 0 {
      LevelSize(hs, Up(hs, s), j - 1);
      ScaleByTwo(|Level(hs, s, j)|, Pow2(j - 1));
    }
  }

  lemma {:induction false} ScaleByTwo(l: int, p: int)
    ensures (l - 1) * (2 * p) == 2 * ((l - 1) * p)
    ensures l * (2 * p) == 2 * (l * p)
  {
  }

  lemma {:induction false} UpNonZero<T(!new)>(hs: Hasher<T>, s: seq<T>)
    requires NeverZero(hs)
    ensures NonZero(hs, Up(hs, s))
  {
    forall i | 0 <= i < |Up(hs, s)| ensures Up(hs, s)[i] != hs.zero {
      UpAt(hs, s, i);
    }
  }

  lemma {:induction false} LevelNonZero<T(!new)>(hs: Hasher<T>, s: seq<T>, j: nat)
    requires Proper(hs, s)
    ensures NonZero(hs, Level(hs, s, j))
    decreases j
  {
    if j > 0 {
      UpNonZero(hs, s);
      LevelNonZero(hs, Up(hs, s), j - 1);
    }
  }

  lemma {:induction false} RootNonZero<T(!new)>(hs: Hasher<T>, s: seq<T>)
    requires Proper(hs, s) && |s| > 0
    ensures Root(hs, s) != hs.zero
    decreases |s|
  {
    if |s| > 1 {
      UpNonZero(hs, s);
      RootNonZero(hs, Up(hs, s));
    }
  }

  /** From height k on, a level is the lifted root alone. */
  lemma {:induction false} LevelIsPaddedRoot<T>(hs: Hasher<T>, s: seq<T>, k: nat)
    requires 0 < |s| <= Pow2(k)
    ensures CeilLog2(|s|) <= k
    ensures Level(hs, s, k) == [PaddedRoot(hs, s, k)]
    decreases k
  {
    if |s| == 1 {
      if k > 0 {
        assert Up(hs, s) == [hs.pair(s[0], s[0])];
        LevelIsPaddedRoot(hs, Up(hs, s), k - 1);
      } else {
        assert s == [s[0]];
      }
    } else {
      LevelIsPaddedRoot(hs, Up(hs, s), k - 1);
    }
  }

  /** The root is the single hash at height CeilLog2. */
  lemma {:induction false} RootIsTopLevel<T>(hs: Hasher<T>, s: seq<T>)
    requires |s| > 0
    ensures Level(hs, s, CeilLog2(|s|)) == [Root(hs, s)]
  {
    LevelIsPaddedRoot(hs, s, CeilLog2(|s|));
  }

  /** Building the tree from one of its levels gives the same root. */
  lemma {:induction false} RootOfLevel<T>(hs: Hasher<T>, s: seq<T>, j: nat)
    requires |s| > 0 && j <= CeilLog2(|s|)
    ensures |Level(hs, s, j)| > 0
    ensures Root(hs, Level(hs, s, j)) == Root(hs, s)
    ensures CeilLog2(|Level(hs, s, j)|) + j == CeilLog2(|s|)
    decreases j
  {
    if j > 0 {
      RootOfLevel(hs, Up(hs, s), j - 1);
    }
  }

  lemma {:induction false} UpAppend<T>(hs: Hasher<T>, a: seq<T>, b: seq<T>)
    requires |a| % 2 == 0
    ensures Up(hs, a + b) == Up(hs, a) + Up(hs, b)
  {
    if |a| == 0 {
      assert a + b == b;
    } else {
      UpAppend(hs, a[2..], b);
      assert (a + b)[2..] == a[2..] + b;
    }
  }

  /** A full block of 2^k hashes does not interact with what follows it. */
  lemma {:induction false} LevelAppend<T>(hs: Hasher<T>, a: seq<T>, b: seq<T>, k: nat)
    requires |a| == Pow2(k)
    ensures Level(hs, a + b, k) == Level(hs, a, k) + Level(hs, b, k)
    decreases k
  {
    if k > 0 {
      UpAppend(hs, a, b);
      LevelAppend(hs, Up(hs, a), Up(hs, b), k - 1);
    }
  }

  // ----- composing subtrees -----

  function Concat<T>(blocks: seq<seq<T>>): seq<T> {
    if blocks == [] then [] else blocks[0] + Concat(blocks[1..])
  }

  /** Subtrees of 2^k leaves each, the last one possibly shorter but not empty. */
  ghost predicate IsBlock<T>(blocks: seq<seq<T>>, k: nat) {
    && |blocks| > 0
    && (forall i :: 0 <= i < |blocks| - 1 ==> |blocks[i]| == Pow2(k))
    && 0 < |blocks[|blocks| - 1]| <= Pow2(k)
  }

  ghost predicate NoneEmpty<T>(blocks: seq<seq<T>>) {
    forall i :: 0 <= i < |blocks| ==> |blocks[i]| > 0
  }

  /** No subtree is higher than `k`. */
  ghost predicate NoneAbove<T>(blocks: seq<seq<T>>, k: nat) {
    forall i :: 0 <= i < |blocks| ==> |blocks[i]| > 0 && CeilLog2(|blocks[i]|) <= k
  }

  /** What RootHashPadded(k) gives for each subtree. */
  function PaddedRoots<T>(hs: Hasher<T>, blocks: seq<seq<T>>, k: nat): (r: seq<T>)
    requires NoneAbove(blocks, k)
    ensures |r| == |blocks|
    ensures forall i :: 0 <= i < |r| ==> r[i] == PaddedRoot(hs, blocks[i], k)
  {
    if blocks == [] then [] else [PaddedRoot(hs, blocks[0], k)] + PaddedRoots(hs, blocks[1..], k)
  }

  lemma {:induction false} BlockHeights<T>(blocks: seq<seq<T>>, k: nat)
    requires IsBlock(blocks, k)
    ensures NoneAbove(blocks, k)
    ensures forall i :: 0 <= i < |blocks| - 1 ==> CeilLog2(|blocks[i]|) == k
  {
    forall i | 0 <= i < |blocks|
      ensures |blocks[i]| > 0 && CeilLog2(|blocks[i]|) <= k
      ensures i < |blocks| - 1 ==> CeilLog2(|blocks[i]|) == k
    {
      var h := CeilLog2(|blocks[i]|);
      if k < h {
        Pow2Monotone(k, h - 1);
      }
      if i < |blocks| - 1 {
        if h < k {
          Pow2Monotone(h, k);
        }
      }
    }
  }

  /** Level k of the flat tree is the list of the padded subtree roots. */
  lemma {:induction false} LevelOfBlocks<T>(hs: Hasher<T>, blocks: seq<seq<T>>, k: nat)
    requires IsBlock(blocks, k)
    requires NoneAbove(blocks, k)
    ensures Level(hs, Concat(blocks), k) == PaddedRoots(hs, blocks, k)
    ensures |Concat(blocks)| == (|blocks| - 1) * Pow2(k) + |blocks[|blocks| - 1]|
  {
    LevelIsPaddedRoot(hs, blocks[0], k);
    if |blocks| == 1 {
      assert Concat(blocks) == blocks[0];
    } else {
      LevelAppend(hs, blocks[0], Concat(blocks[1..]), k);
      LevelOfBlocks(hs, blocks[1..], k);
      assert (|blocks| - 1) * Pow2(k) == (|blocks| - 2) * Pow2(k) + Pow2(k);
    }
  }

  /** All leaves of at least two subtrees are more than one subtree holds. */
  lemma {:induction false} ManyLeaves<T>(hs: Hasher<T>, blocks: seq<seq<T>>, k: nat)
    requires IsBlock(blocks, k) && |blocks| >= 2
    ensures |Concat(blocks)| > 0 && k < CeilLog2(|Concat(blocks)|)
  {
    BlockHeights(blocks, k);
    LevelOfBlocks(hs, blocks, k);
    assert (|blocks| - 1) * Pow2(k) == (|blocks| - 2) * Pow2(k) + Pow2(k);
    var h := CeilLog2(|Concat(blocks)|);
    if h <= k {
      Pow2Monotone(h, k);
    }
  }

  /** Composition: the tree over the padded roots of at least two subtrees has the
      root of the flat tree over all leaves. (BlockHeights gives NoneAbove.) */
  lemma {:induction false} Composition<T>(
      hs: Hasher<T>, blocks: seq<seq<T>>, k: nat, roots: seq<T>, leaves: seq<T>)
    requires IsBlock(blocks, k) && NoneAbove(blocks, k) && |blocks| >= 2
    requires roots == PaddedRoots(hs, blocks, k) && leaves == Concat(blocks)
    ensures |leaves| > 0 && Root(hs, roots) == Root(hs, leaves)
  {
    LevelOfBlocks(hs, blocks, k);
    ManyLeaves(hs, blocks, k);
    RootOfLevel(hs, leaves, k);
  }

  /** And it is k levels lower. */
  lemma {:induction false} CompositionHeight<T>(hs: Hasher<T>, blocks: seq<seq<T>>, k: nat)
    requires IsBlock(blocks, k) && |blocks| >= 2
    ensures |Concat(blocks)| > 0
    ensures CeilLog2(|Concat(blocks)|) == k + CeilLog2(|blocks|)
  {
    BlockHeights(blocks, k);
    LevelOfBlocks(hs, blocks, k);
    ManyLeaves(hs, blocks, k);
    RootOfLevel(hs, Concat(blocks), k);
  }

  // ----- the root determines the leaves, unless pairs collide -----

  /** Two different pairs at one position of `s` and `t` with one parent. */
  function LevelCollision<T(==)>(hs: Hasher<T>, s: seq<T>, t: seq<T>): (r: Option<(T, T, T, T)>)
    requires |s| == |t|
    ensures r.Some? ==> IsCollision(hs, r.value.0, r.value.1, r.value.2, r.value.3)
    decreases |s|
  {
    if |s| == 0 then None
    else
      var (a, b, c, d) := (s[0], Right(s, 0), t[0], Right(t, 0));
      if (a, b) != (c, d) && hs.pair(a, b) == hs.pair(c, d) then Some((a, b, c, d))
      else if |s| == 1 then None
      else LevelCollision(hs, s[2..], t[2..])
  }

  /** The collision at the lowest level below which the trees over `s` and `t` differ. */
  function TreeCollision<T(==)>(hs: Hasher<T>, s: seq<T>, t: seq<T>): (r: Option<(T, T, T, T)>)
    requires |s| == |t|
    ensures r.Some? ==> IsCollision(hs, r.value.0, r.value.1, r.value.2, r.value.3)
    decreases |s|
  {
    if |s| <= 1 then None
    else if Up(hs, s) == Up(hs, t) then LevelCollision(hs, s, t)
    else TreeCollision(hs, Up(hs, s), Up(hs, t))
  }

  lemma {:induction false} LevelsCollide<T>(hs: Hasher<T>, s: seq<T>, t: seq<T>)
    requires |s| == |t| && Up(hs, s) == Up(hs, t) && LevelCollision(hs, s, t).None?
    ensures s == t
    decreases |s|
  {
    if |s| > 0 {
      assert Up(hs, s)[0] == Up(hs, t)[0];
      if |s| > 1 {
        assert Up(hs, s)[1..] == Up(hs, s[2..]) && Up(hs, t)[1..] == Up(hs, t[2..]);
        LevelsCollide(hs, s[2..], t[2..]);
        assert s == [s[0], s[1]] + s[2..] && t == [t[0], t[1]] + t[2..];
      }
    }
  }

  /** Different leaves under one root: `TreeCollision` finds a collision of the hash. */
  lemma {:induction false} TreesCollide<T>(hs: Hasher<T>, s: seq<T>, t: seq<T>)
    requires |s| == |t| > 0 && Root(hs, s) == Root(hs, t) && s != t
    ensures TreeCollision(hs, s, t).Some?
    decreases |s|
  {
    if |s| > 1 {
      if Up(hs, s) == Up(hs, t) {
        if LevelCollision(hs, s, t).None? {
          LevelsCollide(hs, s, t);
        }
      } else {
        TreesCollide(hs, Up(hs, s), Up(hs, t));
      }
    }
  }

  /** With an injective hash the root determines the leaves. */
  lemma {:induction false} RootInjective<T(!new)>(hs: Hasher<T>, s: seq<T>, t: seq<T>)
    requires Injective(hs) && |s| == |t| > 0 && Root(hs, s) == Root(hs, t)
    ensures s == t
  {
    if s != t {
      TreesCollide(hs, s, t);
    }
  }
}
