/** The hash function of the Merkle trees, as a parameter.

    Double SHA-256 of a 64-byte concatenation is an arbitrary function `pair` of
    two hashes. The all-zero hash `zero` is the sentinel for "no hash here". What
    a theorem assumes about `pair` is written in its `requires`.
 */
module Hashing {

  datatype Hasher<!T> = Hasher(zero: T, pair: (T, T) -> T)

  /** No pair of hashes hashes to the sentinel. */
  ghost predicate NeverZero<T(!new)>(hs: Hasher<T>) {
    forall a, b :: hs.pair(a, b) != hs.zero
  }

  /** No element of a level is the sentinel. */
  ghost predicate NonZero<T(!new)>(hs: Hasher<T>, s: seq<T>) {
    forall i :: 0 <= i < |s| ==> s[i] != hs.zero
  }

  /** The hypothesis of the theorems about trees over the leaves `s`. */
  ghost predicate Proper<T(!new)>(hs: Hasher<T>, s: seq<T>) {
    NeverZero(hs) && NonZero(hs, s)
  }

  /** Two different pairs with the same hash. */
  ghost predicate IsCollision<T>(hs: Hasher<T>, a: T, b: T, c: T, d: T) {
    (a, b) != (c, d) && hs.pair(a, b) == hs.pair(c, d)
  }

  ghost predicate Injective<T(!new)>(hs: Hasher<T>) {
    forall a, b, c, d :: !IsCollision(hs, a, b, c, d)
  }

  /** Hashes `x` with itself `d` times. */
  function Lift<T>(hs: Hasher<T>, x: T, d: nat): T {
    if d == 0 then x else Lift(hs, hs.pair(x, x), d - 1)
  }

  /** Hashing a value with itself never leads back to that value. */
  ghost predicate NoLiftCycle<T(!new)>(hs: Hasher<T>) {
    forall x, d: nat :: d > 0 ==> Lift(hs, x, d) != x
  }

  // ----- an instance: hashes as terms -----

  datatype Term = Null | Leaf(id: nat) | Pair(left: Term, right: Term)

  const TERM_HASHER: Hasher<Term> := Hasher(Null, (a, b) => Pair(a, b))

  function Size(t: Term): nat {
    match t
    case Pair(l, r) => 1 + Size(l) + Size(r)
    case _ => 0
  }

  lemma {:induction false} LiftGrows(x: Term, d: nat)
    ensures Size(Lift(TERM_HASHER, x, d)) >= Size(x) + d
    decreases d
  {
    if d > 0 {
      LiftGrows(TERM_HASHER.pair(x, x), d - 1);
    }
  }

  /** Injectivity and the other hypotheses hold of one and the same hasher over terms. */
  lemma {:induction false} HypothesesAreSatisfiable()
    ensures NeverZero(TERM_HASHER) && Injective(TERM_HASHER) && NoLiftCycle(TERM_HASHER)
  {
    forall x, d: nat | d > 0 ensures Lift(TERM_HASHER, x, d) != x {
      LiftGrows(x, d);
    }
  }
}
