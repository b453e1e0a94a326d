/** Powers of two and the integer logarithms every tree index rests on.

    The source computes `Ceil(Log2(n))` and `Log2(n)` in floating point; here they
    are the exact integer functions `CeilLog2` and `FloorLog2`.
 */
module PowersOfTwo {

  function Pow2(k: nat): (p: nat)
    ensures p > 0
  {
    if k == 0 then 1 else 2 * Pow2(k - 1)
  }

  ghost predicate IsPow2(n: int) {
    exists k: nat :: n == Pow2(k)
  }

  /** math.Ceil(math.Log2(n)) */
  function CeilLog2(n: nat): (h: nat)
    requires n > 0
    ensures n <= Pow2(h)
    ensures h > 0 ==> Pow2(h - 1) < n
  {
    if n == 1 then 0 else 1 + CeilLog2((n + 1) / 2)
  }

  /** bits.Len */
  function BitLen(n: nat): (b: nat)
    ensures n < Pow2(b)
    ensures b > 0 ==> Pow2(b - 1) <= n
  {
    if n == 0 then 0 else 1 + BitLen(n / 2)
  }

  /** The integer part of math.Log2(n) */
  function FloorLog2(n: nat): (l: nat)
    requires n > 0
    ensures Pow2(l) <= n < Pow2(l + 1)
  {
    BitLen(n) - 1
  }

  /** Bitwise and of two non-negative integers. */
  function BitAnd(a: nat, b: nat): nat {
    if a == 0 || b == 0 then 0
    else 2 * BitAnd(a / 2, b / 2) + if a % 2 == 1 && b % 2 == 1 then 1 else 0
  }

  // ----- power_of_two.go -----

  function CeilPowerOfTwo(num: int): int {
    if num <= 0 then 1 else Pow2(CeilLog2(num))
  }

  predicate IsPowerOfTwo(num: int) {
    num > 0 && BitAnd(num, num - 1) == 0
  }

  function NextPowerOfTwo(n: nat): nat {
    // 0 & -1 is 0 as well
    if n == 0 || BitAnd(n, n - 1) == 0 then n else Pow2(FloorLog2(n) + 1)
  }

  function NextLowerPowerOfTwo(x: nat): nat {
    if x == 0 then 0 else Pow2(BitLen(x) - 1)
  }

  // ----- properties -----

  lemma {:induction false} Pow2Monotone(j: nat, k: nat)
    requires j <= k
    ensures Pow2(j) <= Pow2(k)
    ensures j < k ==> 2 * Pow2(j) <= Pow2(k)
  {
    if j < k {
      Pow2Monotone(j, k - 1);
    }
  }

  /** The height is determined by the two bounds of CeilLog2. */
  lemma {:induction false} CeilLog2Unique(n: nat, k: nat)
    requires 0 < n <= Pow2(k)
    requires k > 0 ==> Pow2(k - 1) < n
    ensures CeilLog2(n) == k
  {
    var h := CeilLog2(n);
    if h < k {
      Pow2Monotone(h, k - 1);
    } else if k < h {
      Pow2Monotone(k, h - 1);
    }
  }

  lemma {:induction false} BitAndSelf(n: nat)
    ensures BitAnd(n, n) == n
  {
    if n > 0 {
      BitAndSelf(n / 2);
    }
  }

  lemma {:induction false} ClearLowestBit(n: nat)
    requires n > 0
    ensures BitAnd(n, n - 1) == 0 <==> IsPow2(n)
  {
    var m := n / 2;
    if n == 1 {
      assert n == Pow2(0);
    } else if n % 2 == 1 {
      assert (n - 1) / 2 == m;
      BitAndSelf(m);
    } else {
      assert (n - 1) / 2 == m - 1;
      ClearLowestBit(m);
    }
    if n > 1 {
      HalfOfPow2(n);
    }
  }

  lemma {:induction false} HalfOfPow2(n: nat)
    requires n > 1
    ensures IsPow2(n) <==> n % 2 == 0 && IsPow2(n / 2)
  {
    if IsPow2(n) {
      var k: nat :| n == Pow2(k);
      assert n / 2 == Pow2(k - 1);
    }
    if n % 2 == 0 && IsPow2(n / 2) {
      var k: nat :| n / 2 == Pow2(k);
      assert n == Pow2(k + 1);
    }
  }

  /** `num & (num-1) == 0` recognises exactly the powers of two. */
  lemma {:induction false} IsPowerOfTwoIff(num: int)
    ensures IsPowerOfTwo(num) <==> IsPow2(num)
  {
    if num > 0 {
      ClearLowestBit(num);
    }
  }

  /** `p` is the least power of two that is at least `n`. */
  ghost predicate IsLeastPow2AtLeast(p: int, n: int) {
    IsPow2(p) && n <= p && forall k: nat :: n <= Pow2(k) ==> p <= Pow2(k)
  }

  lemma {:induction false} CeilIsLeast(n: nat)
    requires n > 0
    ensures IsLeastPow2AtLeast(Pow2(CeilLog2(n)), n)
  {
    var h := CeilLog2(n);
    forall k: nat | n <= Pow2(k) ensures Pow2(h) <= Pow2(k) {
      if k < h {
        Pow2Monotone(k, h - 1);
      } else {
        Pow2Monotone(h, k);
      }
    }
  }

  lemma {:induction false} NextPowerIsCeil(n: nat)
    requires n > 0
    ensures NextPowerOfTwo(n) == Pow2(CeilLog2(n))
  {
    ClearLowestBit(n);
    if BitAnd(n, n - 1) == 0 {
      var k: nat :| n == Pow2(k);
      CeilLog2Unique(n, k);
    } else {
      var l := FloorLog2(n);
      assert n != Pow2(l);
      CeilLog2Unique(n, l + 1);
    }
  }

  /** On every integer CeilPowerOfTwo is the least power of two that is at least it. */
  lemma {:induction false} CeilPowerIsLeast(num: int)
    ensures IsLeastPow2AtLeast(CeilPowerOfTwo(num), num)
  {
    if num > 0 {
      CeilIsLeast(num);
    } else {
      assert CeilPowerOfTwo(num) == Pow2(0);
    }
  }

  /** Zero, and no other argument, is rounded to zero. */
  lemma {:induction false} RoundingOfZero(n: nat)
    ensures NextPowerOfTwo(n) == 0 <==> n == 0
    ensures NextLowerPowerOfTwo(n) == 0 <==> n == 0
  {
  }

  /** Both roundings, and the bit length used by the padding, give one height. */
  lemma {:induction false} HeightAgreement(n: nat)
    requires n > 0
    ensures NextPowerOfTwo(n) == CeilPowerOfTwo(n) == Pow2(BitLen(n - 1)) == Pow2(CeilLog2(n))
    ensures BitLen(n - 1) == CeilLog2(n)
    ensures IsLeastPow2AtLeast(NextPowerOfTwo(n), n)
  {
    CeilIsLeast(n);
    NextPowerIsCeil(n);
    CeilLog2Unique(n, BitLen(n - 1));
  }

  /** NextLowerPowerOfTwo is the greatest power of two that is at most `x`. */
  lemma {:induction false} NextLowerIsGreatest(x: nat)
    requires x > 0
    ensures IsPow2(NextLowerPowerOfTwo(x)) && NextLowerPowerOfTwo(x) <= x
    ensures forall k: nat :: Pow2(k) <= x ==> Pow2(k) <= NextLowerPowerOfTwo(x)
  {
    var l := BitLen(x) - 1;
    forall k: nat | Pow2(k) <= x ensures Pow2(k) <= Pow2(l) {
      if l < k {
        Pow2Monotone(l + 1, k);
      } else {
        Pow2Monotone(k, l);
      }
    }
  }
}
