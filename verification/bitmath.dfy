// Unsigned-integer facts the sampler relies on: powers of two, bitwise OR,
// the value of a bit string, and the width of a range.
module BitMath {

  /** 2 to the power k. */
  function Pow2(k: nat): (p: nat)
    ensures p >= 1
  {
    if k == 0 then 1 else 2 * Pow2(k - 1)
  }

  lemma {:induction false} Pow2Monotone(i: nat, k: nat)
    requires i <= k
    ensures Pow2(i) <= Pow2(k)
  {
    if i < k {
      Pow2Monotone(i, k - 1);
    }
  }

  lemma MulMonotone(a: int, b: int, d: int)
    requires d > 0 && a <= b
    ensures a * d <= b * d
  {
  }

  /** Division by d has one quotient: the q with w == q * d + r and 0 <= r < d. */
  lemma DivUnique(w: int, d: int, q: int, r: int)
    requires d > 0 && 0 <= r < d && w == q * d + r
    ensures w / d == q && w % d == r
  {
    var q0 := w / d;
    assert (q + 1) * d == q * d + d && (q0 + 1) * d == q0 * d + d;
    if q0 > q {
      MulMonotone(q + 1, q0, d);
    }
    if q0 < q {
      MulMonotone(q0 + 1, q, d);
    }
  }

  /** Halving and then dividing by p is dividing by 2 * p. */
  lemma HalveThenDivide(w: nat, p: nat)
    requires p > 0
    ensures (w / 2) / p == w / (2 * p)
  {
    var q, s := (w / 2) / p, (w / 2) % p;
    assert w == q * (2 * p) + (2 * s + w % 2);
    DivUnique(w, 2 * p, q, 2 * s + w % 2);
  }

  /** n is a power of two. */
  predicate IsPow2(n: nat)
    decreases n
  {
    n == 1 || (n > 1 && n % 2 == 0 && IsPow2(n / 2))
  }

  lemma {:induction false} Pow2IsPow2(k: nat)
    ensures IsPow2(Pow2(k))
  {
    if k > 0 {
      Pow2IsPow2(k - 1);
      assert Pow2(k) / 2 == Pow2(k - 1);
    }
  }

  /** Of two distinct powers of two, the smaller is at most half the larger. */
  lemma {:induction false} Pow2Gap(a: nat, b: nat)
    requires IsPow2(a) && IsPow2(b) && a < b
    ensures 2 * a <= b
    decreases a
  {
    if a > 1 {
      Pow2Gap(a / 2, b / 2);
    }
  }

  /** Bitwise OR of two unsigned integers, bit by bit from the least significant. */
  function BitOr(a: nat, b: nat): (v: nat)
    ensures a <= v && b <= v && v <= a + b
    decreases a + b
  {
    if a == 0 then b
    else if b == 0 then a
    else 2 * BitOr(a / 2, b / 2) + (if a % 2 == 1 || b % 2 == 1 then 1 else 0)
  }

  /** ORing a power of two p into a value below p sets a bit that was clear: it adds p. */
  lemma {:induction false} OrIntoClearTopBit(r: nat, p: nat)
    requires IsPow2(p) && r < p
    ensures BitOr(r, p) == r + p
    decreases p
  {
    if r != 0 && p != 1 {
      OrIntoClearTopBit(r / 2, p / 2);
    }
  }

  /** The number whose binary digits, least significant first, are bs. */
  function LsbValue(bs: seq<bool>): (v: nat)
    ensures v < Pow2(|bs|)
  {
    if bs == [] then 0
    else LsbValue(bs[..|bs| - 1]) + (if bs[|bs| - 1] then Pow2(|bs| - 1) else 0)
  }

  /** The least k with n <= 2^k: the number of bits a value below n needs. */
  function CeilLog2(n: nat): (k: nat)
    ensures n <= Pow2(k)
    ensures k > 0 ==> Pow2(k - 1) < n
    decreases n
  {
    if n <= 1 then 0 else 1 + CeilLog2((n + 1) / 2)
  }

  lemma {:induction false} CeilLog2OfPow2(m: nat)
    ensures CeilLog2(Pow2(m)) == m
  {
    var k := CeilLog2(Pow2(m));
    if k < m {
      Pow2Monotone(k, m - 1);
    } else if k > m {
      Pow2Monotone(m, k - 1);
    }
  }
}
