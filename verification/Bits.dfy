/** Powers of two and bit shifts. `Shr` and `Low` peel one bit at a time, so the proofs that
    use them need no nonlinear arithmetic; `ShrLow` ties them to division. */
module Bits {
  function Pow2(n: nat): (p: nat)
    ensures p >= 1
  {
    if n == 0 then 1 else 2 * Pow2(n - 1)
  }

  /** `x >> n` */
  function Shr(x: nat, n: nat): nat {
    if n == 0 then x else Shr(x / 2, n - 1)
  }

  /** `x >> n` on 64-bit words in a release build, which takes the shift amount modulo 64. */
  function Shifted(x: nat, n: nat): nat {
    Shr(x, n % 64)
  }

  /** The low `n` bits of `x`. */
  function Low(x: nat, n: nat): nat {
    if n == 0 then 0 else x % 2 + 2 * Low(x / 2, n - 1)
  }

  /** `x << n` */
  function Shl(x: nat, n: nat): nat
    decreases n
  {
    if n == 0 then x else Shl(2 * x, n - 1)
  }

  lemma {:induction false} ShlNext(x: nat, n: nat)
    ensures Shl(x + 1, n) == Shl(x, n) + Pow2(n)
    decreases n
  {
    if n > 0 {
      ShlNext(2 * x, n - 1);
      ShlNext(2 * x + 1, n - 1);
    }
  }

  lemma {:induction false} ShlZero(n: nat)
    ensures Shl(0, n) == 0
  {
    if n > 0 {
      ShlZero(n - 1);
    }
  }

  lemma DoubleProduct(p: nat, q: nat)
    ensures 2 * p * q == 2 * (p * q)
  {
  }

  lemma {:induction false} ShrLow(x: nat, n: nat)
    ensures Low(x, n) < Pow2(n)
    ensures x == Pow2(n) * Shr(x, n) + Low(x, n)
  {
    if n > 0 {
      ShrLow(x / 2, n - 1);
      DoubleProduct(Pow2(n - 1), Shr(x / 2, n - 1));
    }
  }

  /** `Shr` and `Low` are quotient and remainder by a power of two. */
  lemma {:induction false} ShrLowAreDivMod(x: nat, n: nat)
    ensures Shr(x, n) == x / Pow2(n)
    ensures Low(x, n) == x % Pow2(n)
  {
    ShrLow(x, n);
    DivModUnique(x, Pow2(n), Shr(x, n), Low(x, n));
  }

  lemma {:induction false} DivModUnique(x: nat, p: nat, q: nat, r: nat)
    requires r < p && x == p * q + r
    ensures x / p == q && x % p == r
  {
    var d := x / p - q;
    assert p * d == r - x % p;
    MulAtLeast(p, d);
  }

  lemma MulAtLeast(p: nat, d: int)
    ensures d >= 1 ==> p * d >= p
    ensures d <= -1 ==> p * d + p <= 0
  {
  }

  lemma {:induction false} ShrShr(x: nat, m: nat, n: nat)
    ensures Shr(x, m + n) == Shr(Shr(x, m), n)
  {
    if m > 0 {
      ShrShr(x / 2, m - 1, n);
    }
  }

  lemma {:induction false} LowTop(x: nat, n: nat)
    ensures Low(x, n + 1) == Low(x, n) + if Shr(x, n) % 2 == 1 then Pow2(n) else 0
  {
    if n > 0 {
      LowTop(x / 2, n - 1);
    }
  }

  lemma {:induction false} LowHalfAgree(x: nat, y: nat, n: nat)
    requires Low(x, n + 1) == Low(y, n + 1)
    ensures Low(x, n) == Low(y, n)
    ensures Shr(x, n) % 2 == Shr(y, n) % 2
  {
    if n > 0 {
      LowHalfAgree(x / 2, y / 2, n - 1);
    }
  }

  /** A number of at most `n` bits. */
  lemma {:induction false} SmallIndex(x: nat, n: nat)
    requires x < Pow2(n)
    ensures Shr(x, n) == 0
    ensures Low(x, n) == x
  {
    if n > 0 {
      SmallIndex(x / 2, n - 1);
    }
  }

  lemma LowIsSmall(x: nat, n: nat)
    ensures Low(x, n) < Pow2(n)
    ensures Shr(Low(x, n), n) == 0
    ensures Low(Low(x, n), n) == Low(x, n)
  {
    ShrLow(x, n);
    SmallIndex(Low(x, n), n);
  }

  /** Shifting and masking a number assembled from a low part and a high part. */
  lemma {:induction false} SplitIndex(lo: nat, hi: nat, n: nat)
    requires lo < Pow2(n)
    ensures Shr(lo + Pow2(n) * hi, n) == hi
    ensures Low(lo + Pow2(n) * hi, n) == lo
  {
    if n > 0 {
      var x := lo + Pow2(n) * hi;
      DoubleProduct(Pow2(n - 1), hi);
      assert x / 2 == lo / 2 + Pow2(n - 1) * hi && x % 2 == lo % 2;
      SplitIndex(lo / 2, hi, n - 1);
    }
  }

  function Pow256(k: nat): (p: nat)
    ensures p >= 1
  {
    if k == 0 then 1 else 256 * Pow256(k - 1)
  }

  lemma {:induction false} Pow256Grows(j: nat, k: nat)
    requires j <= k
    ensures Pow256(j) <= Pow256(k)
  {
    if j < k {
      Pow256Grows(j, k - 1);
    }
  }

  lemma DivDiv(x: nat, p: nat)
    requires p > 0
    ensures x / 256 / p == x / (256 * p)
  {
    var q, r := x / 256 / p, x / 256 % p;
    assert x / 256 == p * q + r;
    assert 256 * (p * q) == 256 * p * q;
    DivModUnique(x, 256 * p, q, 256 * r + x % 256);
  }

  /** The exponent of the smallest power of two that is at least `n`. */
  function CeilLog2(n: nat): (c: nat)
    ensures n <= Pow2(c)
    ensures c > 0 ==> Pow2(c - 1) < n
  {
    if n <= 1 then 0 else 1 + CeilLog2((n + 1) / 2)
  }

  lemma {:induction false} Pow2Grows(m: nat, n: nat)
    requires m <= n
    ensures Pow2(m) <= Pow2(n)
  {
    if m < n {
      Pow2Grows(m, n - 1);
    }
  }

  lemma CeilLog2Is(n: nat, c: nat)
    requires n <= Pow2(c) && (c > 0 ==> Pow2(c - 1) < n)
    ensures CeilLog2(n) == c
  {
    var d := CeilLog2(n);
    if d < c {
      Pow2Grows(d, c - 1);
    } else if c < d {
      Pow2Grows(c, d - 1);
    }
  }
}
