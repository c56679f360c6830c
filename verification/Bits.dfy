/** Unsigned C integers as naturals: powers of two, shifts and bitwise operators,
    defined bit by bit so that every fact about them is a short linear induction. */
module Bits {

  /** POWER_OF_2(k) */
  function Pow2(k: nat): (r: nat)
    ensures r >= 1
  {
    if k == 0 then 1 else 2 * Pow2(k - 1)
  }

  /** n >> k */
  function Shr(n: nat, k: nat): nat {
    if k == 0 then n else Shr(n / 2, k - 1)
  }

  /** a ^ b */
  function Xor(a: nat, b: nat): nat
    decreases a + b
  {
    if a == 0 && b == 0 then 0
    else 2 * Xor(a / 2, b / 2) + (if a % 2 == b % 2 then 0 else 1)
  }

  /** a & b */
  function And(a: nat, b: nat): nat
    decreases a + b
  {
    if a == 0 && b == 0 then 0
    else 2 * And(a / 2, b / 2) + (if a % 2 == 1 && b % 2 == 1 then 1 else 0)
  }

  /** n with only its low k bits kept: n & ALL_ONE_MASK(k) */
  function Low(n: nat, k: nat): nat {
    if k == 0 then 0 else n % 2 + 2 * Low(n / 2, k - 1)
  }

  /** The low k bits of n are all clear. */
  predicate Aligned(n: nat, k: nat) {
    k == 0 || (n % 2 == 0 && Aligned(n / 2, k - 1))
  }

  lemma {:induction false} XorZero(a: nat, b: nat)
    ensures Xor(a, b) == 0 <==> a == b
    decreases a + b
  {
    if a != 0 || b != 0 {
      XorZero(a / 2, b / 2);
    }
  }

  lemma {:induction false} XorOne(a: nat, b: nat)
    ensures Xor(a, b) == 1 <==> a != b && a / 2 == b / 2
  {
    if a != 0 || b != 0 {
      XorZero(a / 2, b / 2);
    }
  }

  lemma {:induction false} AndZeroLeft(b: nat)
    ensures And(0, b) == 0 == And(b, 0)
    decreases b
  {
    if b != 0 { AndZeroLeft(b / 2); }
  }

  /** n & POWER_OF_2(k) tests bit k. */
  lemma {:induction false} AndPow2(n: nat, k: nat)
    ensures And(n, Pow2(k)) != 0 <==> Shr(n, k) % 2 == 1
    decreases k
  {
    if k == 0 {
      AndZeroLeft(n / 2);
    } else {
      assert Pow2(k) / 2 == Pow2(k - 1);
      AndPow2(n / 2, k - 1);
    }
  }

  lemma {:induction false} LowStep(n: nat, k: nat)
    ensures Low(n, k + 1) == Low(n, k) + (if Shr(n, k) % 2 == 1 then Pow2(k) else 0)
    decreases k
  {
    if k != 0 { LowStep(n / 2, k - 1); }
  }

  lemma {:induction false} LowBound(n: nat, k: nat)
    ensures Low(n, k) < Pow2(k)
    ensures Low(n, k) <= n
    ensures n < Pow2(k) ==> Low(n, k) == n
    decreases k
  {
    if k != 0 { LowBound(n / 2, k - 1); }
  }

  lemma {:induction false} AlignedZero(k: nat)
    ensures Aligned(0, k)
    decreases k
  {
    if k != 0 { AlignedZero(k - 1); }
  }

  lemma {:induction false} AlignedDown(n: nat, m: nat, k: nat)
    requires k <= m && Aligned(n, m)
    ensures Aligned(n, k)
    decreases k
  {
    if k != 0 { AlignedDown(n / 2, m - 1, k - 1); }
  }

  lemma {:induction false} AlignedAdd(n: nat, m: nat, k: nat)
    requires k <= m && Aligned(n, k)
    ensures Aligned(n + Pow2(m), k)
    decreases k
  {
    if k != 0 {
      AlignedAdd(n / 2, m - 1, k - 1);
      assert (n + Pow2(m)) / 2 == n / 2 + Pow2(m - 1);
    }
  }

  /** Distinct aligned numbers are at least one block apart. */
  lemma {:induction false} AlignedGap(a: nat, b: nat, k: nat)
    requires Aligned(a, k) && Aligned(b, k) && a < b
    ensures a + Pow2(k) <= b
    decreases k
  {
    if k != 0 { AlignedGap(a / 2, b / 2, k - 1); }
  }

  /** Of an aligned number and the block after it, exactly one is aligned one order up. */
  lemma {:induction false} AlignedAlternates(n: nat, k: nat)
    requires Aligned(n, k)
    ensures Aligned(n, k + 1) <==> !Aligned(n + Pow2(k), k + 1)
    ensures !Aligned(n, k + 1) ==> n >= Pow2(k) && Aligned(n - Pow2(k), k + 1)
    decreases k
  {
    if k != 0 {
      AlignedAlternates(n / 2, k - 1);
      assert (n + Pow2(k)) / 2 == n / 2 + Pow2(k - 1);
      if !Aligned(n, k + 1) {
        assert (n - Pow2(k)) / 2 == n / 2 - Pow2(k - 1);
      }
    }
  }

  lemma {:induction false} Pow2Mono(k: nat, m: nat)
    requires k <= m
    ensures Pow2(k) <= Pow2(m)
    decreases m
  {
    if k < m { Pow2Mono(k, m - 1); }
  }
}
