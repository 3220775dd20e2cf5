/** Bitwise operators on natural numbers and the alignment facts the buddy allocator rests on.
    Everything is defined digit by digit, so every proof is an induction on the binary digits. */
module Bits {

  function Pow2(n: nat): (r: nat)
    ensures r >= 1
  {
    if n == 0 then 1 else 2 * Pow2(n - 1)
  }

  /** Bitwise exclusive or. */
  function Xor(a: nat, b: nat): nat
    decreases a + b
  {
    if a == 0 && b == 0 then 0 else 2 * Xor(a / 2, b / 2) + (a + b) % 2
  }

  /** Bitwise and. */
  function And(a: nat, b: nat): nat
    decreases a + b
  {
    if a == 0 || b == 0 then 0 else 2 * And(a / 2, b / 2) + (if a % 2 == 1 && b % 2 == 1 then 1 else 0)
  }

  /** The lowest n binary digits of p are zero: p is a multiple of 2^n. */
  predicate Aligned(p: nat, n: nat) {
    n == 0 || (p % 2 == 0 && Aligned(p / 2, n - 1))
  }

  lemma {:induction false} XorZero(a: nat)
    ensures Xor(a, 0) == a
  {
    if a > 0 { XorZero(a / 2); }
  }

  lemma XorOne(p: nat)
    ensures Xor(p, 1) == if p % 2 == 0 then p + 1 else p - 1
  {
    XorZero(p / 2);
    assert Xor(p, 1) == 2 * Xor(p / 2, 0) + (p + 1) % 2;
  }

  /** Flipping digit n of a number aligned to 2^n adds 2^n when the digit was clear, that is when
      the number is aligned to 2^(n+1), and removes it otherwise. */
  lemma {:induction false} XorPow2(p: nat, n: nat)
    requires Aligned(p, n)
    ensures Aligned(p, n + 1) ==> Xor(p, Pow2(n)) == p + Pow2(n)
    ensures !Aligned(p, n + 1) ==> p >= Pow2(n) && Xor(p, Pow2(n)) == p - Pow2(n)
  {
    if n == 0 {
      XorOne(p);
      assert Aligned(p / 2, 0);
    } else {
      XorPow2(p / 2, n - 1);
    }
  }

  /** Masking with 2^n - 1 yields zero exactly for the multiples of 2^n. */
  lemma {:induction false} AndMask(p: nat, n: nat)
    ensures And(p, Pow2(n) - 1) == 0 <==> Aligned(p, n)
  {
    if n > 0 {
      AndMask(p / 2, n - 1);
      assert (Pow2(n) - 1) / 2 == Pow2(n - 1) - 1;
      if p == 0 { assert Aligned(0, n - 1); }
    }
  }

  /** The two halves of an aligned block. */
  lemma {:induction false} AlignedHalves(p: nat, n: nat)
    requires Aligned(p, n + 1)
    ensures Aligned(p, n) && Aligned(p + Pow2(n), n) && !Aligned(p + Pow2(n), n + 1)
  {
    if n > 0 {
      var h, w := p / 2, Pow2(n - 1);
      AlignedHalves(h, n - 1);
      assert p + Pow2(n) == 2 * (h + w);
      assert (2 * (h + w)) / 2 == h + w;
    }
  }

  /** A number aligned to this order but not the next is the upper half of its parent. */
  lemma {:induction false} AlignedUpper(p: nat, n: nat)
    requires Aligned(p, n) && !Aligned(p, n + 1)
    ensures p >= Pow2(n) && Aligned(p - Pow2(n), n + 1)
  {
    if n > 0 {
      var h, w := p / 2, Pow2(n - 1);
      AlignedUpper(h, n - 1);
      assert p - Pow2(n) == 2 * (h - w);
      assert (2 * (h - w)) / 2 == h - w;
    }
  }

  lemma {:induction false} Pow2Mono(n: nat, m: nat)
    requires n <= m
    ensures Pow2(n) <= Pow2(m)
    ensures n < m ==> 2 * Pow2(n) <= Pow2(m)
  {
    if n < m { Pow2Mono(n, m - 1); }
  }

  /** Of two overlapping aligned blocks the larger one contains the smaller. */
  lemma {:induction false} Overlap(p: nat, n: nat, q: nat, m: nat, x: nat)
    requires n <= m && Aligned(p, n) && Aligned(q, m)
    requires p <= x < p + Pow2(n) && q <= x < q + Pow2(m)
    ensures q <= p && p + Pow2(n) <= q + Pow2(m)
    ensures n == m ==> p == q
  {
    if n > 0 { Overlap(p / 2, n - 1, q / 2, m - 1, x / 2); }
  }
}
