/**
 * Non-negative integers seen as bit strings: powers of two, bitwise AND
 * (Python's `&` on non-negative ints) and single bits.
 */
module Bitwise {

  /** 2 to the power n (Python's `2**n`). */
  function Pow2(n: nat): (r: nat)
    ensures r >= 1
  {
    if n == 0 then 1 else 2 * Pow2(n - 1)
  }

  /** Bit i of x, counting the least significant bit as bit 0. */
  predicate BitOf(x: nat, i: nat)
  {
    if i == 0 then x % 2 == 1 else BitOf(x / 2, i - 1)
  }

  /** Bitwise AND, built from the least significant bit upwards. */
  function And(a: nat, b: nat): nat
  {
    if a == 0 || b == 0 then 0
    else 2 * And(a / 2, b / 2) + (if a % 2 == 1 && b % 2 == 1 then 1 else 0)
  }

  lemma {:induction false} Pow2Add(a: nat, b: nat)
    ensures Pow2(a + b) == Pow2(a) * Pow2(b)
  {
    if a > 0 {
      Pow2Add(a - 1, b);
    }
  }

  lemma {:induction false} Pow2Monotone(m: nat, n: nat)
    requires m <= n
    ensures Pow2(m) <= Pow2(n)
  {
    if m < n {
      Pow2Monotone(m, n - 1);
    }
  }

  lemma {:induction false} MulAtLeast(k: nat, d: nat)
    requires k >= 1
    ensures k * d >= d
  {
    if k > 1 {
      MulAtLeast(k - 1, d);
      assert k * d == (k - 1) * d + d;
    }
  }

  /** A remainder is fixed by any decomposition x == q * d + r with 0 <= r < d. */
  lemma ModUnique(x: nat, d: nat, q: nat, r: nat)
    requires 0 <= r < d
    requires x == q * d + r
    ensures x % d == r && x / d == q
  {
    var q', r' := x / d, x % d;
    assert x == q' * d + r';
    if q' > q {
      assert (q' - q) * d == q' * d - q * d;
      MulAtLeast(q' - q, d);
    } else if q' < q {
      assert (q - q') * d == q * d - q' * d;
      MulAtLeast(q - q', d);
    }
  }

  /** Dropping the lowest bit and restoring it: x mod 2m in terms of (x / 2) mod m. */
  lemma ModDouble(x: nat, m: nat)
    requires m >= 1
    ensures x % (2 * m) == 2 * ((x / 2) % m) + x % 2
  {
    var q, c := (x / 2) / m, (x / 2) % m;
    assert x / 2 == q * m + c;
    assert x == q * (2 * m) + (2 * c + x % 2);
    ModUnique(x, 2 * m, q, 2 * c + x % 2);
  }

  /** The same decomposition with the modulus written as a power of two. */
  lemma ModDoublePow(x: nat, w: nat)
    requires w >= 1
    ensures x % Pow2(w) == 2 * ((x / 2) % Pow2(w - 1)) + x % 2
  {
    ModDouble(x, Pow2(w - 1));
  }

  /** The w low bits of x, rebuilt from the least significant bit upwards. */
  function LowBits(x: nat, w: nat): nat
  {
    if w == 0 then 0 else 2 * LowBits(x / 2, w - 1) + x % 2
  }

  /** One step of AND with a run of w >= 1 low one-bits: the lowest bit of x survives. */
  lemma AndLowStep(w: nat, x: nat)
    requires w >= 1
    ensures And(Pow2(w) - 1, x) == 2 * And(Pow2(w - 1) - 1, x / 2) + x % 2
  {
    var a := Pow2(w) - 1;
    assert a / 2 == Pow2(w - 1) - 1 && a % 2 == 1;
  }

  /** AND with a run of w low one-bits keeps exactly the w low bits of x. */
  lemma {:induction false} AndLowOnes(w: nat, x: nat)
    ensures And(Pow2(w) - 1, x) == LowBits(x, w)
  {
    if w > 0 {
      AndLowStep(w, x);
      AndLowOnes(w - 1, x / 2);
    }
  }

  /** The w low bits of x are x modulo 2**w. */
  lemma {:induction false} LowBitsMod(x: nat, w: nat)
    ensures LowBits(x, w) == x % Pow2(w)
  {
    if w > 0 {
      LowBitsMod(x / 2, w - 1);
      ModDoublePow(x, w);
    }
  }

  /** Bitwise AND is commutative. */
  lemma {:induction false} AndCommutes(a: nat, b: nat)
    ensures And(a, b) == And(b, a)
  {
    if a != 0 && b != 0 {
      AndCommutes(a / 2, b / 2);
    }
  }

  /** Both argument orders of AND with a low mask: `x & (2**w - 1) == x % 2**w`. */
  lemma LowMask(w: nat, x: nat)
    ensures And(Pow2(w) - 1, x) == x % Pow2(w)
    ensures And(x, Pow2(w) - 1) == x % Pow2(w)
  {
    AndLowOnes(w, x);
    LowBitsMod(x, w);
    AndCommutes(x, Pow2(w) - 1);
  }
}
