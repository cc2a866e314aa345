/**
 * Facts about Euclidean division on non-negative integers, used to relate
 * the step-by-step "peel off the largest magnitude" decomposition of an
 * amount to its base-1000 digits.
 */
module Arith {

  /** Division and remainder are determined by any decomposition n == x * d + s with 0 <= s < d. */
  lemma DivModUnique(n: int, d: int, x: int, s: int)
    requires d > 0 && 0 <= s < d && n == x * d + s
    ensures n / d == x && n % d == s
  {
    var x', s' := n / d, n % d;
    assert n == x' * d + s';
    assert (x - x') * d == s' - s;
    if x > x' {
      assert (x - x') * d >= d by { MulAtLeast(x - x', d); }
    } else if x < x' {
      assert (x' - x) * d >= d by { MulAtLeast(x' - x, d); }
    }
  }

  lemma DivMod(n: nat, d: nat)
    requires d > 0
    ensures n == (n / d) * d + n % d && 0 <= n % d < d
  {
  }

  lemma MulAtLeast(k: int, d: int)
    requires k >= 1 && d > 0
    ensures k * d >= d
  {
    assert k * d == (k - 1) * d + d;
  }

  /** Adding whole multiples of d does not change the remainder and shifts the quotient. */
  lemma DivAddMultiple(k: nat, d: nat, b: nat)
    requires d > 0
    ensures (k * d + b) / d == k + b / d
    ensures (k * d + b) % d == b % d
  {
    var q, s := b / d, b % d;
    assert k * d + b == (k + q) * d + s;
    DivModUnique(k * d + b, d, k + q, s);
  }

  lemma MulBelow(c: nat, n: nat, p: nat)
    requires c < n && p > 0
    ensures c * p < n * p
  {
    assert n * p - c * p == (n - c) * p;
    MulAtLeast(n - c, p);
  }

  lemma Regroup(a: nat, p: nat, q: nat)
    ensures a * (1000 * p * q) == (a * q * 1000) * p
  {
  }

  /**
   * Taking the remainder by a multiple m of 1000 * p first and then reading
   * the base-1000 digit at p gives the same digit as reading it directly.
   */
  lemma DigitAfterMod(r: nat, p: nat, q: nat)
    requires p > 0 && q > 0
    ensures ((r % (1000 * p * q)) / p) % 1000 == (r / p) % 1000
  {
    var m := 1000 * p * q;
    var a, b := r / m, r % m;
    var k := a * q * 1000;
    DivMod(r, m);
    Regroup(a, p, q);
    assert r == k * p + b;
    DivAddMultiple(k, p, b);
    DivAddMultiple(a * q, 1000, b / p);
  }

  /** An amount between one and a thousand times d holds d between 1 and 999 times. */
  lemma CountBounds(r: nat, d: nat)
    requires 0 < d <= r < 1000 * d
    ensures 1 <= r / d < 1000
    ensures r % d < d
  {
    DivModUnique(r, d, r / d, r % d);
  }

  /**
   * A multiple x of 1000 divided by a multiple v of 1000 leaves a remainder
   * that is itself a multiple of 1000, so at least 1000 below v.
   */
  lemma SplitMultiple(x: nat, v: nat) returns (q: nat, s: nat)
    requires v > 0 && x % 1000 == 0 && v % 1000 == 0
    ensures x == q * v + s && s % 1000 == 0 && s + 1000 <= v
  {
    var a, b := x / 1000, v / 1000;
    DivMod(x, 1000);
    DivMod(v, 1000);
    q, s := x / v, x % v;
    DivMod(x, v);
    assert s == (a - q * b) * 1000 by {
      assert x == a * 1000 && v == b * 1000;
      assert s == x - q * v;
      assert q * v == q * b * 1000;
    }
    DivModUnique(s, 1000, a - q * b, 0);
    assert a - q * b < b;
    assert s <= (b - 1) * 1000;
  }
}
