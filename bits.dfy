/**
 * The C bitwise operators on non-negative integers, defined bit by bit, and
 * the facts that turn the masks used by the header into arithmetic.
 */
module Bits {

  function Pow2(k: nat): (r: nat)
    ensures r > 0
  {
    if k == 0 then 1 else 2 * Pow2(k - 1)
  }

  /** `x & y`. */
  function BitAnd(x: nat, y: nat): (r: nat)
    decreases x
  {
    if x == 0 || y == 0 then 0
    else 2 * BitAnd(x / 2, y / 2) + (if x % 2 == 1 && y % 2 == 1 then 1 else 0)
  }

  /** `x | y`. */
  function BitOr(x: nat, y: nat): (r: nat)
    decreases x
  {
    if x == 0 then y
    else if y == 0 then x
    else 2 * BitOr(x / 2, y / 2) + (if x % 2 == 1 || y % 2 == 1 then 1 else 0)
  }

  // Division facts.

  lemma MulAtLeast(c: int, n: int)
    requires c >= 1 && n > 0
    ensures c * n >= n
  {
  }

  lemma ModUnique(x: int, n: int, a: int, r: int)
    requires n > 0 && 0 <= r < n && x == a * n + r
    ensures x % n == r && x / n == a
  {
    var q, m := x / n, x % n;
    assert x == q * n + m;
    assert (q - a) * n == q * n - a * n;
    assert (q - a) * n == r - m;
    if q > a {
      MulAtLeast(q - a, n);
    } else if q < a {
      MulAtLeast(a - q, n);
    }
  }

  lemma HalveMod(x: nat, p: nat)
    requires p > 0
    ensures 2 * ((x / 2) % p) + x % 2 == x % (2 * p)
  {
    HalveDivMod(x, p);
  }

  lemma HalveDiv(x: nat, p: nat)
    requires p > 0
    ensures (x / 2) / p == x / (2 * p)
  {
    HalveDivMod(x, p);
  }

  lemma HalveDivMod(x: nat, p: nat)
    requires p > 0
    ensures 2 * ((x / 2) % p) + x % 2 == x % (2 * p) && (x / 2) / p == x / (2 * p)
  {
    var q := x / 2;
    assert x == 2 * (p * (q / p) + q % p) + x % 2;
    assert x == (q / p) * (2 * p) + (2 * (q % p) + x % 2);
    ModUnique(x, 2 * p, q / p, 2 * (q % p) + x % 2);
  }

  // Masks.

  /** `x & (2^k - 1)` keeps the low `k` bits. */
  lemma {:induction false} BitAndLowMask(x: nat, k: nat)
    ensures BitAnd(x, Pow2(k) - 1) == x % Pow2(k)
    decreases k
  {
    var n := Pow2(k);
    if k == 0 {
      ModUnique(x, n, x, 0);
    } else if x == 0 {
      ModUnique(x, n, 0, 0);
    } else {
      var p := Pow2(k - 1);
      var m := n - 1;
      assert n == 2 * p;
      ModUnique(m, 2, p - 1, 1);
      assert BitAnd(x, m) == 2 * BitAnd(x / 2, p - 1) + x % 2;
      BitAndLowMask(x / 2, k - 1);
      assert BitAnd(x, m) == 2 * ((x / 2) % p) + x % 2;
      HalveMod(x, p);
    }
  }

  /** `x & 2^k` keeps bit `k`. */
  lemma {:induction false} BitAndSingle(x: nat, k: nat)
    ensures BitAnd(x, Pow2(k)) == if (x / Pow2(k)) % 2 == 1 then Pow2(k) else 0
    decreases k
  {
    var m := Pow2(k);
    if k == 0 {
      ModUnique(x, m, x, 0);
      if x > 0 {
        assert BitAnd(x, 1) == 2 * BitAnd(x / 2, 0) + x % 2;
      }
    } else if x == 0 {
      ModUnique(x, m, 0, 0);
    } else {
      var p := Pow2(k - 1);
      BitAndEven(x, p);
      BitAndSingle(x / 2, k - 1);
      HalveDiv(x, p);
    }
  }

  /** `x & 2p` for `p > 0` is bit 0 dropped: twice `(x / 2) & p`. */
  lemma BitAndEven(x: nat, p: nat)
    requires x > 0 && p > 0
    ensures BitAnd(x, 2 * p) == 2 * BitAnd(x / 2, p)
  {
    ModUnique(2 * p, 2, p, 0);
  }

  /** `a | b` is `a + b` when `b` lies below bit `k` and `a` has no bits below it. */
  lemma {:induction false} BitOrDisjoint(a: nat, b: nat, k: nat)
    requires a % Pow2(k) == 0 && b < Pow2(k)
    ensures BitOr(a, b) == a + b
    decreases k
  {
    if k > 0 && a > 0 && b > 0 {
      var p := Pow2(k - 1);
      HalveMod(a, p);
      BitOrDisjoint(a / 2, b / 2, k - 1);
    }
  }
}
