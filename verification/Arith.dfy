/** Facts about division and multiplication that the verifier needs spelled out. */
module Arith {

  lemma MulMono(a: int, b: int, d: int)
    requires a >= b && d >= 0
    ensures a * d >= b * d
  {
  }

  lemma DivUnique(n: int, d: int, q: int, r: int)
    requires 0 <= r < d && n == q * d + r
    ensures n / d == q && n % d == r
  {
    var k := n / d - q;
    assert n == (n / d) * d + n % d;
    assert k * d == (n / d) * d - q * d;
    if k >= 1 {
      MulMono(k, 1, d);
    } else if k <= -1 {
      MulMono(-1, k, d);
    }
  }

  lemma DivStep(n: int, d: int)
    requires d > 0
    ensures n / d == (n - d) / d + 1
    ensures n % d == (n - d) % d
  {
    var q := (n - d) / d;
    assert n - d == q * d + (n - d) % d;
    assert (q + 1) * d == q * d + d;
    DivUnique(n, d, q + 1, (n - d) % d);
  }

  /** Position `x` around a circle of length `d`. */
  function Wrap(x: int, d: nat): (r: nat)
    requires d > 0
    ensures r < d
  {
    x % d
  }

  /** Subtracting before or after wrapping is the same. */
  lemma WrapSub(x: int, a: int, d: nat)
    requires d > 0
    ensures Wrap(Wrap(x, d) - a, d) == Wrap(x - a, d)
  {
    var q, r := (x - a) / d, (x - a) % d;
    assert x - a == q * d + r;
    assert x == (x / d) * d + x % d;
    assert x % d - a == (q - x / d) * d + r by {
      assert (q - x / d) * d == q * d - (x / d) * d;
    }
    DivUnique(x % d - a, d, q - x / d, r);
  }

  /** Within the circle, and one step past either end of it. */
  lemma WrapNear(x: int, d: nat)
    requires 0 <= x < d
    ensures Wrap(x, d) == x
    ensures Wrap(x - 1, d) == if x == 0 then d - 1 else x - 1
    ensures Wrap(x + 1, d) == if x == d - 1 then 0 else x + 1
  {
    DivUnique(x, d, 0, x);
    if x == 0 {
      DivUnique(-1, d, -1, d - 1);
    } else {
      DivUnique(x - 1, d, 0, x - 1);
    }
    if x == d - 1 {
      DivUnique(d, d, 1, 0);
    } else {
      DivUnique(x + 1, d, 0, x + 1);
    }
  }
}
