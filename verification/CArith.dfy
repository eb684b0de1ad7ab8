/** C's signed integer arithmetic. */
module CArith {

  /** C division: the quotient is cut off towards zero. */
  function CDiv(a: int, b: int): int
    requires b != 0
  {
    if b > 0 then (if a >= 0 then a / b else -(-a / b))
    else (if a >= 0 then -(a / -b) else -a / -b)
  }

  /** The whole number next to a fraction on the side of zero. */
  ghost predicate TowardsZero(q: int, x: real) {
    (0.0 <= q as real <= x || x <= q as real <= 0.0) && -1.0 < x - q as real < 1.0
  }

  lemma RealProducts(y: real, d: real)
    requires 0.0 < d
    ensures y < 0.0 ==> y * d < 0.0
    ensures 0.0 <= y ==> 0.0 <= y * d
  {
  }

  lemma RealBetween(x: real, q: real, d: real, r: real)
    requires 0.0 <= r < d && (x - q) * d == r
    ensures q <= x < q + 1.0
  {
    RealProducts(x - q, d);
    RealProducts(x - q - 1.0, d);
    assert (x - q - 1.0) * d == (x - q) * d - d;
  }

  lemma RealDivision(n: real, q: real, d: real, r: real)
    requires 0.0 < d && n == q * d + r
    ensures (n / d - q) * d == r
  {
    var x := n / d;
    assert x * d == n;
    assert (x - q) * d == x * d - q * d;
  }

  lemma ProductAsReal(p: int, d: int)
    ensures p as real * d as real == (p * d) as real
  {
  }

  lemma NaturalQuotient(n: nat, d: nat)
    requires 0 < d
    ensures (n / d) as real <= n as real / d as real < (n / d) as real + 1.0
  {
    var q, r := n / d, n % d;
    assert n == q * d + r;
    ProductAsReal(q, d);
    RealDivision(n as real, q as real, d as real, r as real);
    RealBetween(n as real / d as real, q as real, d as real, r as real);
  }

  /** Neither down nor up: -3 / 2 and 3 / -2 are -1. */
  lemma CDivTowardsZero(a: int, b: int)
    requires b != 0
    ensures TowardsZero(CDiv(a, b), a as real / b as real)
  {
    var n, d := if a < 0 then -a else a, if b < 0 then -b else b;
    NaturalQuotient(n, d);
    var x := n as real / d as real;
    assert a as real / b as real == if (a < 0) == (b < 0) then x else -x by {
      SignsOut(a as real, b as real, n as real, d as real);
    }
  }

  lemma SignsOut(a: real, b: real, n: real, d: real)
    requires b != 0.0 && n == (if a < 0.0 then -a else a) && d == (if b < 0.0 then -b else b)
    ensures a / b == if (a < 0.0) == (b < 0.0) then n / d else -(n / d)
  {
    var x := n / d;
    assert x * d == n;
    var y := if (a < 0.0) == (b < 0.0) then x else -x;
    assert y * b == a;
  }

  /** Only one whole number is next to a fraction on the side of zero. */
  lemma TowardsZeroOnce(p: int, q: int, x: real)
    requires TowardsZero(p, x) && TowardsZero(q, x)
    ensures p == q
  {
  }
}
