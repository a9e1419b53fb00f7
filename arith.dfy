/** Facts about multiplication and division of naturals that the solver does not find alone. */
module Arith {

  /** 2^k. */
  function Pow2(k: nat): (r: nat)
    ensures r >= 1
  {
    if k == 0 then 1 else 2 * Pow2(k - 1)
  }

  lemma MulNonneg(a: int, q: int)
    requires a >= 0 && q >= 0
    ensures a * q >= 0
  {
  }

  lemma MulDistrib(a: int, b: int, q: int)
    ensures (a - b) * q == a * q - b * q
  {
  }

  lemma MulTwo(c: int, p: int)
    ensures c * (2 * p) == 2 * (c * p)
  {
  }

  /** A quotient and remainder that rebuild x determine x / q. */
  lemma DivUnique(x: int, q: int, d: int, r: int)
    requires q > 0 && 0 <= r < q && x == d * q + r
    ensures x / q == d
  {
    var e, f := x / q, x % q;
    assert x == e * q + f;
    MulDistrib(d, e, q);
    if d > e {
      MulNonneg(d - e - 1, q);
      MulDistrib(d - e, 1, q);
      assert false;
    } else if e > d {
      MulNonneg(e - d - 1, q);
      MulDistrib(e, d, q);
      MulDistrib(e - d, 1, q);
      assert false;
    }
  }

  lemma DivHalf(b: nat, q: nat)
    requires q >= 1
    ensures b / 2 / q == b / (2 * q)
  {
    var d, r := b / (2 * q), b % (2 * q);
    assert b == d * (2 * q) + r;
    assert b / 2 == d * q + r / 2;
    DivUnique(b / 2, q, d, r / 2);
  }

  /** Multiplying by a positive number is one-to-one. */
  lemma MulCancel(x: int, y: int, P: int)
    requires P >= 1 && x * P == y * P
    ensures x == y
  {
    MulDistrib(x, y, P);
    if x > y {
      MulNonneg(x - y - 1, P);
      MulDistrib(x - y, 1, P);
      assert false;
    } else if y > x {
      MulNonneg(y - x - 1, P);
      MulDistrib(y, x, P);
      MulDistrib(y - x, 1, P);
      assert false;
    }
  }

  /** Rounding down to a multiple of P moves a number by less than P. */
  lemma RoundDown(v: nat, P: nat)
    requires P >= 1
    ensures v / P * P <= v < v / P * P + P
  {
    assert v == v / P * P + v % P;
  }
}
