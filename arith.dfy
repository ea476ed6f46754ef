/** Integer facts shared by the circuit models: powers, powers of two, and
    the uniqueness of Euclidean division. */
module Arith {

  /** x raised to the n-th power over the integers. */
  function Pow(x: int, n: nat): int
  {
    if n == 0 then 1 else x * Pow(x, n - 1)
  }

  /** 2^n, kept as a separate function so that it is known to be positive. */
  function Pow2(n: nat): (r: nat)
    ensures r > 0
  {
    if n == 0 then 1 else 2 * Pow2(n - 1)
  }

  /** Exponents add when powers of the same base are multiplied. */
  lemma {:induction false} PowAdd(x: int, a: nat, b: nat)
    ensures Pow(x, a + b) == Pow(x, a) * Pow(x, b)
  {
    if a > 0 {
      PowAdd(x, a - 1, b);
      calc {
        Pow(x, a + b);
        x * Pow(x, (a - 1) + b);
        x * (Pow(x, a - 1) * Pow(x, b));
        (x * Pow(x, a - 1)) * Pow(x, b);
        Pow(x, a) * Pow(x, b);
      }
    }
  }

  /** Powers of two multiply by adding exponents. */
  lemma {:induction false} Pow2Add(a: nat, b: nat)
    ensures Pow2(a + b) == Pow2(a) * Pow2(b)
  {
    if a > 0 {
      Pow2Add(a - 1, b);
    }
  }

  /** Ring identity for appending a digit x of weight a * c. */
  lemma ShiftedSum(a: int, b: int, x: int, c: int)
    ensures a * b + x * (a * c) == a * (b + x * c)
  {
  }

  /** Squaring x^(2^i) gives x^(2^(i+1)): the repeated-squaring step. */
  lemma PowSquare(x: int, i: nat)
    ensures Pow(x, Pow2(i + 1)) == Pow(x, Pow2(i)) * Pow(x, Pow2(i))
  {
    PowAdd(x, Pow2(i), Pow2(i));
  }

  /** Quotient and remainder are the only pair that reassembles y. */
  lemma DivModUnique(y: int, d: int, q: int, r: int)
    requires d > 0 && y == q * d + r && 0 <= r < d
    ensures y / d == q && y % d == r
  {
    var q', r' := y / d, y % d;
    assert y == q' * d + r';
    if q' < q {
      assert (q - q') * d >= d by { MulAtLeast(q - q', d); }
    } else if q' > q {
      assert (q' - q) * d >= d by { MulAtLeast(q' - q, d); }
    }
  }

  /** A positive multiple of d is at least d. */
  lemma MulAtLeast(k: int, d: int)
    requires k >= 1 && d > 0
    ensures k * d >= d
  {
    assert k * d == (k - 1) * d + d;
    assert (k - 1) * d >= 0;
  }

  /** Bit i of a non-negative v, least significant first. */
  function Bit(v: nat, i: nat): (b: nat)
    ensures b == 0 || b == 1
  {
    (v / Pow2(i)) % 2
  }

  /** The remainder modulo 2^(i+1) is the remainder modulo 2^i plus bit i. */
  lemma ModPow2Split(v: nat, i: nat)
    ensures v % Pow2(i + 1) == v % Pow2(i) + Bit(v, i) * Pow2(i)
  {
    var m := Pow2(i);
    var q, r := v / m, v % m;
    assert v == q * m + r;
    assert q == 2 * (q / 2) + q % 2;
    assert Bit(v, i) == q % 2;
    assert Pow2(i + 1) == 2 * m;
    calc {
      v;
      q * m + r;
      (2 * (q / 2) + q % 2) * m + r;
      (q / 2) * (2 * m) + (q % 2 * m + r);
    }
    assert 0 <= q % 2 * m + r < 2 * m;
    DivModUnique(v, 2 * m, q / 2, q % 2 * m + r);
  }
}
