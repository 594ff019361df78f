/** Facts about products and Euclidean remainders that the solver does not find by itself. */
module Arith {
  const U32: int := 0x1_0000_0000
  const U64: int := 0x1_0000_0000_0000_0000

  lemma ProductBound(k: int, m: int)
    requires m > 0
    ensures k >= 1 ==> k * m >= m
    ensures k <= -1 ==> k * m <= -m
  {
  }

  lemma MulNonneg(a: int, b: int)
    requires a >= 0 && b >= 0
    ensures a * b >= 0
  {
  }

  lemma MulMonotone(a: int, b: int, c: int)
    requires a <= b && c >= 0
    ensures a * c <= b * c
  {
    MulNonneg(b - a, c);
    assert (b - a) * c == b * c - a * c;
  }

  lemma MulAssociates(a: int, b: int, c: int)
    ensures a * (b * c) == (a * b) * c
  {
  }

  /** Quotient and remainder are the only ones. */
  lemma UniqueModulus(x: int, q: int, r: int, m: int)
    requires m > 0 && 0 <= r < m && x == q * m + r
    ensures x % m == r && x / m == q
  {
    var q', r' := x / m, x % m;
    assert (q - q') * m == r' - r;
    ProductBound(q - q', m);
  }

  lemma MultipleModulus(q: int, m: int)
    requires m > 0
    ensures (q * m) % m == 0
  {
    UniqueModulus(q * m, q, 0, m);
  }

  lemma ModulusStep(x: int, m: int)
    requires m > 0
    ensures (x + m) % m == x % m
    ensures (x - m) % m == x % m
  {
    var q, r := x / m, x % m;
    assert x + m == (q + 1) * m + r;
    assert x - m == (q - 1) * m + r;
    UniqueModulus(x + m, q + 1, r, m);
    UniqueModulus(x - m, q - 1, r, m);
  }

  /** 2^k. */
  function Pow2(k: nat): (r: int)
    ensures r >= 1
  {
    if k == 0 then 1 else 2 * Pow2(k - 1)
  }

  /** 256^k. */
  function Bytes256(k: nat): (r: int)
    ensures r >= 1
  {
    if k == 0 then 1 else 256 * Bytes256(k - 1)
  }

  lemma {:induction false} Bytes256Sum(i: nat, j: nat)
    ensures Bytes256(i + j) == Bytes256(i) * Bytes256(j)
    decreases i
  {
    if i > 0 {
      Bytes256Sum(i - 1, j);
      assert 256 * (Bytes256(i - 1) * Bytes256(j)) == (256 * Bytes256(i - 1)) * Bytes256(j);
    }
  }

  lemma {:induction false} Bytes256Monotone(i: nat, j: nat)
    requires i <= j
    ensures Bytes256(i) <= Bytes256(j)
    decreases j
  {
    if i < j {
      Bytes256Monotone(i, j - 1);
    }
  }
}
