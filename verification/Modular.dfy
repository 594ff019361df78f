/** Arithmetic modulo a prime: products, powers, and Fermat's little theorem. */
module Modular {
  import opened Arith
  import opened Wrappers

  ghost predicate IsPrime(p: int) {
    p >= 2 && forall d :: 2 <= d < p ==> p % d != 0
  }

  ghost function Pow(a: int, e: nat): int {
    if e == 0 then 1 else a * Pow(a, e - 1)
  }

  ghost function Prod(s: seq<int>): int {
    if s == [] then 1 else s[0] * Prod(s[1..])
  }

  // ---------------------------------------------------------------------
  // Remainders
  // ---------------------------------------------------------------------

  lemma SameRemainder(x: int, y: int, k: int, p: int)
    requires p > 0 && x == y + k * p
    ensures x % p == y % p
  {
    assert x == (y / p + k) * p + y % p;
    UniqueModulus(x, y / p + k, y % p, p);
  }

  lemma DivisibleDifference(x: int, y: int, p: int)
    requires p > 0
    ensures x % p == y % p <==> (x - y) % p == 0
  {
    if x % p == y % p {
      assert x - y == (x / p - y / p) * p;
      MultipleModulus(x / p - y / p, p);
    } else if (x - y) % p == 0 {
      SameRemainder(x, y, (x - y) / p, p);
    }
  }

  /** Factors may be replaced by anything congruent to them. */
  lemma ModMul(x: int, x': int, y: int, y': int, p: int)
    requires p > 0 && x % p == x' % p && y % p == y' % p
    ensures (x * y) % p == (x' * y') % p
  {
    var j, k := x / p - x' / p, y / p - y' / p;
    assert x == x' + j * p && y == y' + k * p;
    CrossMultiple(x', j, y', k, p);
    SameRemainder(x * y, x' * y', x' * k + j * y' + j * k * p, p);
  }

  lemma CrossMultiple(x: int, j: int, y: int, k: int, p: int)
    ensures (x + j * p) * (y + k * p) == x * y + (x * k + j * y + j * k * p) * p
  {
    calc {
      (x + j * p) * (y + k * p);
      x * (y + k * p) + (j * p) * (y + k * p);
      x * y + x * (k * p) + (j * p) * y + (j * p) * (k * p);
      { assert (j * p) * y == (j * y) * p;
        assert x * (k * p) == (x * k) * p;
        assert (j * p) * (k * p) == (j * k * p) * p; }
      x * y + (x * k) * p + (j * y) * p + (j * k * p) * p;
    }
  }

  lemma ModMod(x: int, p: int)
    requires p > 0
    ensures (x % p) % p == x % p
  {
    UniqueModulus(x % p, 0, x % p, p);
  }

  lemma ModMulReduced(x: int, y: int, p: int)
    requires p > 0
    ensures ((x % p) * (y % p)) % p == (x * y) % p
  {
    ModMod(x, p);
    ModMod(y, p);
    ModMul(x % p, x, y % p, y, p);
  }

  // ---------------------------------------------------------------------
  // Powers and products
  // ---------------------------------------------------------------------

  lemma {:induction false} PowAdd(a: int, d: nat, e: nat)
    ensures Pow(a, d + e) == Pow(a, d) * Pow(a, e)
    decreases d
  {
    if d > 0 {
      PowAdd(a, d - 1, e);
      assert a * (Pow(a, d - 1) * Pow(a, e)) == (a * Pow(a, d - 1)) * Pow(a, e);
    }
  }

  lemma {:induction false} ProdAppend(s: seq<int>, t: seq<int>)
    ensures Prod(s + t) == Prod(s) * Prod(t)
  {
    if s == [] {
      assert s + t == t;
    } else {
      ProdAppend(s[1..], t);
      assert (s + t)[1..] == s[1..] + t;
      assert s[0] * (Prod(s[1..]) * Prod(t)) == (s[0] * Prod(s[1..])) * Prod(t);
    }
  }

  /** Everything but the entry at `k`. */
  ghost function Without(s: seq<int>, k: nat): seq<int>
    requires k < |s|
  {
    s[..k] + s[k + 1..]
  }

  lemma Exchange(x: int, y: int, z: int)
    ensures x * (y * z) == y * (x * z)
  {
  }

  lemma {:induction false} ProdPullOut(s: seq<int>, k: nat)
    requires k < |s|
    ensures Prod(s) == s[k] * Prod(Without(s, k))
    decreases k
  {
    if k == 0 {
      assert Without(s, 0) == s[1..];
    } else {
      ProdPullOut(s[1..], k - 1);
      var rest := Without(s[1..], k - 1);
      assert Without(s, k)[1..] == rest;
      assert Prod(Without(s, k)) == s[0] * Prod(rest);
      Exchange(s[0], s[k], Prod(rest));
    }
  }

  lemma RemoveFromBoth(s: seq<int>, t: seq<int>, k: nat)
    requires s != [] && multiset(s) == multiset(t) && k < |t| && t[k] == s[0]
    ensures multiset(s[1..]) == multiset(Without(t, k))
  {
    assert t == t[..k] + [t[k]] + t[k + 1..];
    assert s == [s[0]] + s[1..];
    assert multiset(s[1..]) == multiset(s) - multiset{s[0]};
    assert multiset(Without(t, k)) == multiset(t) - multiset{t[k]};
  }

  /** A product does not depend on the order of its factors. */
  lemma {:induction false} ProdPermutation(s: seq<int>, t: seq<int>)
    requires multiset(s) == multiset(t)
    ensures Prod(s) == Prod(t)
    decreases |s|
  {
    if s == [] {
      assert |multiset(t)| == 0;
    } else {
      assert s[0] in multiset(t);
      var k :| 0 <= k < |t| && t[k] == s[0];
      RemoveFromBoth(s, t, k);
      ProdPermutation(s[1..], Without(t, k));
      ProdPullOut(t, k);
    }
  }

  // ---------------------------------------------------------------------
  // Primes
  // ---------------------------------------------------------------------

  /** Euclid: a prime that divides a product divides one factor. */
  lemma {:induction false} Euclid(p: int, a: int, b: int)
    requires IsPrime(p) && 0 < a < p && (a * b) % p == 0
    ensures b % p == 0
    decreases a
  {
    if a > 1 {
      var q, r := p / a, p % a;
      assert p == q * a + r && 0 < r < a;
      assert r * b == b * p - q * (a * b);
      var m := (a * b) / p;
      assert a * b == m * p;
      assert r * b == (b - q * m) * p;
      MultipleModulus(b - q * m, p);
      Euclid(p, r, b);
    }
  }

  lemma Cancel(p: int, a: int, x: int, y: int)
    requires IsPrime(p) && 0 < a < p && (a * x) % p == (a * y) % p
    ensures x % p == y % p
  {
    DivisibleDifference(a * x, a * y, p);
    assert a * x - a * y == a * (x - y);
    Euclid(p, a, x - y);
    DivisibleDifference(x, y, p);
  }

  lemma {:induction false} ProdNotDivisible(p: int, s: seq<int>)
    requires IsPrime(p) && forall i :: 0 <= i < |s| ==> 0 < s[i] < p
    ensures Prod(s) % p != 0
  {
    if s == [] {
      UniqueModulus(1, 0, 1, p);
    } else {
      ProdNotDivisible(p, s[1..]);
      if Prod(s) % p == 0 {
        Euclid(p, s[0], Prod(s[1..]));
      }
    }
  }

  /** 1, 2, ..., m. */
  ghost function UpTo(m: nat): (s: seq<int>)
    ensures |s| == m && forall i :: 0 <= i < m ==> s[i] == i + 1
  {
    seq(m, i => i + 1)
  }

  /** Each factor multiplied by `a` and reduced. */
  ghost function Scaled(a: int, s: seq<int>, p: int): (t: seq<int>)
    requires p > 0
    ensures |t| == |s| && forall i :: 0 <= i < |s| ==> t[i] == (a * s[i]) % p
  {
    if s == [] then [] else [(a * s[0]) % p] + Scaled(a, s[1..], p)
  }

  lemma {:induction false} ScaledProd(a: int, s: seq<int>, p: int)
    requires p > 0
    ensures Prod(Scaled(a, s, p)) % p == (Pow(a, |s|) * Prod(s)) % p
  {
    if s != [] {
      ScaledProd(a, s[1..], p);
      var t := Scaled(a, s, p);
      assert t[1..] == Scaled(a, s[1..], p);
      ModMod(a * s[0], p);
      ModMul((a * s[0]) % p, a * s[0], Prod(t[1..]), Pow(a, |s| - 1) * Prod(s[1..]), p);
      var x, y, u, v := a, s[0], Pow(a, |s| - 1), Prod(s[1..]);
      assert (x * y) * (u * v) == (x * u) * (y * v);
    }
  }

  lemma {:induction false} DistinctCount(s: seq<int>, x: int)
    requires Distinct(s)
    ensures multiset(s)[x] == if x in s then 1 else 0
  {
    if s != [] {
      DistinctCount(s[1..], x);
      assert s == [s[0]] + s[1..];
    }
  }

  lemma {:induction false} DistinctSize(s: seq<int>)
    requires Distinct(s)
    ensures |(set x | x in s)| == |s|
  {
    if s != [] {
      DistinctSize(s[1..]);
      assert (set x | x in s) == {s[0]} + set x | x in s[1..];
    }
  }

  lemma SubsetOfSameSize(a: set<int>, b: set<int>)
    requires a <= b && |a| == |b|
    ensures a == b
  {
    assert |b - a| == |b| - |a|;
  }

  /** Distinct numbers filling the range 1..m are a permutation of it. */
  lemma Pigeonhole(t: seq<int>)
    requires Distinct(t) && forall i :: 0 <= i < |t| ==> 1 <= t[i] <= |t|
    ensures multiset(t) == multiset(UpTo(|t|))
  {
    var s := UpTo(|t|);
    DistinctSize(s);
    DistinctSize(t);
    var range, image := set x | x in s, set x | x in t;
    forall x | x in t ensures x in s {
      var i :| 0 <= i < |t| && t[i] == x;
      assert s[x - 1] == x;
    }
    SubsetOfSameSize(image, range);
    forall x ensures multiset(t)[x] == multiset(s)[x] {
      DistinctCount(s, x);
      DistinctCount(t, x);
      assert x in t <==> x in image;
      assert x in s <==> x in range;
    }
  }

  lemma ScaledNonzero(p: int, a: int, x: int)
    requires IsPrime(p) && 0 < a < p && 0 < x < p
    ensures 1 <= (a * x) % p <= p - 1
  {
    if (a * x) % p == 0 {
      Euclid(p, a, x);
      UniqueModulus(x, 0, x, p);
    }
  }

  lemma ScaledInjective(p: int, a: int, x: int, y: int)
    requires IsPrime(p) && 0 < a < p && 0 < x < p && 0 < y < p && (a * x) % p == (a * y) % p
    ensures x == y
  {
    Cancel(p, a, x, y);
    UniqueModulus(x, 0, x, p);
    UniqueModulus(y, 0, y, p);
  }

  lemma ScaledIsPermutation(p: int, a: int)
    requires IsPrime(p) && 0 < a < p
    ensures multiset(Scaled(a, UpTo(p - 1), p)) == multiset(UpTo(p - 1))
  {
    var s := UpTo(p - 1);
    var t := Scaled(a, s, p);
    forall i | 0 <= i < |t| ensures 1 <= t[i] <= |t| {
      ScaledNonzero(p, a, s[i]);
    }
    forall i, j | 0 <= i < j < |t| ensures t[i] != t[j] {
      if t[i] == t[j] {
        ScaledInjective(p, a, s[i], s[j]);
      }
    }
    Pigeonhole(t);
  }

  /** Fermat: raising a nonzero residue to the power p - 1 gives 1. */
  lemma Fermat(p: int, a: int)
    requires IsPrime(p) && 0 < a < p
    ensures Pow(a, p - 1) % p == 1
  {
    var s := UpTo(p - 1);
    var t := Scaled(a, s, p);
    ScaledIsPermutation(p, a);
    ProdPermutation(t, s);
    ScaledProd(a, s, p);
    ProdNotDivisible(p, s);
    var q := Prod(s);
    assert (q * Pow(a, p - 1)) % p == (q * 1) % p by {
      assert Pow(a, p - 1) * q == q * Pow(a, p - 1);
    }
    ModMod(q, p);
    ModMul(q % p, q, Pow(a, p - 1), Pow(a, p - 1), p);
    ModMul(q % p, q, 1, 1, p);
    Cancel(p, q % p, Pow(a, p - 1), 1);
    UniqueModulus(1, 0, 1, p);
  }

  // ---------------------------------------------------------------------
  // Quotients
  // ---------------------------------------------------------------------

  /** Multiplying by an inverse divides. */
  lemma InverseDivides(num: int, ins: int, den: int, rem: int, inv: int, p: int)
    requires p > 1 && num % p == ins % p && den % p == rem % p && (den * inv) % p == 1
    ensures (rem * ((num * inv) % p)) % p == ins % p
  {
    var r := (num * inv) % p;
    ModMod(num * inv, p);
    ModMul(rem, den, r, num * inv, p);
    Exchange(den, num, inv);
    UniqueModulus(1, 0, 1, p);
    ModMul(num, ins, den * inv, 1, p);
  }

  lemma NonzeroProduct(p: int, a: int, b: int)
    requires IsPrime(p) && a % p != 0 && b % p != 0
    ensures (a * b) % p != 0
  {
    ModMulReduced(a, b, p);
    if (a * b) % p == 0 {
      Euclid(p, a % p, b % p);
      ModMod(b, p);
    }
  }

  lemma CrossedFactors(a: int, b: int, r: int)
    ensures (a * r) * b == (a * b) * r && (b * r) * a == (a * b) * r
  {
    Exchange(b, a, r);
  }

  lemma CancelResidue(p: int, m: int, r: int, s: int)
    requires IsPrime(p) && m % p != 0 && (m * r) % p == (m * s) % p && 0 <= r < p && 0 <= s < p
    ensures r == s
  {
    ModMod(m, p);
    ModMul(m % p, m, r, r, p);
    ModMul(m % p, m, s, s, p);
    Cancel(p, m % p, r, s);
    UniqueModulus(r, 0, r, p);
    UniqueModulus(s, 0, s, p);
  }

  /** A quotient modulo a prime is unique. */
  lemma QuotientUnique(p: int, a: int, i: int, r: int, b: int, j: int, s: int)
    requires IsPrime(p) && a % p != 0 && b % p != 0 && 0 <= r < p && 0 <= s < p
    requires (a * r) % p == i % p && (b * s) % p == j % p && i * b == j * a
    ensures r == s
  {
    ModMul(a * r, i, b, b, p);
    ModMul(b * s, j, a, a, p);
    CrossedFactors(a, b, r);
    CrossedFactors(a, b, s);
    NonzeroProduct(p, a, b);
    CancelResidue(p, a * b, r, s);
  }
}
