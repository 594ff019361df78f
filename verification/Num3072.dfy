/** Arithmetic modulo p = 2^(32 n) - 1103717 on numbers of n 32-bit limbs (n is 96 in the source):
    schoolbook multiplication, two folds of the high part, one conditional subtraction.

    The statements hold for every number of limbs from two up, so none of them depends on the value 96. */
module Num3072 {
  import opened Arith
  import opened Limbs

  const PRIME_DIFF: int := 1103717

  type Num = s: seq<u32> | |s| >= 2 witness [0, 0]

  /** The modulus for n limbs. */
  ghost function Modulus(n: nat): int {
    Weight(n) - PRIME_DIFF
  }

  lemma ModulusBig(n: nat)
    requires n >= 2
    ensures Weight(n) >= 0x1_0000_0000_0000_0000
    ensures Modulus(n) > 2 * PRIME_DIFF * PRIME_DIFF
  {
    WeightMonotone(2, n);
    assert Weight(2) == BASE * Weight(1) && Weight(1) == BASE * Weight(0);
  }

  // ---------------------------------------------------------------------
  // What the multiplication returns, as arithmetic on integers
  // ---------------------------------------------------------------------

  /** Folding once: the part above 2^(32 n) comes back multiplied by PRIME_DIFF. */
  ghost function Fold(t: int, w: int): int
    requires w > 0
  {
    t % w + (t / w) * PRIME_DIFF
  }

  /** The carry out of the second fold, which the code drops. */
  ghost function DroppedCarry(t: int, w: int): int
    requires w > 0
  {
    Fold(Fold(t, w), w) / w
  }

  /** The final conditional subtraction. */
  ghost function ReduceOnceValue(x: int, w: int): int {
    if x >= w - PRIME_DIFF then x - (w - PRIME_DIFF) else x
  }

  /** The value returned for the product of `a` and `b`. */
  ghost function MulValue(a: int, b: int, w: int): int
    requires w > 0
  {
    ReduceOnceValue(Fold(Fold(a * b, w), w) % w, w)
  }

  /** A fold removes a multiple of the modulus. */
  lemma FoldCongruent(t: int, w: int)
    requires w > 0
    ensures t == Fold(t, w) + (t / w) * (w - PRIME_DIFF)
  {
    QuotientAndRest(t, w);
    ModulusMultiple(t / w, w);
  }

  lemma QuotientAndRest(t: int, w: int)
    requires w > 0
    ensures t == (t / w) * w + t % w
  {
  }

  lemma ModulusMultiple(q: int, w: int)
    ensures q * w == q * (w - PRIME_DIFF) + q * PRIME_DIFF
  {
  }

  lemma FoldBounds(t: int, w: int)
    requires w > 2 * PRIME_DIFF * PRIME_DIFF && 0 <= t < w * w
    ensures 0 <= Fold(t, w) < w * PRIME_DIFF + w
    ensures 0 <= Fold(t, w) / w <= PRIME_DIFF
    ensures 0 <= Fold(Fold(t, w), w) < 2 * w
    ensures 0 <= DroppedCarry(t, w) <= 1
  {
    var q := t / w;
    QuotientBound(t, w, w);
    var f := Fold(t, w);
    QuotientBound(f, w, PRIME_DIFF + 1);
    var g := Fold(f, w);
    QuotientBound(g, w, 2);
  }

  lemma QuotientBound(t: int, w: int, k: int)
    requires w > 0 && 0 <= t < w * k
    ensures 0 <= t / w < k
  {
    var q := t / w;
    assert t == q * w + t % w;
    if q < 0 {
      ProductBound(q, w);
    }
    if q >= k {
      MulMonotone(k, q, w);
    }
  }

  /** The multiple of the modulus that the two folds and the subtraction remove. */
  ghost function Removed(t: int, w: int): int
    requires w > 0
  {
    var f := Fold(t, w);
    var g := Fold(f, w);
    t / w + f / w + g / w + (if g % w >= w - PRIME_DIFF then 1 else 0)
  }

  lemma RemovedExact(t: int, w: int)
    requires w > 0
    ensures var g := Fold(Fold(t, w), w);
            t - DroppedCarry(t, w) * PRIME_DIFF == Removed(t, w) * (w - PRIME_DIFF) + ReduceOnceValue(g % w, w)
  {
    var p := w - PRIME_DIFF;
    var f := Fold(t, w);
    var g := Fold(f, w);
    var c, s := g / w, if g % w >= p then 1 else 0;
    FoldCongruent(t, w);
    FoldCongruent(f, w);
    QuotientAndRest(g, w);
    ModulusMultiple(c, w);
    SumTimes(t / w, f / w, c, s, p);
  }

  lemma SumTimes(a: int, b: int, c: int, d: int, p: int)
    ensures (a + b + c + d) * p == a * p + b * p + c * p + d * p
  {
  }

  /** The exact result: below the modulus, and the product less the dropped carry times PRIME_DIFF. */
  lemma MulValueExact(a: int, b: int, n: nat)
    requires n >= 2 && 0 <= a < Weight(n) && 0 <= b < Weight(n)
    ensures Modulus(n) > 0
    ensures 0 <= DroppedCarry(a * b, Weight(n)) <= 1
    ensures 0 <= MulValue(a, b, Weight(n)) < Modulus(n)
    ensures MulValue(a, b, Weight(n)) == (a * b - DroppedCarry(a * b, Weight(n)) * PRIME_DIFF) % Modulus(n)
  {
    var w := Weight(n);
    ModulusBig(n);
    ProductRange(a, b, w);
    FoldBounds(a * b, w);
    RemovedExact(a * b, w);
    UniqueModulus(a * b - DroppedCarry(a * b, w) * PRIME_DIFF, Removed(a * b, w), MulValue(a, b, w), Modulus(n));
  }

  lemma ProductRange(a: int, b: int, w: int)
    requires 0 <= a < w && 0 <= b < w
    ensures 0 <= a * b < w * w
  {
    MulNonneg(a, b);
    MulMonotone(a, w, b);
    MulMonotone(b, w, w);
    assert w * b == b * w;
    if a * b == w * w {
      MulMonotone(b + 1, w, w);
    }
  }

  /** It is the product modulo p exactly when no carry is dropped. */
  lemma MulValueCorrectIffNoCarry(a: int, b: int, n: nat)
    requires n >= 2 && 0 <= a < Weight(n) && 0 <= b < Weight(n)
    ensures Modulus(n) > 0
    ensures MulValue(a, b, Weight(n)) == (a * b) % Modulus(n) <==> DroppedCarry(a * b, Weight(n)) == 0
  {
    ModulusBig(n);
    MulValueExact(a, b, n);
    ShiftChangesRemainder(a * b, PRIME_DIFF, Modulus(n));
  }

  lemma ShiftChangesRemainder(t: int, d: int, p: int)
    requires 0 < d < p
    ensures (t - d) % p != t % p
  {
    var q, r := t / p, t % p;
    if r >= d {
      UniqueModulus(t - d, q, r - d, p);
    } else {
      assert t - d == (q - 1) * p + (r - d + p);
      UniqueModulus(t - d, q - 1, r - d + p, p);
    }
  }

  /** A carry is dropped on reduced operands: p - 1 times p - PRIME_DIFF is PRIME_DIFF modulo p, but comes out as 0. */
  lemma DroppedCarryHappens(n: nat)
    requires n >= 2
    ensures var p := Modulus(n);
            && 0 < p - 1 < p && 0 < p - PRIME_DIFF < p
            && DroppedCarry((p - 1) * (p - PRIME_DIFF), Weight(n)) == 1
            && MulValue(p - 1, p - PRIME_DIFF, Weight(n)) == 0
            && ((p - 1) * (p - PRIME_DIFF)) % p == PRIME_DIFF
  {
    ModulusBig(n);
    var w, p, d := Weight(n), Modulus(n), PRIME_DIFF;
    var t := (p - 1) * (p - d);
    CarryProduct(w);
    assert t == (w - d - 1) * (w - 2 * d);
    CarryFolds(t, w);
    CarryRemainder(p);
    UniqueModulus(t, p - 1 - d, d, p);
  }

  lemma CarryProduct(w: int)
    ensures (w - PRIME_DIFF - 1) * (w - 2 * PRIME_DIFF)
         == (w - 3 * PRIME_DIFF - 1) * w + 2 * PRIME_DIFF * (PRIME_DIFF + 1)
  {
  }

  lemma CarryRemainder(p: int)
    ensures (p - 1) * (p - PRIME_DIFF) == (p - 1 - PRIME_DIFF) * p + PRIME_DIFF
  {
  }

  /** Both folds of that product, the second of which is 2^(32 n) exactly. */
  lemma CarryFolds(t: int, w: int)
    requires w >= 0x1_0000_0000_0000_0000
    requires t == (w - 3 * PRIME_DIFF - 1) * w + 2 * PRIME_DIFF * (PRIME_DIFF + 1)
    ensures Fold(Fold(t, w), w) == w
    ensures DroppedCarry(t, w) == 1 && ReduceOnceValue(Fold(Fold(t, w), w) % w, w) == 0
  {
    var d := PRIME_DIFF;
    UniqueModulus(t, w - 3 * d - 1, 2 * d * (d + 1), w);
    var f := Fold(t, w);
    assert f == (d - 1) * w + (w - d * d + d);
    UniqueModulus(f, d - 1, w - d * d + d, w);
    UniqueModulus(w, 1, 0, w);
  }

  // ---------------------------------------------------------------------
  // The limb loops
  // ---------------------------------------------------------------------

  lemma {:induction false} AllOnesAbove(s: seq<int>)
    requires |s| >= 1 && forall i :: 1 <= i < |s| ==> s[i] == BASE - 1
    ensures Val(s) == s[0] + Weight(|s|) - BASE
  {
    var n := |s| - 1;
    if n == 0 {
      assert s[..0] == [];
      assert Weight(1) == BASE * Weight(0);
    } else {
      AllOnesAbove(s[..n]);
    }
  }

  /** A digit that is not all ones leaves room for its weight. */
  lemma RoomAbove(s: seq<int>, i: nat)
    requires Digits(s) && i < |s| && s[i] < BASE - 1
    ensures Val(s) < Weight(|s|) - Weight(i)
  {
    var x := s[i] + 1;
    var t := s[i := x];
    ValUpdate(s, i, x);
    assert Val(t) == Val(s) + 1 * Weight(i);
    assert Digits(t) && |t| == |s|;
    ValBound(t);
  }

  method IsOverflow(limbs: array<u32>) returns (overflow: bool)
    requires limbs.Length >= 2
    ensures overflow <==> Val(limbs[..]) >= Modulus(limbs.Length)
  {
    var i := limbs.Length - 1;
    while i >= 1
      invariant 0 <= i < limbs.Length
      invariant forall k :: i < k < limbs.Length ==> limbs[k] == BASE - 1
    {
      if limbs[i] < BASE - 1 {
        RoomAbove(limbs[..], i);
        WeightMonotone(1, i);
        assert Weight(1) == BASE * Weight(0);
        return false;
      }
      i := i - 1;
    }
    AllOnesAbove(limbs[..]);
    return limbs[0] >= BASE - PRIME_DIFF;
  }

  /** Adds a small number into the limbs, rippling the carry through all of them. */
  method PropagateCarry(limbs: array<u32>, start: u64) returns (carry: u64)
    requires start < 0x8000_0000_0000_0000
    modifies limbs
    ensures Val(limbs[..]) + carry * Weight(limbs.Length) == old(Val(limbs[..])) + start
  {
    carry := start;
    assert Weight(0) == 1;
    for i := 0 to limbs.Length
      invariant carry < 0x8000_0000_0000_0000
      invariant Val(limbs[..]) + carry * Weight(i) == old(Val(limbs[..])) + start
    {
      ghost var before: seq<int> := limbs[..];
      var sum: u64 := carry + limbs[i];
      CellStep(before, i, 0, carry);
      limbs[i] := sum % BASE;
      assert limbs[..] == before[i := sum % BASE];
      carry := sum / BASE;
    }
  }

  /** Subtracting p is adding PRIME_DIFF and dropping the carry. */
  method ReduceOnce(limbs: array<u32>)
    requires limbs.Length >= 2
    modifies limbs
    ensures Val(limbs[..]) == ReduceOnceValue(old(Val(limbs[..])), Weight(limbs.Length))
  {
    var overflow := IsOverflow(limbs);
    if overflow {
      ModulusBig(limbs.Length);
      ValBound(limbs[..]);
      var carry := PropagateCarry(limbs, PRIME_DIFF);
      ValBound(limbs[..]);
      CarryIsOne(Val(limbs[..]), carry, Weight(limbs.Length));
    }
  }

  lemma CarryIsOne(v: int, carry: int, w: int)
    requires w > 0 && carry >= 0 && 0 <= v < w <= v + carry * w < 2 * w
    ensures carry == 1
  {
    assert v + carry * w - w == v + (carry - 1) * w;
    ProductBound(carry - 1, w);
    ProductBound(carry, w);
  }

  /** Adds a digit product and a carry at one position; no sum exceeds 64 bits. */
  method AddCell(result: array<u64>, k: nat, x: u32, y: u32, carry: u64) returns (next: u64)
    requires k < result.Length && Digits(result[..]) && carry < BASE
    modifies result
    ensures Digits(result[..]) && next < BASE
    ensures forall m :: 0 <= m < result.Length && m != k ==> result[m] == old(result[m])
    ensures Val(result[..]) + next * Weight(k + 1) == old(Val(result[..])) + carry * Weight(k) + (x * y) * Weight(k)
  {
    ghost var before: seq<int> := result[..];
    DigitProduct(x, y);
    var prod: u64 := x * y + result[k] + carry;
    CellStep(before, k, x * y, carry);
    result[k] := prod % BASE;
    assert result[..] == before[k := prod % BASE];
    next := prod / BASE;
  }

  /** Adds `x` times `b` into the limbs of `result` from position `i` on, and passes on the last carry. */
  method AddProducts(result: array<u64>, i: nat, x: u32, b: Num) returns (carry: u64)
    requires result.Length == 2 * |b| && i < |b| && Digits(result[..])
    requires forall k :: i + |b| <= k < result.Length ==> result[k] == 0
    modifies result
    ensures carry < BASE && Digits(result[..])
    ensures forall k :: i + |b| <= k < result.Length ==> result[k] == 0
    ensures Val(result[..]) + carry * Weight(i + |b|) == old(Val(result[..])) + (x * Weight(i)) * Val(b)
  {
    carry := 0;
    ghost var factor, start := x * Weight(i), Val(result[..]);
    assert b[..0] == [];
    for j := 0 to |b|
      invariant carry < BASE && Digits(result[..])
      invariant forall k :: i + |b| <= k < result.Length ==> result[k] == 0
      invariant Val(result[..]) + carry * Weight(i + j) == start + factor * Val(b[..j])
    {
      RowStep(x, i, b, j);
      carry := AddCell(result, i + j, x, b[j], carry);
    }
    assert b[..|b|] == b;
  }

  /** One row of the schoolbook product: the products, and the last carry in the limb above them. */
  method AddRow(result: array<u64>, i: nat, x: u32, b: Num)
    requires result.Length == 2 * |b| && i < |b| && Digits(result[..])
    requires forall k :: i + |b| <= k < result.Length ==> result[k] == 0
    modifies result
    ensures Digits(result[..])
    ensures forall k :: i + |b| < k < result.Length ==> result[k] == 0
    ensures Val(result[..]) == old(Val(result[..])) + (x * Weight(i)) * Val(b)
  {
    var carry := AddProducts(result, i, x, b);
    ghost var before: seq<int> := result[..];
    ValUpdate(before, i + |b|, carry);
    result[i + |b|] := result[i + |b|] + carry;
    assert result[..] == before[i + |b| := carry];
  }

  /** Adding `p` and a carry at position `k`, keeping the low half and passing on the rest. */
  lemma CellStep(s: seq<int>, k: nat, p: int, carry: int)
    requires k < |s| && p + s[k] + carry >= 0
    ensures var t := p + s[k] + carry;
            Val(s[k := t % BASE]) + (t / BASE) * Weight(k + 1) == Val(s) + carry * Weight(k) + p * Weight(k)
  {
    var t := p + s[k] + carry;
    ValUpdate(s, k, t % BASE);
    CarryStep(Val(s), s[k], t, Weight(k));
    Distribute(t, s[k], Weight(k));
    RowCarry(p, s[k], carry, Weight(k));
  }

  lemma RowStep(x: int, i: nat, b: seq<int>, j: nat)
    requires j < |b|
    ensures (x * Weight(i)) * Val(b[..j + 1]) == (x * Weight(i)) * Val(b[..j]) + (x * b[j]) * Weight(i + j)
  {
    ValStep(b, j);
    WeightSum(i, j);
    CrossTerm(x, Weight(i), Val(b[..j]), b[j], Weight(j));
  }

  lemma DigitProduct(x: int, y: int)
    requires 0 <= x < BASE && 0 <= y < BASE
    ensures 0 <= x * y <= (BASE - 1) * (BASE - 1)
  {
    MulNonneg(x, y);
    MulMonotone(x, BASE - 1, y);
    MulMonotone(y, BASE - 1, BASE - 1);
  }

  lemma CrossTerm(x: int, wi: int, v: int, y: int, wj: int)
    ensures (x * wi) * (v + y * wj) == (x * wi) * v + (x * y) * (wi * wj)
  {
    calc {
      (x * wi) * (v + y * wj);
      (x * wi) * v + (x * wi) * (y * wj);
      { assert (x * wi) * (y * wj) == (x * y) * (wi * wj); }
      (x * wi) * v + (x * y) * (wi * wj);
    }
  }

  lemma RowCarry(p: int, r: int, c: int, w: int)
    ensures (p + r + c) * w == p * w + r * w + c * w
  {
  }

  lemma NextRow(a: seq<int>, i: nat, v: int)
    requires i < |a|
    ensures Val(a[..i + 1]) * v == Val(a[..i]) * v + (a[i] * Weight(i)) * v
  {
    ValStep(a, i);
    SumTimes(Val(a[..i]), a[i] * Weight(i), 0, 0, v);
  }

  /** The product modulo p of two numbers, up to the carry that the second fold drops. */
  method MulMod(a: Num, b: Num) returns (r: Num)
    requires |a| == |b|
    ensures |r| == |a| && Val(r) == MulValue(Val(a), Val(b), Weight(|a|))
  {
    var n := |a|;
    var result := new u64[2 * n](_ => 0);
    ValZeros(result[..]);
    assert a[..0] == [];
    for i := 0 to n
      invariant Digits(result[..])
      invariant forall k :: i + n <= k < 2 * n ==> result[k] == 0
      invariant Val(result[..]) == Val(a[..i]) * Val(b)
    {
      AddRow(result, i, a[i], b);
      NextRow(a, i, Val(b));
    }
    assert a[..n] == a;
    r := Reduce(result, n);
  }

  /** Reduces a double-width number modulo p. */
  method Reduce(wide: array<u64>, n: nat) returns (r: Num)
    requires n >= 2 && wide.Length == 2 * n && Digits(wide[..])
    ensures |r| == n
    ensures Val(r) == ReduceOnceValue(Fold(Fold(Val(wide[..]), Weight(n)), Weight(n)) % Weight(n), Weight(n))
  {
    var limbs, top := FoldHigh(wide, n);
    ghost var f := Fold(Val(wide[..]), Weight(n));
    ModulusBig(n);
    ValBound(limbs[..]);
    UniqueModulus(f, top, Val(limbs[..]), Weight(n));
    var dropped: u64 := 0;
    if top > 0 {
      TopSquare(top);
      dropped := PropagateCarry(limbs, top * PRIME_DIFF);
    }
    ValBound(limbs[..]);
    UniqueModulus(Fold(f, Weight(n)), dropped, Val(limbs[..]), Weight(n));
    ReduceOnce(limbs);
    r := limbs[..];
  }

  lemma TopSquare(top: int)
    requires 0 <= top <= PRIME_DIFF
    ensures 0 <= top * PRIME_DIFF <= PRIME_DIFF * PRIME_DIFF
  {
  }

  /** The first fold: the low half plus PRIME_DIFF times the high half, in n limbs and a top limb. */
  method FoldHigh(wide: array<u64>, n: nat) returns (limbs: array<u32>, top: u64)
    requires n >= 2 && wide.Length == 2 * n && Digits(wide[..])
    ensures fresh(limbs) && limbs.Length == n && top <= PRIME_DIFF
    ensures Val(limbs[..]) + top * Weight(n) == Fold(Val(wide[..]), Weight(n))
  {
    limbs := new u32[n];
    ghost var all := wide[..];
    ghost var lo, hi := all[..n], all[n..];
    for i := 0 to n
      invariant forall k :: 0 <= k < i ==> limbs[k] == wide[k]
    {
      limbs[i] := wide[i];
    }
    assert limbs[..] == lo;
    top := 0;
    assert hi[..0] == [];
    for i := 0 to n
      invariant top <= PRIME_DIFF
      invariant wide[..] == all
      invariant Val(limbs[..]) + top * Weight(i) == Val(lo) + PRIME_DIFF * Val(hi[..i])
    {
      ghost var before: seq<int> := limbs[..];
      assert hi[i] == wide[i + n];
      var add: u64 := wide[i + n] * PRIME_DIFF + limbs[i] + top;
      CellStep(before, i, hi[i] * PRIME_DIFF, top);
      ValStep(hi, i);
      ScaledDigit(PRIME_DIFF, Val(hi[..i]), hi[i], Weight(i));
      limbs[i] := add % BASE;
      assert limbs[..] == before[i := add % BASE];
      top := add / BASE;
    }
    assert hi[..n] == hi;
    ValSplit(all, n);
    ValBound(lo);
    UniqueModulus(Val(all), Val(hi), Val(lo), Weight(n));
  }

  lemma ScaledDigit(d: int, v: int, y: int, w: int)
    ensures d * (v + y * w) == d * v + (y * d) * w
  {
  }
}
