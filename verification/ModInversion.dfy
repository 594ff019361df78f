/** Inversion modulo p by raising to the power p - 2, most significant exponent bit first. */
module ModInversion {
  import opened Arith
  import opened Limbs
  import opened Modular
  import opened Num3072

  // ---------------------------------------------------------------------
  // Square and multiply
  // ---------------------------------------------------------------------

  /** What square-and-multiply computes from the multiplication as it is, dropped carries included. */
  ghost function SquareMultiply(a: int, e: int, w: int): int
    requires e >= 1 && w > 0
    decreases e
  {
    if e == 1 then a
    else
      var half := SquareMultiply(a, e / 2, w);
      var square := MulValue(half, half, w);
      if e % 2 == 1 then MulValue(square, a, w) else square
  }

  /** No multiplication of the run drops a carry. */
  ghost predicate CleanPower(a: int, e: int, w: int)
    requires e >= 1 && w > 0
    decreases e
  {
    e == 1 ||
    (var half := SquareMultiply(a, e / 2, w);
     && CleanPower(a, e / 2, w)
     && DroppedCarry(half * half, w) == 0
     && (e % 2 == 1 ==> DroppedCarry(MulValue(half, half, w) * a, w) == 0))
  }

  lemma {:induction false} SquareMultiplyRange(a: int, e: int, n: nat)
    requires e >= 1 && n >= 2 && 0 <= a < Modulus(n)
    ensures 0 <= SquareMultiply(a, e, Weight(n)) < Modulus(n)
    decreases e
  {
    ModulusBig(n);
    if e > 1 {
      var w := Weight(n);
      SquareMultiplyRange(a, e / 2, n);
      var half := SquareMultiply(a, e / 2, w);
      MulValueExact(half, half, n);
      MulValueExact(MulValue(half, half, w), a, n);
    }
  }

  lemma ModulusPositive(n: nat)
    requires n >= 2
    ensures Modulus(n) > 2
  {
    ModulusBig(n);
  }

  /** A clean multiplication of congruent values is congruent to the product. */
  lemma CleanMul(x: int, x': int, y: int, y': int, n: nat)
    requires n >= 2 && 0 <= x < Modulus(n) && 0 <= y < Modulus(n)
    requires Modulus(n) > 0 && x % Modulus(n) == x' % Modulus(n) && y % Modulus(n) == y' % Modulus(n)
    requires DroppedCarry(x * y, Weight(n)) == 0
    ensures MulValue(x, y, Weight(n)) == (x' * y') % Modulus(n)
  {
    MulValueCorrectIffNoCarry(x, y, n);
    ModMul(x, x', y, y', Modulus(n));
  }

  /** In a run without dropped carries the result is the power modulo p. */
  lemma {:induction false} CleanPowerIsPower(a: int, e: int, n: nat)
    requires e >= 1 && n >= 2 && 0 <= a < Modulus(n) && CleanPower(a, e, Weight(n))
    ensures Modulus(n) > 0 && SquareMultiply(a, e, Weight(n)) == Pow(a, e) % Modulus(n)
    decreases e
  {
    var w, p := Weight(n), Modulus(n);
    ModulusPositive(n);
    UniqueModulus(a, 0, a, p);
    if e == 1 {
      assert Pow(a, 1) == a * Pow(a, 0);
    } else {
      CleanPowerIsPower(a, e / 2, n);
      SquareMultiplyRange(a, e / 2, n);
      var half := SquareMultiply(a, e / 2, w);
      UniqueModulus(half, 0, half, p);
      CleanMul(half, Pow(a, e / 2), half, Pow(a, e / 2), n);
      PowAdd(a, e / 2, e / 2);
      if e % 2 == 1 {
        var square := MulValue(half, half, w);
        MulValueExact(half, half, n);
        UniqueModulus(square, 0, square, p);
        CleanMul(square, Pow(a, e - 1), a, a, n);
        assert Pow(a, e) == a * Pow(a, e - 1);
      }
    }
  }

  /** With p prime, such a run returns the inverse. */
  lemma CleanInverse(a: int, n: nat)
    requires n >= 2 && 0 < a < Modulus(n) && IsPrime(Modulus(n))
    requires CleanPower(a, Modulus(n) - 2, Weight(n))
    ensures (a * SquareMultiply(a, Modulus(n) - 2, Weight(n))) % Modulus(n) == 1
  {
    var p := Modulus(n);
    var inv := SquareMultiply(a, p - 2, Weight(n));
    CleanPowerIsPower(a, p - 2, n);
    Fermat(p, a);
    ModMod(Pow(a, p - 2), p);
    ModMul(a, a, inv, Pow(a, p - 2), p);
    assert Pow(a, p - 1) == a * Pow(a, p - 2);
  }

  // ---------------------------------------------------------------------
  // Reading the exponent bit by bit
  // ---------------------------------------------------------------------

  /** The exponent shifted right by `bit`. */
  ghost function TopBits(exp: seq<int>, bit: nat): int
    requires bit / 32 <= |exp|
  {
    Val(exp[bit / 32..]) / Pow2(bit % 32)
  }

  lemma {:induction false} Pow2Add(s: nat, t: nat)
    ensures Pow2(s + t) == Pow2(s) * Pow2(t)
    decreases s
  {
    if s > 0 {
      Pow2Add(s - 1, t);
      assert 2 * (Pow2(s - 1) * Pow2(t)) == (2 * Pow2(s - 1)) * Pow2(t);
    }
  }

  lemma Pow2Values()
    ensures Pow2(31) == 0x8000_0000 && Pow2(32) == BASE
  {
    assert Pow2(8) == 0x100;
    Pow2Add(8, 8);
    Pow2Add(16, 16);
    assert Pow2(32) == 2 * Pow2(31);
  }

  lemma HalveQuotient(x: int, m: int)
    requires m > 0
    ensures x / m == 2 * (x / (2 * m)) + (x / m) % 2
  {
    var q := x / m;
    var h, b := q / 2, q % 2;
    assert x == q * m + x % m;
    SplitProduct(h, b, m);
    UniqueModulus(x, h, x % m + b * m, 2 * m);
  }

  lemma SplitProduct(h: int, b: int, m: int)
    ensures (2 * h + b) * m == h * (2 * m) + b * m
  {
  }

  lemma QuotientShift(d: int, k: int, m: int)
    requires m > 0
    ensures (d + k * m) / m == d / m + k
  {
    assert (d / m + k) * m == (d / m) * m + k * m;
    UniqueModulus(d + k * m, d / m + k, d % m, m);
  }

  lemma Regroup(m: int, h: int, y: int)
    ensures (m * (2 * h)) * y == (2 * (h * y)) * m
  {
  }

  /** Limbs above do not reach the bits of the lowest limb. */
  lemma LowLimbBit(d: int, y: int, s: nat)
    requires s < 32
    ensures (d + BASE * y) / Pow2(s) == d / Pow2(s) + 2 * (Pow2(31 - s) * y)
  {
    Pow2Values();
    Pow2Add(s, 32 - s);
    assert Pow2(32 - s) == 2 * Pow2(31 - s);
    Regroup(Pow2(s), Pow2(31 - s), y);
    QuotientShift(d, 2 * (Pow2(31 - s) * y), Pow2(s));
  }

  lemma EvenShift(q: int, k: int)
    ensures (q + 2 * k) % 2 == q % 2
  {
  }

  lemma LowLimb(s: seq<int>)
    requires s != []
    ensures Val(s) == s[0] + BASE * Val(s[1..])
  {
    ValSplit(s, 1);
    assert s[..1] == [s[0]];
    assert Val([s[0]]) == Val([s[0]][..0]) + s[0] * Weight(0);
    assert [s[0]][..0] == [];
    assert Weight(1) == BASE * Weight(0);
  }

  /** Shifting by one bit less doubles and adds the bit that the limb test reads. */
  lemma TopBitsStep(exp: seq<int>, bit: nat)
    requires Digits(exp) && bit + 1 < 32 * |exp|
    ensures TopBits(exp, bit) == 2 * TopBits(exp, bit + 1) + (exp[bit / 32] / Pow2(bit % 32)) % 2
  {
    var l, s := bit / 32, bit % 32;
    if s < 31 {
      assert (bit + 1) / 32 == l && (bit + 1) % 32 == s + 1;
      BitWithinLimb(exp, l, s);
    } else {
      assert (bit + 1) / 32 == l + 1 && (bit + 1) % 32 == 0;
      TopBitOfLimb(exp, l);
    }
  }

  lemma BitWithinLimb(exp: seq<int>, l: nat, s: nat)
    requires Digits(exp) && l < |exp| && s < 31
    ensures Val(exp[l..]) / Pow2(s) == 2 * (Val(exp[l..]) / Pow2(s + 1)) + (exp[l] / Pow2(s)) % 2
  {
    var y, d := Val(exp[l + 1..]), exp[l];
    LowLimb(exp[l..]);
    assert exp[l..][1..] == exp[l + 1..];
    LowLimbBit(d, y, s);
    EvenShift(d / Pow2(s), Pow2(31 - s) * y);
    HalveQuotient(Val(exp[l..]), Pow2(s));
  }

  lemma TopBitOfLimb(exp: seq<int>, l: nat)
    requires Digits(exp) && l < |exp|
    ensures Val(exp[l..]) / Pow2(31) == 2 * (Val(exp[l + 1..]) / Pow2(0)) + (exp[l] / Pow2(31)) % 2
  {
    var y, d := Val(exp[l + 1..]), exp[l];
    LowLimb(exp[l..]);
    assert exp[l..][1..] == exp[l + 1..];
    LowLimbBit(d, y, 31);
    Pow2Values();
    TopBitSmall(d);
  }

  lemma SquareMultiplyStep(a: int, e: int, bit: int, w: int)
    requires e >= 1 && w > 0 && 0 <= bit < 2
    ensures var half := SquareMultiply(a, e, w);
            SquareMultiply(a, 2 * e + bit, w)
            == if bit == 1 then MulValue(MulValue(half, half, w), a, w) else MulValue(half, half, w)
  {
    assert (2 * e + bit) / 2 == e && (2 * e + bit) % 2 == bit;
  }

  method SquareThenMultiply(half: Num, a: Num, multiply: bool) returns (r: Num)
    requires |half| == |a|
    ensures |r| == |a|
    ensures var w := Weight(|a|); var square := MulValue(Val(half), Val(half), w);
            Val(r) == if multiply then MulValue(square, Val(a), w) else square
  {
    r := MulMod(half, half);
    if multiply {
      r := MulMod(r, a);
    }
  }

  /** The bit that the limb test reads. */
  function ExponentBit(exp: seq<int>, bit: nat): (b: int)
    requires bit < 32 * |exp|
    ensures 0 <= b < 2
  {
    (exp[bit / 32] / Pow2(bit % 32)) % 2
  }

  lemma PowerStep(a: int, exp: seq<int>, bit: nat, w: int)
    requires Digits(exp) && bit + 1 < 32 * |exp| && w > 0 && TopBits(exp, bit + 1) >= 1
    ensures TopBits(exp, bit) >= 1
    ensures var half := SquareMultiply(a, TopBits(exp, bit + 1), w);
            SquareMultiply(a, TopBits(exp, bit), w)
            == if ExponentBit(exp, bit) == 1 then MulValue(MulValue(half, half, w), a, w) else MulValue(half, half, w)
  {
    TopBitsStep(exp, bit);
    SquareMultiplyStep(a, TopBits(exp, bit + 1), ExponentBit(exp, bit), w);
  }

  /** Square and multiply from the bit below the top one down, for any exponent whose top bit is set. */
  method Power(a: Num, exp: seq<u32>) returns (r: Num)
    requires |exp| == |a| && TopBits(exp, 32 * |exp| - 1) == 1
    ensures |r| == |a| && TopBits(exp, 0) >= 1
    ensures Val(r) == SquareMultiply(Val(a), TopBits(exp, 0), Weight(|a|))
  {
    r := a;
    for bit := 32 * |a| - 1 downto 0
      invariant |r| == |a| && TopBits(exp, bit) >= 1
      invariant Val(r) == SquareMultiply(Val(a), TopBits(exp, bit), Weight(|a|))
    {
      PowerStep(Val(a), exp, bit, Weight(|a|));
      r := SquareThenMultiply(r, a, ExponentBit(exp, bit) == 1);
    }
  }

  method ModInverse(a: Num) returns (r: Num)
    ensures |r| == |a| && Modulus(|a|) > 2
    ensures Val(r) == SquareMultiply(Val(a), Modulus(|a|) - 2, Weight(|a|))
  {
    var n := |a|;
    var exp: seq<u32> := seq(n, i => if i == 0 then BASE - 1 - (PRIME_DIFF + 1) else BASE - 1);
    ModulusPositive(n);
    AllOnesAbove(exp);
    TopBit(exp);
    r := Power(a, exp);
    assert exp[0..] == exp && TopBits(exp, 0) == Val(exp);
  }

  lemma TopBit(exp: seq<int>)
    requires exp != [] && exp[|exp| - 1] == BASE - 1
    ensures TopBits(exp, 32 * |exp| - 1) == 1
  {
    var n := |exp|;
    assert (32 * n - 1) / 32 == n - 1 && (32 * n - 1) % 32 == 31;
    var last := exp[n - 1..];
    assert last == [BASE - 1] && last[..0] == [];
    assert Val(last) == Val(last[..0]) + (BASE - 1) * Weight(0);
    Pow2Values();
  }

  lemma TopBitSmall(d: int)
    requires 0 <= d < BASE
    ensures (d / 0x8000_0000) % 2 == d / 0x8000_0000
  {
  }
}
