/** The compact (`nBits`) form of 256-bit targets: one size byte, one sign bit, 23 bits of mantissa. */
module Compact {
  import opened Arith

  const TWO_256: int := 0x1_0000_0000_0000_0000_0000_0000_0000_0000_0000_0000_0000_0000_0000_0000_0000_0000

  datatype Decoded = Decoded(target: int, negative: bool, overflow: bool)

  /** Shifts wrap at 256 bits; the sign and the overflow are reported, not applied. */
  function SetCompact(compact: int): (d: Decoded)
    requires 0 <= compact < 0x1_0000_0000
    ensures 0 <= d.target < TWO_256
  {
    var size := compact / 0x100_0000;
    var word := compact % 0x80_0000;
    var signBit := (compact / 0x80_0000) % 2 == 1;
    var kept := if size <= 3 then word / Bytes256(3 - size) else word;
    KeptRange(word, size);
    Decoded(
      if size <= 3 then kept else (word * Bytes256(size - 3)) % TWO_256,
      kept != 0 && signBit,
      kept != 0 && (size > 34 || (kept > 0xff && size > 33) || (kept > 0xffff && size > 32)))
  }

  lemma KeptRange(word: int, size: int)
    requires 0 <= word < 0x80_0000 && 0 <= size
    ensures size <= 3 ==> 0 <= word / Bytes256(3 - size) < 0x80_0000
  {
    if size <= 3 {
      DivBounds(word, Bytes256(3 - size));
    }
  }

  lemma DivBounds(x: int, m: int)
    requires x >= 0 && m >= 1
    ensures 0 <= x / m <= x
  {
    var q := x / m;
    assert x == q * m + x % m;
    if q < 0 {
      ProductBound(q, m);
    } else {
      MulMonotone(1, m, q);
    }
  }

  /** The number of bytes of a number. */
  function ByteLength(v: nat): (n: nat)
    ensures v < Bytes256(n)
    ensures n > 0 ==> Bytes256(n - 1) <= v
    ensures v == 0 <==> n == 0
  {
    if v == 0 then 0 else 1 + ByteLength(v / 256)
  }

  function GetCompact(v: nat): int {
    var size := ByteLength(v);
    var mantissa := if size <= 3 then v * Bytes256(3 - size) else v / Bytes256(size - 3);
    if mantissa >= 0x80_0000 then mantissa / 256 + (size + 1) * 0x100_0000
    else mantissa + size * 0x100_0000
  }

  // ---------------------------------------------------------------------
  // Encoding rounds down to 23 significant bits
  // ---------------------------------------------------------------------

  /** Bytes needed to keep the top bit clear. */
  ghost function SignedLength(v: nat): (m: nat) {
    if v == 0 then 0
    else
      var n := ByteLength(v);
      if v >= 0x80 * Bytes256(n - 1) then n + 1 else n
  }

  /** The weight of the last byte that survives. */
  ghost function Unit(v: nat): (u: int)
    ensures u >= 1
  {
    if SignedLength(v) <= 3 then 1 else Bytes256(SignedLength(v) - 3)
  }

  ghost function RoundDown(v: nat): (r: int) {
    (v / Unit(v)) * Unit(v)
  }

  lemma {:induction false} Bytes256Strict(i: nat, j: nat)
    requires Bytes256(i) < Bytes256(j)
    ensures i < j
  {
    if j <= i {
      Bytes256Monotone(j, i);
    }
  }

  /** SignedLength is the least size whose top bit stays clear. */
  lemma SignedLengthBounds(v: nat)
    requires v > 0
    ensures SignedLength(v) >= 1 && 2 * v < Bytes256(SignedLength(v))
    ensures SignedLength(v) >= 2 ==> 2 * v >= Bytes256(SignedLength(v) - 1)
  {
    var n := ByteLength(v);
    assert Bytes256(n) == 256 * Bytes256(n - 1);
    assert Bytes256(n + 1) == 256 * Bytes256(n);
  }

  lemma SignedLengthLeast(v: nat, m: nat)
    requires 2 * v < Bytes256(m)
    ensures SignedLength(v) <= m || (v == 0 && SignedLength(v) == 0) || (m == 0 && v == 0)
  {
    if v > 0 {
      SignedLengthBounds(v);
      var k := SignedLength(v);
      if k >= 2 {
        Bytes256Strict(k - 1, m);
      } else {
        assert Bytes256(0) == 1;
      }
    }
  }

  lemma SignedLengthMonotone(v: nat, w: nat)
    requires v <= w
    ensures SignedLength(v) <= SignedLength(w)
    ensures Unit(v) <= Unit(w)
  {
    if v > 0 {
      SignedLengthBounds(w);
      SignedLengthLeast(v, SignedLength(w));
      if SignedLength(v) > 3 {
        Bytes256Monotone(SignedLength(v) - 3, SignedLength(w) - 3);
      }
    }
  }

  lemma FloorMultiple(v: int, u: int)
    requires v >= 0 && u >= 1
    ensures 0 <= (v / u) * u <= v < (v / u) * u + u
  {
    DivBounds(v, u);
    MulNonneg(v / u, u);
  }

  /** A multiple of the unit below `v` is not above the rounded value. */
  lemma FloorGreatest(v: int, u: int, k: int)
    requires u >= 1 && k * u <= v
    ensures k * u <= (v / u) * u
  {
    var q := v / u;
    assert v == q * u + v % u;
    assert (k - q) * u == k * u - q * u;
    ProductBound(k - q, u);
    MulMonotone(k, q, u);
  }

  lemma RoundDownBounds(v: nat)
    ensures 0 <= RoundDown(v) <= v
  {
    FloorMultiple(v, Unit(v));
  }

  /** Rounding preserves order, although larger targets are rounded more coarsely. */
  lemma RoundDownMonotone(v: nat, w: nat)
    requires v <= w
    ensures RoundDown(v) <= RoundDown(w)
  {
    SignedLengthMonotone(v, w);
    FloorMultiple(v, Unit(v));
    if Unit(v) == Unit(w) {
      FloorGreatest(w, Unit(w), v / Unit(v));
    } else {
      var k := SignedLength(w);
      SignedLengthBounds(w);
      if v > 0 {
        SignedLengthBounds(v);
        Bytes256Monotone(SignedLength(v), k - 1);
      }
      assert Bytes256(k - 1) == 256 * Bytes256(k - 2) && Bytes256(k - 2) == 256 * Bytes256(k - 3);
      FloorGreatest(w, Unit(w), 0x8000);
    }
  }

  // ---------------------------------------------------------------------
  // Decoding an encoding
  // ---------------------------------------------------------------------

  lemma Size256()
    ensures Bytes256(32) == TWO_256
  {
    assert Bytes256(4) == 0x1_0000_0000;
    Bytes256Sum(4, 4);
    Bytes256Sum(8, 8);
    Bytes256Sum(16, 16);
  }

  lemma ByteLengthAtMost32(v: nat)
    requires v < TWO_256
    ensures ByteLength(v) <= 32
  {
    Size256();
    if ByteLength(v) > 32 {
      Bytes256Monotone(32, ByteLength(v) - 1);
    }
  }

  /** Reading back size and mantissa. */
  lemma SplitCompact(mantissa: int, size: int)
    requires 0 <= mantissa < 0x80_0000 && 0 <= size < 256
    ensures var compact := mantissa + size * 0x100_0000;
            && 0 <= compact < 0x1_0000_0000
            && compact / 0x100_0000 == size && compact % 0x80_0000 == mantissa && (compact / 0x80_0000) % 2 == 0
  {
    var compact := mantissa + size * 0x100_0000;
    UniqueModulus(compact, size, mantissa, 0x100_0000);
    UniqueModulus(compact, 2 * size, mantissa, 0x80_0000);
  }

  lemma CancelFactor(v: int, m: int)
    requires m >= 1
    ensures (v * m) / m == v
  {
    UniqueModulus(v * m, v, 0, m);
  }

  lemma DivDiv(v: int, m: int)
    requires m >= 1 && v >= 0
    ensures (v / m) / 256 == v / (256 * m)
  {
    var q, r := v / m, v % m;
    var a, b := q / 256, q % 256;
    assert v == q * m + r && q == a * 256 + b;
    assert q * m == a * (256 * m) + b * m;
    MulMonotone(b, 255, m);
    MulNonneg(b, m);
    UniqueModulus(v, a, b * m + r, 256 * m);
  }

  /** Small targets keep every bit. */
  lemma SmallCompact(v: nat)
    requires 0 < v && SignedLength(v) <= 3
    ensures var compact := GetCompact(v);
            0 <= compact < 0x1_0000_0000 && SetCompact(compact) == Decoded(v, false, false)
  {
    var m := SignedLength(v);
    SignedLengthBounds(v);
    SmallWord(v, m);
    SmallEncoding(v);
    SplitCompact(v * Bytes256(3 - m), m);
  }

  lemma SmallPowers()
    ensures Bytes256(0) == 1 && Bytes256(1) == 0x100 && Bytes256(2) == 0x1_0000 && Bytes256(3) == 0x100_0000
  {
  }

  lemma SmallWord(v: nat, m: nat)
    requires 0 < v && 1 <= m <= 3 && 2 * v < Bytes256(m)
    ensures 0 < v * Bytes256(3 - m) < 0x80_0000 && (v * Bytes256(3 - m)) / Bytes256(3 - m) == v
  {
    SmallPowers();
    CancelFactor(v, Bytes256(3 - m));
    if m == 1 {
      assert v * Bytes256(2) == v * 0x1_0000;
    } else if m == 2 {
      assert v * Bytes256(1) == v * 0x100;
    }
  }

  /** The mantissa takes one more byte exactly when its top bit would be the sign. */
  lemma SmallEncoding(v: nat)
    requires 0 < v && SignedLength(v) <= 3
    ensures GetCompact(v) == v * Bytes256(3 - SignedLength(v)) + SignedLength(v) * 0x100_0000
  {
    SmallPowers();
    var n := ByteLength(v);
    if n == 1 {
      assert v * Bytes256(2) == v * 0x1_0000;
    } else if n == 2 {
      assert v * Bytes256(1) == v * 0x100;
    }
  }

  lemma LargeEncoding(v: nat)
    requires SignedLength(v) > 3
    ensures GetCompact(v) == v / Bytes256(SignedLength(v) - 3) + SignedLength(v) * 0x100_0000
  {
    var n := ByteLength(v);
    SmallPowers();
    LargeMantissa(v, n);
    MantissaOf(v, n);
    if SignedLength(v) == n + 1 {
      DivDiv(v, Bytes256(n - 3));
    }
  }

  /** With three bytes or more the mantissa is what is left of the low bytes' removal. */
  lemma MantissaOf(v: nat, n: nat)
    requires n == ByteLength(v) >= 3
    ensures var mantissa := v / Bytes256(n - 3);
            GetCompact(v) == if mantissa >= 0x80_0000 then mantissa / 256 + (n + 1) * 0x100_0000
                             else mantissa + n * 0x100_0000
  {
    if n == 3 {
      SmallPowers();
      assert v * Bytes256(0) == v && v / Bytes256(0) == v;
    }
  }

  lemma DecodeLarge(word: int, size: int)
    requires 0 < word < 0x80_0000 && 3 < size <= 33 && (size == 33 ==> word <= 0xffff)
    requires word * Bytes256(size - 3) < TWO_256
    ensures var compact := word + size * 0x100_0000;
            && 0 <= compact < 0x1_0000_0000
            && SetCompact(compact) == Decoded(word * Bytes256(size - 3), false, false)
  {
    SplitCompact(word, size);
    MulNonneg(word, Bytes256(size - 3));
    UniqueModulus(word * Bytes256(size - 3), 0, word * Bytes256(size - 3), TWO_256);
  }

  /** Large targets keep their leading 23 bits. */
  lemma LargeCompact(v: nat)
    requires v < TWO_256 && SignedLength(v) > 3
    ensures var compact := GetCompact(v);
            0 <= compact < 0x1_0000_0000 && SetCompact(compact) == Decoded(RoundDown(v), false, false)
  {
    var m := SignedLength(v);
    ByteLengthAtMost32(v);
    LargeWord(v, m);
    LargeEncoding(v);
    RoundDownBounds(v);
    TopWord(v);
    DecodeLarge(v / Bytes256(m - 3), m);
  }

  lemma LargeWord(v: nat, m: nat)
    requires v > 0 && m == SignedLength(v) > 3
    ensures 0 < v / Bytes256(m - 3) < 0x80_0000
  {
    var u := Bytes256(m - 3);
    SignedLengthBounds(v);
    assert Bytes256(m) == 256 * Bytes256(m - 1);
    assert Bytes256(m - 1) == 256 * Bytes256(m - 2) && Bytes256(m - 2) == 256 * u;
    FloorMultiple(v, u);
    FloorGreatest(v, u, 0x8000);
    if v / u >= 0x80_0000 {
      MulMonotone(0x80_0000, v / u, u);
    }
    if v / u <= 0 {
      MulMonotone(v / u, 0, u);
    }
  }

  /** The mantissa overflows into the sign bit exactly when one more byte is needed. */
  lemma LargeMantissa(v: nat, n: nat)
    requires v > 0 && n == ByteLength(v) >= 3
    ensures v / Bytes256(n - 3) >= 0x80_0000 <==> v >= 0x80 * Bytes256(n - 1)
  {
    var u := Bytes256(n - 3);
    assert Bytes256(n - 1) == 256 * Bytes256(n - 2) && Bytes256(n - 2) == 256 * u;
    FloorMultiple(v, u);
    if v >= 0x80 * Bytes256(n - 1) {
      FloorGreatest(v, u, 0x80_0000);
      if v / u < 0x80_0000 {
        MulMonotone(v / u, 0x80_0000 - 1, u);
      }
    } else if v / u >= 0x80_0000 {
      MulMonotone(0x80_0000, v / u, u);
    }
  }

  lemma TopWord(v: nat)
    requires v < TWO_256
    ensures v / Bytes256(30) <= 0xffff
  {
    Size256();
    assert Bytes256(32) == 256 * Bytes256(31) && Bytes256(31) == 256 * Bytes256(30);
    FloorMultiple(v, Bytes256(30));
    if v / Bytes256(30) > 0xffff {
      MulMonotone(0x1_0000, v / Bytes256(30), Bytes256(30));
    }
  }

  /** Decoding an encoded target rounds it down to 23 significant bits, without sign or overflow. */
  lemma CompactRounds(v: nat)
    requires v < TWO_256
    ensures 0 <= GetCompact(v) < 0x1_0000_0000
    ensures SetCompact(GetCompact(v)) == Decoded(RoundDown(v), false, false)
  {
    if v == 0 {
      assert Bytes256(3) == 0x100_0000;
    } else if SignedLength(v) <= 3 {
      SmallCompact(v);
    } else {
      LargeCompact(v);
    }
  }

  // ---------------------------------------------------------------------
  // Targets that come from compact form are not rounded again
  // ---------------------------------------------------------------------

  lemma NoWrap(word: int, size: int)
    requires 0 <= word < 0x80_0000 && 3 < size
    requires word == 0 || !(size > 34 || (word > 0xff && size > 33) || (word > 0xffff && size > 32))
    ensures 0 <= word * Bytes256(size - 3) < TWO_256
    ensures 2 * (word * Bytes256(size - 3)) < Bytes256(size)
  {
    var u := Bytes256(size - 3);
    Size256();
    MulNonneg(word, u);
    assert Bytes256(size) == 256 * Bytes256(size - 1);
    assert Bytes256(size - 1) == 256 * Bytes256(size - 2) && Bytes256(size - 2) == 256 * u;
    MulMonotone(word, 0x80_0000 - 1, u);
    if word > 0 {
      if size <= 32 {
        Bytes256Monotone(size, 32);
      } else {
        assert Bytes256(33) == 256 * Bytes256(32) && Bytes256(34) == 256 * Bytes256(33);
        if size == 33 {
          MulMonotone(word, 0xffff, u);
        } else {
          MulMonotone(word, 0xff, u);
        }
      }
    }
  }

  lemma UnitDivides(t: nat, size: nat, word: int)
    requires 3 < size && 0 <= word && t == word * Bytes256(size - 3) && 2 * t < Bytes256(size)
    ensures RoundDown(t) == t
  {
    if t > 0 {
      SignedLengthLeast(t, size);
    }
    var m := SignedLength(t);
    if m > 3 {
      Bytes256Sum(size - m, m - 3);
      MulAssociates(word, Bytes256(size - m), Bytes256(m - 3));
      CancelFactor(word * Bytes256(size - m), Bytes256(m - 3));
    }
  }

  /** A target decoded without overflow is its own rounding. */
  lemma DecodedIsExact(compact: int)
    requires 0 <= compact < 0x1_0000_0000 && !SetCompact(compact).overflow
    ensures RoundDown(SetCompact(compact).target) == SetCompact(compact).target
  {
    var size, word := compact / 0x100_0000, compact % 0x80_0000;
    var t := SetCompact(compact).target;
    if size <= 3 {
      KeptRange(word, size);
      assert Bytes256(3) == 0x100_0000;
      SignedLengthLeast(t, 3);
    } else {
      NoWrap(word, size);
      UniqueModulus(word * Bytes256(size - 3), 0, word * Bytes256(size - 3), TWO_256);
      UnitDivides(t, size, word);
    }
  }

  /** No bits decode to a target nearer to `v` from below than its own encoding. */
  lemma EncodingIsBest(v: nat, compact: int)
    requires v < TWO_256 && 0 <= compact < 0x1_0000_0000
    requires !SetCompact(compact).overflow && SetCompact(compact).target <= v
    ensures 0 <= GetCompact(v) < 0x1_0000_0000
    ensures SetCompact(compact).target <= SetCompact(GetCompact(v)).target <= v
  {
    CompactRounds(v);
    RoundDownBounds(v);
    DecodedIsExact(compact);
    RoundDownMonotone(SetCompact(compact).target, v);
  }

  /** The layout of the 32 bits: size, sign, mantissa; the mantissa counts units of 256^(size - 3). */
  lemma CompactLayout(size: int, sign: bool, word: int)
    requires 0 <= size < 256 && 0 <= word < 0x80_0000
    ensures var compact := size * 0x100_0000 + (if sign then 0x80_0000 else 0) + word;
            && 0 <= compact < 0x1_0000_0000
            && (size <= 3 ==> SetCompact(compact).target == word / Bytes256(3 - size))
            && (size > 3 && !SetCompact(compact).overflow ==>
                SetCompact(compact).target == word * Bytes256(size - 3))
            && (SetCompact(compact).negative <==> sign && (if size <= 3 then word / Bytes256(3 - size) else word) != 0)
            && (SetCompact(compact).overflow <==> size > 3 && word * Bytes256(size - 3) >= TWO_256)
  {
    var s := if sign then 1 else 0;
    var compact := size * 0x100_0000 + s * 0x80_0000 + word;
    UniqueModulus(compact, size, s * 0x80_0000 + word, 0x100_0000);
    UniqueModulus(compact, 2 * size + s, word, 0x80_0000);
    if size > 3 {
      OverflowIff(word, size);
      if word * Bytes256(size - 3) < TWO_256 {
        MulNonneg(word, Bytes256(size - 3));
        UniqueModulus(word * Bytes256(size - 3), 0, word * Bytes256(size - 3), TWO_256);
      }
    } else {
      KeptRange(word, size);
    }
  }

  /** The test on size and mantissa finds exactly the numbers of more than 256 bits. */
  lemma OverflowIff(word: int, size: int)
    requires 0 <= word < 0x80_0000 && 3 < size
    ensures word * Bytes256(size - 3) >= TWO_256 <==>
            word != 0 && (size > 34 || (word > 0xff && size > 33) || (word > 0xffff && size > 32))
  {
    var least := if size == 33 then 0x1_0000 else if size == 34 then 0x100 else 1;
    if word == 0 || !(size > 34 || (word > 0xff && size > 33) || (word > 0xffff && size > 32)) {
      NoWrap(word, size);
    } else {
      Size256();
      assert Bytes256(32) == 256 * Bytes256(31) && Bytes256(31) == 256 * Bytes256(30);
      MulMonotone(least, word, Bytes256(size - 3));
      if size > 34 {
        Bytes256Monotone(32, size - 3);
      }
    }
  }

  /** Bits whose mantissa fills its three bytes, with the top bit clear, are what their own target encodes to. */
  lemma NormalFormRoundTrip(word: int, size: int)
    requires 0x8000 <= word < 0x80_0000 && 3 < size && word * Bytes256(size - 3) < TWO_256
    ensures GetCompact(word * Bytes256(size - 3)) == size * 0x100_0000 + word
  {
    var u := Bytes256(size - 3);
    var v := word * u;
    OverflowIff(word, size);
    NoWrap(word, size);
    MulMonotone(0x8000, word, u);
    assert Bytes256(size - 1) == 256 * Bytes256(size - 2) && Bytes256(size - 2) == 256 * u;
    SignedLengthIs(v, size);
    LargeEncoding(v);
    CancelFactor(word, u);
  }

  lemma SignedLengthIs(v: nat, m: nat)
    requires m >= 2 && v > 0 && Bytes256(m - 1) <= 2 * v < Bytes256(m)
    ensures SignedLength(v) == m
  {
    SignedLengthLeast(v, m);
    SignedLengthBounds(v);
    Bytes256Strict(m - 1, SignedLength(v));
  }
}
