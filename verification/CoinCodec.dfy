/** The compressed form in which coins are stored: variable-length integers, compressed amounts and scripts. */
module CoinCodec {
  import opened Arith
  import opened Wrappers
  import opened Transactions
  import opened Codec
  import opened Coins

  // ---------------------------------------------------------------------
  // Amounts
  // ---------------------------------------------------------------------

  function Pow10(e: nat): (r: int)
    ensures r >= 1
  {
    if e == 0 then 1 else 10 * Pow10(e - 1)
  }

  /** Trailing decimal zeros, at most nine, are split off. */
  function Strip(n: nat, e: nat): (nat, nat)
    requires n > 0 && e <= 9
    decreases n
  {
    if n % 10 == 0 && e < 9 then Strip(n / 10, e + 1) else (n, e)
  }

  function Compress(n: nat): nat {
    if n == 0 then 0
    else
      StripExact(n, 0);
      var (m, e) := Strip(n, 0);
      Packed(m, e)
  }

  /** A mantissa without a trailing zero and its exponent in one number; nine zeros may be followed by more. */
  function Packed(m: nat, e: nat): nat
    requires m > 0 && (e < 9 ==> m % 10 != 0)
  {
    if e < 9 then 1 + (9 * (m / 10) + (m % 10 - 1)) * 10 + e else 1 + (m - 1) * 10 + 9
  }

  function Decompress(x: nat): nat {
    if x == 0 then 0
    else
      var e, z := (x - 1) % 10, (x - 1) / 10;
      Mantissa(z, e) * Pow10(e)
  }

  function Mantissa(z: nat, e: nat): nat {
    if e < 9 then (z / 9) * 10 + (z % 9 + 1) else z + 1
  }

  lemma {:induction false} StripExact(n: nat, e: nat)
    requires n > 0 && e <= 9
    ensures var (m, f) := Strip(n, e);
            && m > 0 && e <= f <= 9 && n == m * Pow10(f - e) && (f < 9 ==> m % 10 != 0)
    decreases n
  {
    if n % 10 == 0 && e < 9 {
      StripExact(n / 10, e + 1);
      var (m, f) := Strip(n / 10, e + 1);
      TimesTen(m, f - e);
    }
  }

  lemma {:induction false} StripUnique(m: nat, k: nat, e: nat)
    requires m > 0 && e + k <= 9 && (e + k < 9 ==> m % 10 != 0)
    ensures m * Pow10(k) > 0 && Strip(m * Pow10(k), e) == (m, e + k)
    decreases k
  {
    if k == 0 {
      assert m * Pow10(0) == m;
    } else {
      var rest := m * Pow10(k - 1);
      StripUnique(m, k - 1, e + 1);
      TimesTen(m, k);
      StripStep(rest, e);
    }
  }

  lemma TimesTen(m: int, k: nat)
    requires k > 0
    ensures m * Pow10(k) == 10 * (m * Pow10(k - 1))
  {
    MulAssociates(m, 10, Pow10(k - 1));
    MulAssociates(10, m, Pow10(k - 1));
  }

  lemma StripStep(n: nat, e: nat)
    requires n > 0 && e < 9
    ensures Strip(10 * n, e) == Strip(n, e + 1)
  {
  }

  lemma TenSplit(z: nat, e: nat)
    requires e < 10
    ensures (z * 10 + e) / 10 == z && (z * 10 + e) % 10 == e
  {
    UniqueModulus(z * 10 + e, z, e, 10);
  }

  lemma NineSplit(q: nat, d: nat)
    requires d < 9
    ensures (9 * q + d) / 9 == q && (9 * q + d) % 9 == d
  {
    UniqueModulus(9 * q + d, q, d, 9);
  }

  lemma PackedUnpacks(m: nat, e: nat)
    requires m > 0 && e <= 9 && (e < 9 ==> m % 10 != 0)
    ensures var x := Packed(m, e);
            x > 0 && (x - 1) % 10 == e && Mantissa((x - 1) / 10, e) == m
  {
    if e < 9 {
      var z := 9 * (m / 10) + (m % 10 - 1);
      TenSplit(z, e);
      NineSplit(m / 10, m % 10 - 1);
    } else {
      TenSplit(m - 1, 9);
    }
  }

  lemma UnpackedPacks(z: nat, e: nat)
    requires e <= 9
    ensures var m := Mantissa(z, e);
            m > 0 && (e < 9 ==> m % 10 != 0) && Packed(m, e) == 1 + z * 10 + e
  {
    if e < 9 {
      TenSplit(z / 9, z % 9 + 1);
    }
  }

  /** Decompression inverts compression on every amount. */
  lemma AmountRoundTrip(n: nat)
    ensures Decompress(Compress(n)) == n
  {
    if n > 0 {
      StripExact(n, 0);
      var (m, e) := Strip(n, 0);
      PackedUnpacks(m, e);
    }
  }

  /** Every compressed number is the compression of exactly what it decompresses to. */
  lemma CompressedRoundTrip(x: nat)
    ensures Compress(Decompress(x)) == x
  {
    if x > 0 {
      var e, z := (x - 1) % 10, (x - 1) / 10;
      UnpackedPacks(z, e);
      StripUnique(Mantissa(z, e), e, 0);
    }
  }

  /** Amounts that can occur stay well inside 64 bits. */
  lemma AmountFits(n: nat)
    requires n <= MAX_MONEY
    ensures Compress(n) < U64
  {
    if n > 0 {
      StripExact(n, 0);
      var (m, e) := Strip(n, 0);
      MulMonotone(1, Pow10(e), m);
      PackedBound(m, e);
    }
  }

  lemma PackedBound(m: nat, e: nat)
    requires m > 0 && e <= 9 && (e < 9 ==> m % 10 != 0)
    ensures Packed(m, e) <= 10 * m + 10
  {
    assert 9 * (m / 10) + (m % 10 - 1) <= m;
  }

  /** A round amount is short: the compressed form ends in the number of zeros and grows with what is left of the
      amount without them. */
  lemma RoundAmount(m: nat, e: nat)
    requires m > 0 && e <= 9 && (e < 9 ==> m % 10 != 0)
    ensures 0 < Compress(m * Pow10(e)) <= 10 * m + 10
    ensures (Compress(m * Pow10(e)) - 1) % 10 == e
  {
    StripUnique(m, e, 0);
    PackedUnpacks(m, e);
    PackedBound(m, e);
  }

  lemma RoundAmountGrows(m: nat, more: nat, e: nat)
    requires 0 < m < more && e <= 9 && (e < 9 ==> m % 10 != 0 && more % 10 != 0)
    ensures Compress(m * Pow10(e)) < Compress(more * Pow10(e))
  {
    StripUnique(m, e, 0);
    StripUnique(more, e, 0);
    PackedGrows(m, more, e);
  }

  lemma PackedGrows(m: nat, more: nat, e: nat)
    requires 0 < m < more && e <= 9 && (e < 9 ==> m % 10 != 0 && more % 10 != 0)
    ensures Packed(m, e) < Packed(more, e)
  {
  }

  lemma WholeCoins()
    ensures Compress(COIN) == 9 && Compress(50 * COIN) == 50
  {
    var one := 1;
    assert Pow10(4) == 10_000 && Pow10(8) == 10 * (10 * (10 * (10 * Pow10(4))));
    StripUnique(one, 8, 0);
    StripUnique(5 * one, 9, 0);
  }

  /** The loop, in wrapping 64-bit arithmetic. */
  method CompressAmount(n0: nat) returns (x: nat)
    requires n0 < U64
    ensures x == Compress(n0) % U64
    ensures n0 <= MAX_MONEY ==> x == Compress(n0)
  {
    if n0 == 0 {
      return 0;
    }
    var n, e := n0, 0;
    while n % 10 == 0 && e < 9
      invariant n > 0 && e <= 9 && Strip(n, e) == Strip(n0, 0)
      decreases n
    {
      n, e := n / 10, e + 1;
    }
    if n0 <= MAX_MONEY {
      AmountFits(n0);
    }
    if e < 9 {
      var d := n % 10;
      n := n / 10;
      x := (1 + (n * 9 + d - 1) * 10 + e) % U64;
    } else {
      x := (1 + (n - 1) * 10 + 9) % U64;
    }
  }

  method DecompressAmount(x: nat) returns (n: nat)
    ensures n == Decompress(x) % U64
  {
    if x == 0 {
      return 0;
    }
    var e, z := (x - 1) % 10, (x - 1) / 10;
    var m := Mantissa(z, e);
    assert m * Pow10(0) == m;
    n := m % U64;
    for i := 0 to e
      invariant n == (m * Pow10(i)) % U64
    {
      WrapStep(m, i);
      n := (n * 10) % U64;
    }
  }

  lemma WrapStep(m: int, i: nat)
    ensures (((m * Pow10(i)) % U64) * 10) % U64 == (m * Pow10(i + 1)) % U64
  {
    WrapTimesTen(m * Pow10(i));
    MulAssociates(m, 10, Pow10(i));
    MulAssociates(10, m, Pow10(i));
  }

  lemma WrapTimesTen(v: int)
    ensures ((v % U64) * 10) % U64 == (10 * v) % U64
  {
    var q, r := v / U64, v % U64;
    var a, b := (r * 10) / U64, (r * 10) % U64;
    assert 10 * v == (10 * q + a) * U64 + b;
    UniqueModulus(10 * v, 10 * q + a, b, U64);
  }

  // ---------------------------------------------------------------------
  // Variable-length integers
  // ---------------------------------------------------------------------

  /** The continuation bytes that leave a reader with `acc`; each level stands for one more than its digits say. */
  function Carried(acc: nat): Bytes
    decreases acc
  {
    if acc == 0 then [] else Carried((acc - 1) / 128) + [(acc - 1) % 128 + 0x80]
  }

  function WriteVarInt(n: nat): Bytes {
    Carried(n / 128) + [n % 128]
  }

  function ReadVarIntFrom(acc: nat, b: Bytes): Parsed<nat>
    decreases |b|
  {
    if b == [] then Err(UnexpectedEof)
    else if acc > (U64 - 1) / 128 then Err(VarIntTooLarge)
    else
      var n := acc * 128 + b[0] % 128;
      if b[0] >= 0x80 then (if n == U64 - 1 then Err(VarIntTooLarge) else ReadVarIntFrom(n + 1, b[1..]))
      else Ok(n, b[1..])
  }

  function ReadVarInt(b: Bytes): Parsed<nat> {
    ReadVarIntFrom(0, b)
  }

  lemma ContinuationReads(n: nat, s: Bytes)
    requires n < U64 / 128
    ensures ReadVarIntFrom(n / 128, [n % 128 + 0x80] + s) == ReadVarIntFrom(n + 1, s)
  {
    var digit := n % 128 + 0x80;
    assert digit % 128 == n % 128 && n / 128 * 128 + digit % 128 == n;
    assert ([digit] + s)[1..] == s;
  }

  lemma {:induction false} CarriedReads(acc: nat, s: Bytes)
    requires acc <= U64 / 128
    ensures ReadVarIntFrom(0, Carried(acc) + s) == ReadVarIntFrom(acc, s)
    decreases acc
  {
    if acc == 0 {
      assert [] + s == s;
    } else {
      var n, last := acc - 1, (acc - 1) % 128 + 0x80;
      assert Carried(acc) + s == Carried(n / 128) + ([last] + s);
      CarriedReads(n / 128, [last] + s);
      ContinuationReads(n, s);
    }
  }

  /** Every 64-bit number is read back, whatever follows. */
  lemma VarIntRoundTrip(n: nat, s: Bytes)
    requires n < U64
    ensures ReadVarInt(WriteVarInt(n) + s) == Ok(n, s)
  {
    var last: Byte := n % 128;
    assert WriteVarInt(n) + s == Carried(n / 128) + ([last] + s);
    CarriedReads(n / 128, [last] + s);
    assert ([last] + s)[1..] == s;
    assert last % 128 == last && n / 128 * 128 + last == n;
  }

  lemma SevenBits(q: nat, d: nat)
    requires d < 128
    ensures (q * 128 + d) / 128 == q && (q * 128 + d) % 128 == d
  {
    UniqueModulus(q * 128 + d, q, d, 128);
  }

  lemma {:induction false} VarIntOnly(acc: nat, b: Bytes)
    requires ReadVarIntFrom(acc, b).Ok?
    ensures var r := ReadVarIntFrom(acc, b);
            r.value < U64 && Carried(acc) + b == WriteVarInt(r.value) + r.rest
    decreases |b|
  {
    ReadStep(acc, b);
    DigitAppends(acc, b[0]);
    var prefix, rest := Carried(acc), b[1..];
    assert prefix + b == (prefix + [b[0]]) + rest;
    if b[0] >= 0x80 {
      VarIntOnly(WithDigit(acc, b[0]) + 1, rest);
    }
  }

  /** The number read once a digit is added. */
  function WithDigit(acc: nat, digit: Byte): nat {
    acc * 128 + digit % 128
  }

  lemma ReadStep(acc: nat, b: Bytes)
    requires ReadVarIntFrom(acc, b).Ok?
    ensures b != [] && WithDigit(acc, b[0]) < U64
    ensures ReadVarIntFrom(acc, b) == if b[0] >= 0x80 then ReadVarIntFrom(WithDigit(acc, b[0]) + 1, b[1..])
                                      else Ok(WithDigit(acc, b[0]), b[1..])
  {
  }

  lemma DigitAppends(acc: nat, digit: Byte)
    ensures digit >= 0x80 ==> Carried(WithDigit(acc, digit) + 1) == Carried(acc) + [digit]
    ensures digit < 0x80 ==> WriteVarInt(WithDigit(acc, digit)) == Carried(acc) + [digit]
  {
    var n := WithDigit(acc, digit);
    SevenBits(acc, digit % 128);
    assert n / 128 == acc && n % 128 == digit % 128;
    assert Carried(n + 1) == Carried(n / 128) + [n % 128 + 0x80];
  }

  /** Each number has exactly one encoding. */
  lemma VarIntCanonical(b: Bytes)
    requires ReadVarInt(b).Ok?
    ensures ReadVarInt(b).value < U64 && WriteVarInt(ReadVarInt(b).value) + ReadVarInt(b).rest == b
  {
    VarIntOnly(0, b);
    assert [] + b == b;
  }

  /** Seven bits a byte, the last byte below 0x80 and all others above; what stands before the last byte is the
      encoding of one less than the number it counts, continued. */
  lemma VarIntLayout(n: nat)
    ensures n < 128 ==> WriteVarInt(n) == [n]
    ensures n >= 128 ==>
            var w, before := WriteVarInt(n), WriteVarInt(n / 128 - 1);
            w == before[..|before| - 1] + [before[|before| - 1] + 0x80, n % 128] && before[|before| - 1] < 0x80
  {
    if n >= 128 {
      var k := n / 128 - 1;
      assert Carried(k + 1) == Carried(k / 128) + [k % 128 + 0x80];
    }
  }

  /** The greatest number that `k` continuation bytes can leave. */
  function CarriedMax(k: nat): nat {
    if k == 0 then 0 else 128 * CarriedMax(k - 1) + 128
  }

  lemma {:induction false} CarriedLength(acc: nat, k: nat)
    requires acc <= CarriedMax(k)
    ensures |Carried(acc)| <= k
    decreases k
  {
    if acc > 0 {
      CarriedLength((acc - 1) / 128, k - 1);
    }
  }

  /** A 64-bit number takes at most ten bytes. */
  lemma VarIntLength(n: nat)
    requires n < U64
    ensures |WriteVarInt(n)| <= 10
  {
    assert CarriedMax(3) == 0x20_4080 && CarriedMax(6) == 128 * (128 * (128 * CarriedMax(3) + 128) + 128) + 128;
    assert CarriedMax(9) == 128 * (128 * (128 * CarriedMax(6) + 128) + 128) + 128;
    CarriedLength(n / 128, 9);
  }

  /** Digits are produced from the low end and written in reverse. */
  method WriteVarIntDigits(n0: nat) returns (out: Bytes)
    ensures out == WriteVarInt(n0)
    ensures n0 < U64 ==> |out| <= 10
  {
    var n: nat := n0;
    out := [n % 128];
    while n > 0x7f
      invariant Carried(n / 128) + out == WriteVarInt(n0)
      decreases n
    {
      n := n / 128 - 1;
      var digit: Byte := n % 128 + 0x80;
      assert (Carried(n / 128) + [digit]) + out == Carried(n / 128) + ([digit] + out);
      out := [digit] + out;
    }
    assert n / 128 == 0 && [] + out == out;
    if n0 < U64 {
      VarIntLength(n0);
    }
  }

  method ReadVarIntDigits(b: Bytes) returns (r: Parsed<nat>)
    ensures r == ReadVarInt(b)
  {
    var n: nat, pos: nat := 0, 0;
    while pos < |b|
      invariant 0 <= pos <= |b| && ReadVarIntFrom(n, b[pos..]) == ReadVarInt(b)
    {
      var ch := b[pos];
      if n > (U64 - 1) / 128 {
        return Err(VarIntTooLarge);
      }
      assert b[pos..][1..] == b[pos + 1..];
      n, pos := n * 128 + ch % 128, pos + 1;
      if ch >= 0x80 {
        if n == U64 - 1 {
          return Err(VarIntTooLarge);
        }
        n := n + 1;
      } else {
        return Ok(n, b[pos..]);
      }
    }
    return Err(UnexpectedEof);
  }

  // ---------------------------------------------------------------------
  // Scripts
  // ---------------------------------------------------------------------

  const N_SPECIAL_SCRIPTS: nat := 6

  predicate IsP2pkh(d: Bytes) {
    |d| == 25 && d[0] == 0x76 && d[1] == 0xa9 && d[2] == 20 && d[23] == 0x88 && d[24] == 0xac
  }

  predicate IsP2sh(d: Bytes) {
    |d| == 23 && d[0] == 0xa9 && d[1] == 20 && d[22] == 0x87
  }

  predicate IsCompressedP2pk(d: Bytes) {
    |d| == 35 && d[0] == 33 && d[34] == 0xac && (d[1] == 2 || d[1] == 3)
  }

  predicate IsUncompressedP2pk(d: Bytes) {
    |d| == 67 && d[0] == 65 && d[66] == 0xac && d[1] == 4
  }

  /** A tag byte and the hash or the key, for the scripts that have a special form. */
  function CompressScript(d: Bytes): Option<Bytes> {
    if IsP2pkh(d) then Some([0] + d[3..23])
    else if IsP2sh(d) then Some([1] + d[2..22])
    else if IsCompressedP2pk(d) then Some([d[1]] + d[2..34])
    else if IsUncompressedP2pk(d) then Some([4 + d[65] % 2] + d[2..34])
    else None
  }

  function SpecialScriptSize(tag: nat): nat {
    if tag <= 1 then 20 else if tag <= 5 then 32 else 0
  }

  /** Recovers the 65-byte form of a curve point from its 33-byte form; `None` when there is no such point. */
  type PointDecompressor = Bytes -> Option<Bytes>

  function DecompressScript(tag: nat, data: Bytes, point: PointDecompressor): Option<Bytes>
    requires |data| == SpecialScriptSize(tag)
  {
    if tag == 0 then Some([0x76, 0xa9, 20] + data + [0x88, 0xac])
    else if tag == 1 then Some([0xa9, 20] + data + [0x87])
    else if tag == 2 || tag == 3 then Some([33, tag] + data + [0xac])
    else if tag == 4 || tag == 5 then
      match point([tag - 2] + data)
      case None => None
      case Some(full) => Some([65] + full + [0xac])
    else None
  }

  function WriteScript(d: Bytes): Bytes {
    match CompressScript(d)
    case Some(c) => c
    case None => WriteVarInt((|d| + N_SPECIAL_SCRIPTS) % U32) + d
  }

  /** Undecodable points and overlong scripts come back as a bare OP_RETURN. */
  function ReadScript(b: Bytes, point: PointDecompressor): Parsed<Bytes> {
    match ReadVarInt(b)
    case Err(e) => Err(e)
    case Ok(n, rest) =>
      var size := n % U32;
      if size < N_SPECIAL_SCRIPTS then
        match Take(rest, SpecialScriptSize(size))
        case Err(e) => Err(e)
        case Ok(data, rest') =>
          Ok(match DecompressScript(size, data, point) case Some(d) => d case None => [OP_RETURN], rest')
      else
        match Take(rest, size - N_SPECIAL_SCRIPTS)
        case Err(e) => Err(e)
        case Ok(d, rest') => Ok(if |d| > MAX_SCRIPT_SIZE then [OP_RETURN] else d, rest')
  }

  /** The key of an uncompressed pay-to-pubkey script is one that its compressed form determines. */
  predicate PointRecovers(d: Bytes, point: PointDecompressor)
    requires IsUncompressedP2pk(d)
  {
    point([2 + d[65] % 2] + d[2..34]) == Some(d[1..66])
  }

  /** The scripts that the compressed form preserves. */
  predicate Preserved(d: Bytes, point: PointDecompressor) {
    |d| <= MAX_SCRIPT_SIZE && (IsUncompressedP2pk(d) ==> PointRecovers(d, point))
  }

  lemma TagReads(tag: Byte, data: Bytes, s: Bytes)
    requires tag < 6 && |data| == SpecialScriptSize(tag)
    ensures ReadVarInt(([tag] + data) + s) == Ok(tag, data + s)
    ensures Take(data + s, SpecialScriptSize(tag)) == Ok(data, s)
  {
    VarIntRoundTrip(tag, data + s);
    assert WriteVarInt(tag) == [tag];
    assert ([tag] + data) + s == [tag] + (data + s);
    assert (data + s)[..|data|] == data && (data + s)[|data|..] == s;
  }

  lemma SpecialReads(tag: Byte, data: Bytes, s: Bytes, point: PointDecompressor)
    requires tag < 6 && |data| == SpecialScriptSize(tag)
    ensures ReadScript(([tag] + data) + s, point)
         == Ok(match DecompressScript(tag, data, point) case Some(d) => d case None => [OP_RETURN], s)
  {
    TagReads(tag, data, s);
  }

  lemma HashScriptRoundTrip(d: Bytes, s: Bytes, point: PointDecompressor)
    requires IsP2pkh(d) || IsP2sh(d)
    ensures ReadScript(WriteScript(d) + s, point) == Ok(d, s)
  {
    if IsP2pkh(d) {
      SpecialReads(0, d[3..23], s, point);
      assert d == [0x76, 0xa9, 20] + d[3..23] + [0x88, 0xac];
    } else {
      SpecialReads(1, d[2..22], s, point);
      assert d == [0xa9, 20] + d[2..22] + [0x87];
    }
  }

  lemma CompressedKeyRoundTrip(d: Bytes, s: Bytes, point: PointDecompressor)
    requires IsCompressedP2pk(d)
    ensures ReadScript(WriteScript(d) + s, point) == Ok(d, s)
  {
    SpecialReads(d[1], d[2..34], s, point);
    assert d == [33, d[1]] + d[2..34] + [0xac];
  }

  lemma UncompressedKeyRoundTrip(d: Bytes, s: Bytes, point: PointDecompressor)
    requires IsUncompressedP2pk(d)
    ensures ReadScript(WriteScript(d) + s, point) == Ok(d, s) <==> PointRecovers(d, point)
  {
    var tag: Byte := 4 + d[65] % 2;
    UncompressedForm(d);
    SpecialReads(tag, d[2..34], s, point);
    KeyRecoveredIff(d, point);
  }

  lemma UncompressedForm(d: Bytes)
    requires IsUncompressedP2pk(d)
    ensures WriteScript(d) == [4 + d[65] % 2] + d[2..34]
  {
  }

  lemma KeyRecoveredIff(d: Bytes, point: PointDecompressor)
    requires IsUncompressedP2pk(d)
    ensures (match DecompressScript(4 + d[65] % 2, d[2..34], point) case Some(e) => e case None => [OP_RETURN]) == d
            <==> PointRecovers(d, point)
  {
    var recovered := point([2 + d[65] % 2] + d[2..34]);
    if recovered.Some? {
      WrapsIff(recovered.value, d);
    }
  }

  lemma WrapsIff(full: Bytes, d: Bytes)
    requires IsUncompressedP2pk(d)
    ensures [65] + full + [0xac] == d <==> full == d[1..66]
  {
    var got := [65] + full + [0xac];
    assert got[1..|got| - 1] == full;
    assert d == [65] + d[1..66] + [0xac];
  }

  lemma VerbatimRoundTrip(d: Bytes, s: Bytes, point: PointDecompressor)
    requires CompressScript(d) == None && |d| + N_SPECIAL_SCRIPTS < U32
    ensures ReadScript(WriteScript(d) + s, point) == Ok(if |d| > MAX_SCRIPT_SIZE then [OP_RETURN] else d, s)
  {
    var n := |d| + N_SPECIAL_SCRIPTS;
    UniqueModulus(n, 0, n, U32);
    VarIntRoundTrip(n, d + s);
    assert WriteScript(d) + s == WriteVarInt(n) + (d + s);
    assert (d + s)[..|d|] == d && (d + s)[|d|..] == s;
  }

  /** A script survives exactly when it is within the size limit and, if it pays to an uncompressed key, that key
      can be recovered from its compressed form. */
  lemma ScriptRoundTripIff(d: Bytes, s: Bytes, point: PointDecompressor)
    requires |d| + N_SPECIAL_SCRIPTS < U32
    ensures ReadScript(WriteScript(d) + s, point) == Ok(d, s) <==> Preserved(d, point)
  {
    if IsP2pkh(d) || IsP2sh(d) {
      HashScriptRoundTrip(d, s, point);
    } else if IsCompressedP2pk(d) {
      CompressedKeyRoundTrip(d, s, point);
    } else if IsUncompressedP2pk(d) {
      UncompressedKeyRoundTrip(d, s, point);
    } else {
      VerbatimRoundTrip(d, s, point);
    }
  }

  /** A script that pays to a hash is a tag and the hash. */
  lemma HashScriptLayout(h: Bytes)
    requires |h| == 20
    ensures WriteScript([0x76, 0xa9, 20] + h + [0x88, 0xac]) == [0] + h
    ensures WriteScript([0xa9, 20] + h + [0x87]) == [1] + h
  {
    var a, b := [0x76, 0xa9, 20] + h + [0x88, 0xac], [0xa9, 20] + h + [0x87];
    assert a[3..23] == h && b[2..22] == h;
  }

  /** One that pays to a compressed key is the key as it is. */
  lemma CompressedKeyLayout(x: Bytes, parity: Byte)
    requires |x| == 32 && 2 <= parity <= 3
    ensures WriteScript([33, parity] + x + [0xac]) == [parity] + x
  {
    var k := [33, parity] + x + [0xac];
    assert k[2..34] == x;
  }

  /** One that pays to an uncompressed key is the first coordinate, tagged by the parity of the second. */
  lemma UncompressedKeyLayout(x: Bytes, y: Bytes)
    requires |x| == |y| == 32
    ensures WriteScript([65, 4] + x + y + [0xac]) == [4 + y[31] % 2] + x
  {
    var f := [65, 4] + x + y + [0xac];
    assert f[2..34] == x && f[65] == y[31];
    UncompressedForm(f);
  }

  /** Any other script follows its length, shifted past the tags. */
  lemma PlainScriptLayout(d: Bytes)
    requires |d| + N_SPECIAL_SCRIPTS < U32 && !IsP2pkh(d) && !IsP2sh(d)
    requires !IsCompressedP2pk(d) && !IsUncompressedP2pk(d)
    ensures WriteScript(d) == WriteVarInt(|d| + 6) + d
  {
    UniqueModulus(|d| + 6, 0, |d| + 6, U32);
  }

  /** Storage never turns an unspendable script into a spendable one, nor the other way where keys are recovered. */
  lemma StorageKeepsSpendability(d: Bytes, s: Bytes, point: PointDecompressor)
    requires |d| + N_SPECIAL_SCRIPTS < U32 && (IsUncompressedP2pk(d) ==> PointRecovers(d, point))
    ensures var r := ReadScript(WriteScript(d) + s, point);
            r.Ok? && r.rest == s && (IsUnspendable(r.value) <==> IsUnspendable(d))
  {
    ScriptRoundTripIff(d, s, point);
    if |d| > MAX_SCRIPT_SIZE {
      VerbatimRoundTrip(d, s, point);
    }
  }

  lemma ScriptAlwaysReads(d: Bytes, s: Bytes, point: PointDecompressor)
    requires |d| + N_SPECIAL_SCRIPTS < U32
    ensures ReadScript(WriteScript(d) + s, point).Ok? && ReadScript(WriteScript(d) + s, point).rest == s
  {
    if IsP2pkh(d) || IsP2sh(d) {
      HashScriptRoundTrip(d, s, point);
    } else if IsCompressedP2pk(d) {
      CompressedKeyRoundTrip(d, s, point);
    } else if IsUncompressedP2pk(d) {
      SpecialReads(4 + d[65] % 2, d[2..34], s, point);
    } else {
      VerbatimRoundTrip(d, s, point);
    }
  }

  // ---------------------------------------------------------------------
  // Coins
  // ---------------------------------------------------------------------

  /** The height shifted left in 32 bits, with the coinbase flag below it. */
  function Code(coin: Coin): nat {
    (coin.height * 2) % U32 + (if coin.coinbase then 1 else 0)
  }

  function EncodeCoin(coin: Coin): Bytes {
    var amount := Compress(coin.txOut.value % U64) % U64;
    WriteVarInt(Code(coin)) + (WriteVarInt(amount) + WriteScript(coin.txOut.scriptPubkey))
  }

  function DecodeCoin(b: Bytes, point: PointDecompressor): Parsed<Coin> {
    match ReadVarInt(b)
    case Err(e) => Err(e)
    case Ok(n, rest) =>
      match ReadVarInt(rest)
      case Err(e) => Err(e)
      case Ok(x, rest') =>
        match ReadScript(rest', point)
        case Err(e) => Err(e)
        case Ok(script, rest'') =>
          var code := n % U32;
          Ok(Coin(TxOut(ToI64(Decompress(x) % U64), script), code / 2, code % 2 == 1), rest'')
  }

  /** A 32-bit height, an amount that can occur, a script whose length fits 32 bits. */
  predicate Storable(coin: Coin) {
    coin.height < U32 && 0 <= coin.txOut.value <= MAX_MONEY && |coin.txOut.scriptPubkey| + N_SPECIAL_SCRIPTS < U32
  }

  lemma AmountSurvives(v: int)
    requires 0 <= v <= MAX_MONEY
    ensures Compress(v % U64) % U64 < U64
    ensures ToI64(Decompress(Compress(v % U64) % U64) % U64) == v
  {
    UniqueModulus(v, 0, v, U64);
    AmountFits(v);
    UniqueModulus(Compress(v), 0, Compress(v), U64);
    AmountRoundTrip(v);
  }

  lemma HeightSurvivesIff(coin: Coin)
    requires coin.height < U32
    ensures Code(coin) < U32 && Code(coin) % U32 == Code(coin)
    ensures Code(coin) / 2 == coin.height <==> coin.height < U32 / 2
    ensures Code(coin) % 2 == 1 <==> coin.coinbase
  {
  }

  /** A coin survives storage exactly when its height is below 2^31 and its script is preserved. */
  lemma CoinRoundTripIff(coin: Coin, s: Bytes, point: PointDecompressor)
    requires Storable(coin)
    ensures DecodeCoin(EncodeCoin(coin) + s, point) == Ok(coin, s) <==>
            coin.height < U32 / 2 && Preserved(coin.txOut.scriptPubkey, point)
  {
    var d, v := coin.txOut.scriptPubkey, coin.txOut.value;
    var x := Compress(v % U64) % U64;
    var amount, script := WriteVarInt(x), WriteScript(d);
    AmountSurvives(v);
    HeightSurvivesIff(coin);
    assert EncodeCoin(coin) + s == WriteVarInt(Code(coin)) + (amount + (script + s));
    VarIntRoundTrip(Code(coin), amount + (script + s));
    VarIntRoundTrip(x, script + s);
    ScriptRoundTripIff(d, s, point);
    ScriptAlwaysReads(d, s, point);
  }

  /** Twice the height plus the coinbase flag, the compressed amount, the compressed script. */
  lemma CoinLayout(coin: Coin)
    requires Storable(coin) && coin.height < U32 / 2
    ensures EncodeCoin(coin)
         == WriteVarInt(2 * coin.height + if coin.coinbase then 1 else 0)
          + WriteVarInt(Compress(coin.txOut.value)) + WriteScript(coin.txOut.scriptPubkey)
  {
    var v := coin.txOut.value;
    UniqueModulus(v, 0, v, U64);
    AmountFits(v);
    UniqueModulus(Compress(v), 0, Compress(v), U64);
  }
}
