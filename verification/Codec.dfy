/** Byte codecs: fixed-width integers, CompactSize lengths, byte strings and vectors.

    A decoder consumes a prefix of its input. A codec is lawful when decoding inverts encoding with any suffix left
    over, and every accepted input is the encoding of what was decoded. */
module Codec {
  import opened Arith
  import opened Transactions

  const MAX_SIZE: int := 0x0200_0000

  datatype Error =
    | UnexpectedEof
    | NonCanonicalCompactSize
    | CompactSizeTooLarge
    | VarIntTooLarge
    | SuperfluousWitness
    | UnknownOptionalData

  datatype Parsed<T> = Ok(value: T, rest: Bytes) | Err(error: Error)

  datatype Codec<!T> = Codec(encode: T -> Bytes, decode: Bytes -> Parsed<T>, valid: T -> bool)

  ghost predicate RoundTrips<T(!new)>(c: Codec<T>) {
    forall x: T, s: Bytes :: c.valid(x) ==> c.decode(c.encode(x) + s) == Ok(x, s)
  }

  ghost predicate Canonical<T(!new)>(c: Codec<T>) {
    forall b: Bytes :: CanonicalAt(c, b)
  }

  ghost predicate CanonicalAt<T(!new)>(c: Codec<T>, b: Bytes) {
    var d := c.decode(b);
    d.Ok? ==> c.valid(d.value) && c.encode(d.value) + d.rest == b
  }

  ghost predicate Lawful<T(!new)>(c: Codec<T>) {
    RoundTrips(c) && Canonical(c)
  }

  // ---------------------------------------------------------------------
  // Fixed-width little-endian integers
  // ---------------------------------------------------------------------

  function EncodeLe(v: nat, k: nat): (b: Bytes)
    ensures |b| == k
    decreases k, v
  {
    if k == 0 then [] else [v % 256] + EncodeLe(v / 256, k - 1)
  }

  function LeValue(b: Bytes): (v: nat) {
    if b == [] then 0 else b[0] + 256 * LeValue(b[1..])
  }

  /** The signed reading of an unsigned 64-bit number. */
  function ToI64(u: int): int {
    if u >= U64 / 2 then u - U64 else u
  }

  function Take(b: Bytes, k: nat): Parsed<Bytes> {
    if |b| < k then Err(UnexpectedEof) else Ok(b[..k], b[k..])
  }

  function DecodeLe(b: Bytes, k: nat): Parsed<nat> {
    if |b| < k then Err(UnexpectedEof) else Ok(LeValue(b[..k]), b[k..])
  }

  lemma {:induction false} LeRoundTrip(v: nat, k: nat)
    requires v < Bytes256(k)
    ensures LeValue(EncodeLe(v, k)) == v
    decreases k
  {
    if k > 0 {
      assert Bytes256(k) == 256 * Bytes256(k - 1);
      LeRoundTrip(v / 256, k - 1);
      assert EncodeLe(v, k)[1..] == EncodeLe(v / 256, k - 1);
    }
  }

  lemma {:induction false} LeCanonical(b: Bytes)
    ensures LeValue(b) < Bytes256(|b|)
    ensures EncodeLe(LeValue(b), |b|) == b
    decreases |b|
  {
    if b != [] {
      LeCanonical(b[1..]);
      UniqueModulus(LeValue(b), LeValue(b[1..]), b[0], 256);
    }
  }

  /** Decoding k bytes after encoding them. */
  lemma LeDecodes(v: nat, k: nat, s: Bytes)
    requires v < Bytes256(k)
    ensures DecodeLe(EncodeLe(v, k) + s, k) == Ok(v, s)
  {
    LeRoundTrip(v, k);
    var b := EncodeLe(v, k) + s;
    assert b[..k] == EncodeLe(v, k) && b[k..] == s;
  }

  lemma LeDecodesOnly(b: Bytes, k: nat)
    ensures DecodeLe(b, k).Ok? ==>
            DecodeLe(b, k).value < Bytes256(k) && EncodeLe(DecodeLe(b, k).value, k) + DecodeLe(b, k).rest == b
  {
    if |b| >= k {
      var head := b[..k];
      LeCanonical(head);
      assert |head| == k && b == head + b[k..];
      assert DecodeLe(b, k).value == LeValue(head) && DecodeLe(b, k).rest == b[k..];
    }
  }

  /** Which byte is which: byte `i` carries weight 256^i. */
  lemma {:induction false} LeByte(v: nat, k: nat, i: nat)
    requires i < k
    ensures EncodeLe(v, k)[i] == (v / Bytes256(i)) % 256
    decreases k
  {
    if i > 0 {
      LeByte(v / 256, k - 1, i - 1);
      assert EncodeLe(v, k)[i] == EncodeLe(v / 256, k - 1)[i - 1];
      DivTwice(v, Bytes256(i - 1));
    }
  }

  lemma DivTwice(v: nat, m: int)
    requires m >= 1
    ensures (v / 256) / m == v / (256 * m)
  {
    var q, r := v / 256, v % 256;
    var a, b := q / m, q % m;
    assert v == 256 * (a * m + b) + r == a * (256 * m) + (256 * b + r);
    UniqueModulus(v, a, 256 * b + r, 256 * m);
  }

  lemma Widths()
    ensures Bytes256(1) == 0x100 && Bytes256(2) == 0x1_0000 && Bytes256(4) == 0x1_0000_0000
    ensures Bytes256(8) == 0x1_0000_0000_0000_0000
  {
    assert Bytes256(2) == 256 * Bytes256(1) && Bytes256(1) == 256 * Bytes256(0);
    Bytes256Sum(2, 2);
    Bytes256Sum(4, 4);
  }

  // ---------------------------------------------------------------------
  // CompactSize
  // ---------------------------------------------------------------------

  function WriteCompactSize(n: nat): Bytes {
    if n < 253 then [n]
    else if n <= 0xffff then [253] + EncodeLe(n, 2)
    else if n <= 0xffff_ffff then [254] + EncodeLe(n, 4)
    else [255] + EncodeLe(n, 8)
  }

  /** One byte, or a marker byte for the width of what follows. */
  lemma SizeLayout(n: nat)
    requires n < 0x1_0000_0000_0000_0000
    ensures var w := WriteCompactSize(n);
            if n < 253 then w == [n]
            else
              && w[1..] == EncodeLe(n, |w| - 1) && LeValue(w[1..]) == n
              && (w[0], |w|) == if n < 0x1_0000 then (253, 3) else if n < 0x1_0000_0000 then (254, 5) else (255, 9)
  {
    Widths();
    if n >= 253 {
      LeRoundTrip(n, |WriteCompactSize(n)| - 1);
    }
  }

  /** The payload after a marker byte, refused below the least value that needs it. */
  function ReadWide(b: Bytes, k: nat, least: nat): Parsed<nat> {
    match DecodeLe(b, k)
    case Err(e) => Err(e)
    case Ok(v, rest) => if v < least then Err(NonCanonicalCompactSize) else Ok(v, rest)
  }

  function ReadAnySize(b: Bytes): Parsed<nat> {
    if b == [] then Err(UnexpectedEof)
    else if b[0] < 253 then Ok(b[0], b[1..])
    else if b[0] == 253 then ReadWide(b[1..], 2, 253)
    else if b[0] == 254 then ReadWide(b[1..], 4, 0x1_0000)
    else ReadWide(b[1..], 8, 0x1_0000_0000)
  }

  function ReadCompactSize(b: Bytes): Parsed<nat> {
    match ReadAnySize(b)
    case Err(e) => Err(e)
    case Ok(v, rest) => if v > MAX_SIZE then Err(CompactSizeTooLarge) else Ok(v, rest)
  }

  lemma ReadWideCanonical(b: Bytes, k: nat, least: nat)
    ensures ReadWide(b, k, least).Ok? ==>
            var d := ReadWide(b, k, least);
            least <= d.value < Bytes256(k) && EncodeLe(d.value, k) + d.rest == b
  {
    LeDecodesOnly(b, k);
  }

  lemma WideRoundTrip(n: nat, k: nat, least: nat, s: Bytes)
    requires least <= n < Bytes256(k)
    ensures ReadWide(EncodeLe(n, k) + s, k, least) == Ok(n, s)
  {
    LeDecodes(n, k, s);
  }

  lemma MarkerThen(marker: Byte, payload: Bytes, s: Bytes)
    ensures ([marker] + payload) + s == [marker] + (payload + s)
    ensures ([marker] + (payload + s))[1..] == payload + s
  {
  }

  /** Every size is read back, whatever follows it. */
  lemma AnySizeRoundTrip(n: nat, s: Bytes)
    requires n < 0x1_0000_0000_0000_0000
    ensures ReadAnySize(WriteCompactSize(n) + s) == Ok(n, s)
  {
    Widths();
    if n < 253 {
      MarkerThen(n, [], s);
      assert [n] + [] == [n] && [] + s == s;
    } else if n <= 0xffff {
      MarkerThen(253, EncodeLe(n, 2), s);
      WideRoundTrip(n, 2, 253, s);
    } else if n <= 0xffff_ffff {
      MarkerThen(254, EncodeLe(n, 4), s);
      WideRoundTrip(n, 4, 0x1_0000, s);
    } else {
      MarkerThen(255, EncodeLe(n, 8), s);
      WideRoundTrip(n, 8, 0x1_0000_0000, s);
    }
  }

  lemma WideCanonical(b: Bytes, k: nat, least: nat)
    requires b != []
    ensures ReadWide(b[1..], k, least).Ok? ==>
            var d := ReadWide(b[1..], k, least);
            least <= d.value < Bytes256(k) && ([b[0]] + EncodeLe(d.value, k)) + d.rest == b
  {
    var d := ReadWide(b[1..], k, least);
    ReadWideCanonical(b[1..], k, least);
    if d.Ok? {
      assert ([b[0]] + EncodeLe(d.value, k)) + d.rest == [b[0]] + (EncodeLe(d.value, k) + d.rest);
    }
  }

  lemma AnySizeCanonical(b: Bytes)
    ensures ReadAnySize(b).Ok? ==> WriteCompactSize(ReadAnySize(b).value) + ReadAnySize(b).rest == b
  {
    Widths();
    if b != [] {
      assert b == [b[0]] + b[1..];
      if b[0] == 253 {
        WideCanonical(b, 2, 253);
      } else if b[0] == 254 {
        WideCanonical(b, 4, 0x1_0000);
      } else if b[0] == 255 {
        WideCanonical(b, 8, 0x1_0000_0000);
      }
    }
  }

  lemma SizeRoundTrip(n: nat, s: Bytes)
    requires n <= MAX_SIZE
    ensures ReadCompactSize(WriteCompactSize(n) + s) == Ok(n, s)
  {
    AnySizeRoundTrip(n, s);
  }

  lemma SizeCanonical(b: Bytes)
    ensures ReadCompactSize(b).Ok? ==>
            var d := ReadCompactSize(b);
            d.value <= MAX_SIZE && WriteCompactSize(d.value) + d.rest == b
  {
    AnySizeCanonical(b);
  }

  // ---------------------------------------------------------------------
  // Byte strings
  // ---------------------------------------------------------------------

  function EncodeBytes(x: Bytes): Bytes {
    WriteCompactSize(|x|) + x
  }

  function DecodeBytes(b: Bytes): Parsed<Bytes> {
    match ReadCompactSize(b)
    case Err(e) => Err(e)
    case Ok(n, rest) => Take(rest, n)
  }

  lemma BytesRoundTrip(x: Bytes, s: Bytes)
    requires |x| <= MAX_SIZE
    ensures DecodeBytes(EncodeBytes(x) + s) == Ok(x, s)
  {
    assert EncodeBytes(x) + s == WriteCompactSize(|x|) + (x + s);
    SizeRoundTrip(|x|, x + s);
    assert (x + s)[..|x|] == x && (x + s)[|x|..] == s;
  }

  lemma BytesCanonical(b: Bytes)
    ensures DecodeBytes(b).Ok? ==>
            |DecodeBytes(b).value| <= MAX_SIZE && EncodeBytes(DecodeBytes(b).value) + DecodeBytes(b).rest == b
  {
    SizeCanonical(b);
    if DecodeBytes(b).Ok? {
      var n, rest := ReadCompactSize(b).value, ReadCompactSize(b).rest;
      assert rest == rest[..n] + rest[n..];
      assert WriteCompactSize(n) + (rest[..n] + rest[n..]) == (WriteCompactSize(n) + rest[..n]) + rest[n..];
    }
  }

  // ---------------------------------------------------------------------
  // Vectors
  // ---------------------------------------------------------------------

  function EncodeItems<T>(c: Codec<T>, xs: seq<T>): Bytes {
    if xs == [] then [] else EncodeItems(c, xs[..|xs| - 1]) + c.encode(xs[|xs| - 1])
  }

  /** Items stand one after the other, in order. */
  lemma {:induction false} ItemsInOrder<T>(c: Codec<T>, xs: seq<T>, ys: seq<T>)
    ensures EncodeItems(c, xs + ys) == EncodeItems(c, xs) + EncodeItems(c, ys)
    decreases |ys|
  {
    if ys == [] {
      assert xs + ys == xs;
    } else {
      var init, last := ys[..|ys| - 1], ys[|ys| - 1];
      ItemsInOrder(c, xs, init);
      ItemsLast(c, xs, init, last, EncodeItems(c, xs), EncodeItems(c, init));
      assert ys == init + [last] && xs + ys == (xs + init) + [last];
    }
  }

  lemma {:induction false} ItemsLast<T>(c: Codec<T>, xs: seq<T>, ys: seq<T>, y: T, e: Bytes, f: Bytes)
    requires EncodeItems(c, xs + ys) == e + f && EncodeItems(c, ys) == f
    ensures EncodeItems(c, (xs + ys) + [y]) == e + EncodeItems(c, ys + [y])
  {
    ItemsThen(c, xs + ys, y);
    ItemsThen(c, ys, y);
    assert (e + f) + c.encode(y) == e + (f + c.encode(y));
  }

  lemma {:induction false} ItemsThen<T>(c: Codec<T>, xs: seq<T>, x: T)
    ensures EncodeItems(c, xs + [x]) == EncodeItems(c, xs) + c.encode(x)
  {
    assert (xs + [x])[..|xs|] == xs;
  }

  function DecodeItems<T>(c: Codec<T>, n: nat, b: Bytes): Parsed<seq<T>>
    decreases n, b
  {
    if n == 0 then Ok([], b)
    else match DecodeItems(c, n - 1, b)
      case Err(e) => Err(e)
      case Ok(xs, rest) =>
        match c.decode(rest)
        case Err(e) => Err(e)
        case Ok(x, rest') => Ok(xs + [x], rest')
  }

  function EncodeVec<T>(c: Codec<T>, xs: seq<T>): Bytes {
    WriteCompactSize(|xs|) + EncodeItems(c, xs)
  }

  function DecodeVec<T>(c: Codec<T>, b: Bytes): Parsed<seq<T>> {
    match ReadCompactSize(b)
    case Err(e) => Err(e)
    case Ok(n, rest) => DecodeItems(c, n, rest)
  }

  ghost predicate AllValid<T>(c: Codec<T>, xs: seq<T>) {
    forall i :: 0 <= i < |xs| ==> c.valid(xs[i])
  }

  lemma {:induction false} ItemsRoundTrip<T(!new)>(c: Codec<T>, xs: seq<T>, s: Bytes)
    requires RoundTrips(c) && AllValid(c, xs)
    ensures DecodeItems(c, |xs|, EncodeItems(c, xs) + s) == Ok(xs, s)
    decreases |xs|
  {
    if xs == [] {
      assert EncodeItems(c, xs) + s == s;
    } else {
      var init, last := xs[..|xs| - 1], xs[|xs| - 1];
      assert EncodeItems(c, xs) + s == EncodeItems(c, init) + (c.encode(last) + s);
      ItemsRoundTrip(c, init, c.encode(last) + s);
      assert c.valid(last);
      assert init + [last] == xs;
    }
  }

  lemma {:induction false} ItemsCanonical<T(!new)>(c: Codec<T>, n: nat, b: Bytes)
    requires Canonical(c)
    ensures DecodeItems(c, n, b).Ok? ==>
            var d := DecodeItems(c, n, b);
            |d.value| == n && AllValid(c, d.value) && EncodeItems(c, d.value) + d.rest == b
    decreases n
  {
    if n > 0 && DecodeItems(c, n, b).Ok? {
      ItemsCanonical(c, n - 1, b);
      var before := DecodeItems(c, n - 1, b);
      assert CanonicalAt(c, before.rest);
      var last := c.decode(before.rest);
      var xs := before.value + [last.value];
      assert xs[..|xs| - 1] == before.value;
      assert EncodeItems(c, before.value) + (c.encode(last.value) + last.rest)
          == (EncodeItems(c, before.value) + c.encode(last.value)) + last.rest;
    }
  }

  lemma VecRoundTrip<T(!new)>(c: Codec<T>, xs: seq<T>, s: Bytes)
    requires RoundTrips(c) && AllValid(c, xs) && |xs| <= MAX_SIZE
    ensures DecodeVec(c, EncodeVec(c, xs) + s) == Ok(xs, s)
  {
    assert EncodeVec(c, xs) + s == WriteCompactSize(|xs|) + (EncodeItems(c, xs) + s);
    SizeRoundTrip(|xs|, EncodeItems(c, xs) + s);
    ItemsRoundTrip(c, xs, s);
  }

  lemma VecCanonical<T(!new)>(c: Codec<T>, b: Bytes)
    requires Canonical(c)
    ensures DecodeVec(c, b).Ok? ==>
            var d := DecodeVec(c, b);
            |d.value| <= MAX_SIZE && AllValid(c, d.value) && EncodeVec(c, d.value) + d.rest == b
  {
    SizeCanonical(b);
    if DecodeVec(c, b).Ok? {
      var n, rest := ReadCompactSize(b).value, ReadCompactSize(b).rest;
      ItemsCanonical(c, n, rest);
      var d := DecodeVec(c, b);
      assert WriteCompactSize(n) + (EncodeItems(c, d.value) + d.rest)
          == (WriteCompactSize(n) + EncodeItems(c, d.value)) + d.rest;
    }
  }

  /** Writing a vector item by item. */
  method WriteVec<T>(c: Codec<T>, xs: seq<T>) returns (w: Bytes)
    ensures w == EncodeVec(c, xs)
  {
    w := WriteCompactSize(|xs|);
    for i := 0 to |xs|
      invariant w == WriteCompactSize(|xs|) + EncodeItems(c, xs[..i])
    {
      assert xs[..i + 1][..i] == xs[..i];
      w := w + c.encode(xs[i]);
    }
    assert xs[..|xs|] == xs;
  }

  /** Reading a vector item by item; the first error ends it. */
  method ReadVec<T>(c: Codec<T>, b: Bytes) returns (r: Parsed<seq<T>>)
    ensures r == DecodeVec(c, b)
  {
    var size := ReadCompactSize(b);
    if size.Err? {
      return Err(size.error);
    }
    var vec, rest := [], size.rest;
    for n := 0 to size.value
      invariant DecodeItems(c, n, size.rest) == Ok(vec, rest)
    {
      var item := c.decode(rest);
      if item.Err? {
        ItemsError(c, n + 1, size.value, size.rest);
        return Err(item.error);
      }
      vec, rest := vec + [item.value], item.rest;
    }
    return Ok(vec, rest);
  }

  lemma {:induction false} ItemsError<T>(c: Codec<T>, m: nat, n: nat, b: Bytes)
    requires m <= n && DecodeItems(c, m, b).Err?
    ensures DecodeItems(c, n, b) == DecodeItems(c, m, b)
    decreases n
  {
    if m < n {
      ItemsError(c, m, n - 1, b);
    }
  }
}
