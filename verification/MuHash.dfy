/** The rolling set hash: a numerator for inserted elements, a denominator for removed ones. */
module MuHash {
  import Codec
  import opened Arith
  import opened Limbs
  import opened Modular
  import opened Num3072
  import opened ModInversion
  import opened Transactions

  // ---------------------------------------------------------------------
  // Histories of one or more accumulators
  // ---------------------------------------------------------------------

  /** How an accumulator came about; elements are the numbers their data hash to. */
  datatype History =
    | Empty
    | Insert(before: History, x: int)
    | Remove(before: History, x: int)
    | Combine(left: History, right: History)

  ghost function Numerator(h: History, w: int): int
    requires w > 0
  {
    match h
    case Empty => 1
    case Insert(before, x) => MulValue(Numerator(before, w), x, w)
    case Remove(before, _) => Numerator(before, w)
    case Combine(left, right) => MulValue(Numerator(left, w), Numerator(right, w), w)
  }

  ghost function Denominator(h: History, w: int): int
    requires w > 0
  {
    match h
    case Empty => 1
    case Insert(before, _) => Denominator(before, w)
    case Remove(before, x) => MulValue(Denominator(before, w), x, w)
    case Combine(left, right) => MulValue(Denominator(left, w), Denominator(right, w), w)
  }

  /** No multiplication of the history drops a carry. */
  ghost predicate Clean(h: History, w: int)
    requires w > 0
  {
    match h
    case Empty => true
    case Insert(before, x) => Clean(before, w) && DroppedCarry(Numerator(before, w) * x, w) == 0
    case Remove(before, x) => Clean(before, w) && DroppedCarry(Denominator(before, w) * x, w) == 0
    case Combine(left, right) =>
      && Clean(left, w) && Clean(right, w)
      && DroppedCarry(Numerator(left, w) * Numerator(right, w), w) == 0
      && DroppedCarry(Denominator(left, w) * Denominator(right, w), w) == 0
  }

  ghost function Inserted(h: History): seq<int> {
    match h
    case Empty => []
    case Insert(before, x) => Inserted(before) + [x]
    case Remove(before, _) => Inserted(before)
    case Combine(left, right) => Inserted(left) + Inserted(right)
  }

  ghost function Removed(h: History): seq<int> {
    match h
    case Empty => []
    case Insert(before, _) => Removed(before)
    case Remove(before, x) => Removed(before) + [x]
    case Combine(left, right) => Removed(left) + Removed(right)
  }

  /** Elements are nonzero residues. */
  ghost predicate Elements(h: History, p: int) {
    match h
    case Empty => true
    case Insert(before, x) => Elements(before, p) && 0 < x < p
    case Remove(before, x) => Elements(before, p) && 0 < x < p
    case Combine(left, right) => Elements(left, p) && Elements(right, p)
  }

  lemma {:induction false} RemovedAreResidues(h: History, p: int)
    requires Elements(h, p)
    ensures forall i :: 0 <= i < |Removed(h)| ==> 0 < Removed(h)[i] < p
    decreases h
  {
    match h
    case Empty =>
    case Insert(before, _) => RemovedAreResidues(before, p);
    case Remove(before, _) => RemovedAreResidues(before, p);
    case Combine(left, right) =>
      RemovedAreResidues(left, p);
      RemovedAreResidues(right, p);
  }

  /** A clean multiplication of two products modulo p is the product of all factors modulo p. */
  lemma CleanProduct(x: int, s: seq<int>, y: int, t: seq<int>, n: nat)
    requires n >= 2 && Modulus(n) > 2
    requires x == Prod(s) % Modulus(n) && y == Prod(t) % Modulus(n)
    requires DroppedCarry(x * y, Weight(n)) == 0
    ensures MulValue(x, y, Weight(n)) == Prod(s + t) % Modulus(n)
  {
    ModMod(Prod(s), Modulus(n));
    ModMod(Prod(t), Modulus(n));
    CleanMul(x, Prod(s), y, Prod(t), n);
    ProdAppend(s, t);
  }

  lemma ProdOne(x: int, p: int)
    requires 0 <= x < p
    ensures x == Prod([x]) % p
  {
    assert [x][1..] == [];
    assert Prod([x]) == x * Prod([x][1..]);
    UniqueModulus(x, 0, x, p);
  }

  /** In every history without dropped carries the numerator is the product of all insertions and the
      denominator the product of all removals, however they were interleaved and combined. */
  lemma {:induction false} HistoryIsProduct(h: History, n: nat)
    requires n >= 2 && Modulus(n) > 2 && Elements(h, Modulus(n)) && Clean(h, Weight(n))
    ensures Numerator(h, Weight(n)) == Prod(Inserted(h)) % Modulus(n)
    ensures Denominator(h, Weight(n)) == Prod(Removed(h)) % Modulus(n)
    decreases h
  {
    var w, p := Weight(n), Modulus(n);
    match h
    case Empty => UniqueModulus(1, 0, 1, p);
    case Insert(before, x) =>
      HistoryIsProduct(before, n);
      ProdOne(x, p);
      CleanProduct(Numerator(before, w), Inserted(before), x, [x], n);
    case Remove(before, x) =>
      HistoryIsProduct(before, n);
      ProdOne(x, p);
      CleanProduct(Denominator(before, w), Removed(before), x, [x], n);
    case Combine(left, right) =>
      HistoryIsProduct(left, n);
      HistoryIsProduct(right, n);
      CleanProduct(Numerator(left, w), Inserted(left), Numerator(right, w), Inserted(right), n);
      CleanProduct(Denominator(left, w), Removed(left), Denominator(right, w), Removed(right), n);
  }

  // ---------------------------------------------------------------------
  // The final quotient
  // ---------------------------------------------------------------------

  ghost function FinalValue(num: int, den: int, n: nat): int
    requires Modulus(n) > 2
  {
    MulValue(num, SquareMultiply(den, Modulus(n) - 2, Weight(n)), Weight(n))
  }

  ghost predicate CleanFinal(num: int, den: int, n: nat)
    requires Modulus(n) > 2
  {
    && CleanPower(den, Modulus(n) - 2, Weight(n))
    && DroppedCarry(num * SquareMultiply(den, Modulus(n) - 2, Weight(n)), Weight(n)) == 0
  }

  ghost predicate CleanRun(h: History, n: nat)
    requires Modulus(n) > 2
  {
    && Elements(h, Modulus(n)) && Clean(h, Weight(n))
    && CleanFinal(Numerator(h, Weight(n)), Denominator(h, Weight(n)), n)
  }

  ghost function Hashed(h: History, n: nat): int
    requires Modulus(n) > 2
  {
    FinalValue(Numerator(h, Weight(n)), Denominator(h, Weight(n)), n)
  }

  lemma DenominatorNonzero(h: History, n: nat)
    requires n >= 2 && Modulus(n) > 2 && IsPrime(Modulus(n)) && Elements(h, Modulus(n)) && Clean(h, Weight(n))
    ensures 0 < Denominator(h, Weight(n)) < Modulus(n)
    ensures 0 <= Numerator(h, Weight(n)) < Modulus(n)
    ensures Prod(Removed(h)) % Modulus(n) != 0
  {
    HistoryIsProduct(h, n);
    RemovedAreResidues(h, Modulus(n));
    ProdNotDivisible(Modulus(n), Removed(h));
  }

  /** The final value of a clean division is the numerator times the inverse of the denominator. */
  lemma FinalIsProduct(num: int, den: int, n: nat)
    requires n >= 2 && Modulus(n) > 2 && IsPrime(Modulus(n))
    requires 0 <= num < Modulus(n) && 0 < den < Modulus(n) && CleanFinal(num, den, n)
    ensures var inv := SquareMultiply(den, Modulus(n) - 2, Weight(n));
            && (den * inv) % Modulus(n) == 1
            && FinalValue(num, den, n) == (num * inv) % Modulus(n)
  {
    CleanInverse(den, n);
    SquareMultiplyRange(den, Modulus(n) - 2, n);
    MulValueCorrectIffNoCarry(num, SquareMultiply(den, Modulus(n) - 2, Weight(n)), n);
  }

  /** The final value times the removed elements is the inserted elements, modulo p: it is the quotient. */
  lemma HashIsQuotient(h: History, n: nat)
    requires n >= 2 && Modulus(n) > 2 && IsPrime(Modulus(n)) && CleanRun(h, n)
    ensures 0 <= Hashed(h, n) < Modulus(n)
    ensures (Prod(Removed(h)) * Hashed(h, n)) % Modulus(n) == Prod(Inserted(h)) % Modulus(n)
  {
    var p := Modulus(n);
    var num, den := Numerator(h, Weight(n)), Denominator(h, Weight(n));
    HistoryIsProduct(h, n);
    DenominatorNonzero(h, n);
    FinalIsProduct(num, den, n);
    ModMod(Prod(Inserted(h)), p);
    ModMod(Prod(Removed(h)), p);
    InverseDivides(num, Prod(Inserted(h)), den, Prod(Removed(h)), SquareMultiply(den, p - 2, Weight(n)), p);
  }

  /** Two clean runs whose quotients agree hash alike. */
  lemma EqualQuotientsHashAlike(h: History, k: History, n: nat)
    requires n >= 2 && Modulus(n) > 2 && IsPrime(Modulus(n)) && CleanRun(h, n) && CleanRun(k, n)
    requires Prod(Inserted(h)) * Prod(Removed(k)) == Prod(Inserted(k)) * Prod(Removed(h))
    ensures Hashed(h, n) == Hashed(k, n)
  {
    HashIsQuotient(h, n);
    HashIsQuotient(k, n);
    DenominatorNonzero(h, n);
    DenominatorNonzero(k, n);
    QuotientUnique(Modulus(n), Prod(Removed(h)), Prod(Inserted(h)), Hashed(h, n),
                   Prod(Removed(k)), Prod(Inserted(k)), Hashed(k, n));
  }

  /** Order, interleaving and grouping never matter. */
  lemma OrderDoesNotMatter(h: History, k: History, n: nat)
    requires n >= 2 && Modulus(n) > 2 && IsPrime(Modulus(n)) && CleanRun(h, n) && CleanRun(k, n)
    requires multiset(Inserted(h)) == multiset(Inserted(k)) && multiset(Removed(h)) == multiset(Removed(k))
    ensures Hashed(h, n) == Hashed(k, n)
  {
    ProdPermutation(Inserted(h), Inserted(k));
    ProdPermutation(Removed(h), Removed(k));
    EqualQuotientsHashAlike(h, k, n);
  }

  /** Inserting and removing the same elements leaves the hash as it was, wherever in the history that happens. */
  lemma InsertThenRemoveCancels(h: History, k: History, xs: seq<int>, n: nat)
    requires n >= 2 && Modulus(n) > 2 && IsPrime(Modulus(n)) && CleanRun(h, n) && CleanRun(k, n)
    requires multiset(Inserted(k)) == multiset(Inserted(h)) + multiset(xs)
    requires multiset(Removed(k)) == multiset(Removed(h)) + multiset(xs)
    ensures Hashed(h, n) == Hashed(k, n)
  {
    ProdPermutation(Inserted(k), Inserted(h) + xs);
    ProdPermutation(Removed(k), Removed(h) + xs);
    ProdAppend(Inserted(h), xs);
    ProdAppend(Removed(h), xs);
    CommonFactor(Prod(Inserted(h)), Prod(Removed(h)), Prod(xs));
    EqualQuotientsHashAlike(h, k, n);
  }

  lemma CommonFactor(i: int, r: int, x: int)
    ensures i * (r * x) == (i * x) * r
  {
    Exchange(i, r, x);
  }

  // ---------------------------------------------------------------------
  // Bytes
  // ---------------------------------------------------------------------

  function Le32(a: int, b: int, c: int, d: int): int {
    a + 0x100 * b + 0x1_0000 * c + 0x100_0000 * d
  }

  function LimbsOf(bytes: Bytes): (s: seq<u32>)
    requires |bytes| % 4 == 0
    ensures |s| == |bytes| / 4
  {
    if bytes == [] then []
    else [Le32(bytes[0], bytes[1], bytes[2], bytes[3])] + LimbsOf(bytes[4..])
  }

  function LimbBytes(x: u32): (b: Bytes)
    ensures |b| == 4 && x == Le32(b[0], b[1], b[2], b[3])
  {
    assert x / 0x1_0000 == x / 0x100 / 0x100 && x / 0x100_0000 == x / 0x1_0000 / 0x100;
    [x % 0x100, (x / 0x100) % 0x100, (x / 0x1_0000) % 0x100, x / 0x100_0000]
  }

  function ToBytes(s: seq<u32>): (b: Bytes)
    ensures |b| == 4 * |s|
  {
    if s == [] then [] else LimbBytes(s[0]) + ToBytes(s[1..])
  }

  /** The byte form loses nothing. */
  lemma {:induction false} BytesRoundTrip(s: seq<u32>)
    ensures LimbsOf(ToBytes(s)) == s
  {
    if s != [] {
      BytesRoundTrip(s[1..]);
      assert ToBytes(s)[4..] == ToBytes(s[1..]);
    }
  }

  /** The number that the bytes stand for, lowest first, is the number that the limbs stand for. */
  lemma {:induction false} LimbsAreLittleEndian(bytes: Bytes)
    requires |bytes| % 4 == 0
    ensures Val(LimbsOf(bytes)) == Codec.LeValue(bytes)
    decreases |bytes|
  {
    if bytes != [] {
      var rest := bytes[4..];
      LimbsAreLittleEndian(rest);
      FourBytes(bytes);
      LowLimb(LimbsOf(bytes));
      assert LimbsOf(bytes)[1..] == LimbsOf(rest);
    }
  }

  lemma FourBytes(bytes: Bytes)
    requires |bytes| >= 4
    ensures Codec.LeValue(bytes)
         == Le32(bytes[0], bytes[1], bytes[2], bytes[3]) + BASE * Codec.LeValue(bytes[4..])
  {
    var b1, b2, b3 := bytes[1..], bytes[2..], bytes[3..];
    assert b1[1..] == b2 && b2[1..] == b3 && b3[1..] == bytes[4..];
    assert Codec.LeValue(b1) == bytes[1] + 256 * Codec.LeValue(b2);
    assert Codec.LeValue(b2) == bytes[2] + 256 * Codec.LeValue(b3);
    assert Codec.LeValue(b3) == bytes[3] + 256 * Codec.LeValue(bytes[4..]);
  }

  /** What a number is written as: its bytes, lowest first. */
  lemma BytesAreLittleEndian(s: seq<u32>)
    ensures Codec.LeValue(ToBytes(s)) == Val(s)
  {
    BytesRoundTrip(s);
    LimbsAreLittleEndian(ToBytes(s));
  }

  /** The n limbs of a number, lowest first. */
  ghost function ValueLimbs(v: int, n: nat): seq<u32>
    decreases n, v
  {
    if n == 0 then [] else [v % BASE] + ValueLimbs(v / BASE, n - 1)
  }

  /** Limbs are determined by the number they stand for. */
  lemma {:induction false} LimbsOfValue(s: seq<u32>)
    ensures ValueLimbs(Val(s), |s|) == s
    decreases |s|
  {
    if s != [] {
      LowLimb(s);
      UniqueModulus(Val(s), Val(s[1..]), s[0], BASE);
      LimbsOfValue(s[1..]);
    }
  }

  // ---------------------------------------------------------------------
  // The accumulator object
  // ---------------------------------------------------------------------

  /** The element for an expansion: zero is replaced by one, then one conditional subtraction. */
  ghost function ElementValue(v: int, w: int): int {
    ReduceOnceValue(if v == 0 then 1 else v, w)
  }

  /** The subtraction comes after the zero test, so an expansion equal to p still yields zero, and no other does. */
  lemma ElementZeroIff(v: int, n: nat)
    requires n >= 2 && 0 <= v < Weight(n)
    ensures 0 <= ElementValue(v, Weight(n)) < Modulus(n)
    ensures ElementValue(v, Weight(n)) == 0 <==> v == Modulus(n)
  {
    ModulusBig(n);
  }

  method HashToNum(expanded: Bytes) returns (num: Num)
    requires |expanded| % 4 == 0 && |expanded| >= 8
    ensures |num| == |expanded| / 4
    ensures Val(num) == ElementValue(Val(LimbsOf(expanded)), Weight(|num|))
  {
    var raw := LimbsOf(expanded);
    var limbs := new u32[|raw|](i requires 0 <= i < |raw| => raw[i]);
    assert limbs[..] == raw;
    var zero := true;
    for i := 0 to |raw|
      invariant zero <==> forall k :: 0 <= k < i ==> raw[k] == 0
    {
      zero := zero && raw[i] == 0;
    }
    if zero {
      ValZeros(raw);
      ValUpdate(raw, 0, 1);
      limbs[0] := 1;
      assert limbs[..] == raw[0 := 1];
      assert Weight(0) == 1;
    } else {
      NonzeroValue(raw);
    }
    ReduceOnce(limbs);
    num := limbs[..];
  }

  lemma {:induction false} NonzeroValue(s: seq<int>)
    requires Digits(s) && exists k :: 0 <= k < |s| && s[k] != 0
    ensures Val(s) != 0
  {
    if Val(s) == 0 {
      var zeros := seq(|s|, _ => 0);
      ValZeros(zeros);
      ValInjective(s, zeros);
    }
  }

  method Quotient(numerator: Num, denominator: Num) returns (quotient: Num)
    requires |numerator| == |denominator|
    ensures |quotient| == |numerator| && Modulus(|numerator|) > 2
    ensures Val(quotient) == FinalValue(Val(numerator), Val(denominator), |numerator|)
  {
    var inv := ModInverse(denominator);
    quotient := MulMod(numerator, inv);
  }

  class MuHash {
    /** Limbs per number; the source fixes 96. */
    const limbs: nat
    /** The seed hash and its counter-mode expansion to 384 bytes. */
    const expand: Bytes -> Bytes
    /** The hash of the final number. */
    const digest: Bytes -> Bytes
    var numerator: Num
    var denominator: Num
    ghost var history: History

    ghost predicate Valid()
      reads this
    {
      && |numerator| == limbs && |denominator| == limbs
      && (forall data: Bytes :: |expand(data)| == 4 * limbs)
      && Val(numerator) == Numerator(history, Weight(limbs))
      && Val(denominator) == Denominator(history, Weight(limbs))
    }

    ghost function Element(data: Bytes): int
      requires Valid()
      reads this
    {
      ElementValue(Val(LimbsOf(expand(data))), Weight(limbs))
    }

    constructor (limbs: nat, expand: Bytes -> Bytes, digest: Bytes -> Bytes)
      requires limbs >= 2 && forall data: Bytes :: |expand(data)| == 4 * limbs
      ensures Valid() && history == Empty
      ensures this.limbs == limbs && this.expand == expand && this.digest == digest
    {
      this.limbs, this.expand, this.digest := limbs, expand, digest;
      var one: seq<u32> := seq(limbs, i => if i == 0 then 1 else 0);
      OneValue(one);
      numerator, denominator, history := one, one, Empty;
    }

    method Insert(data: Bytes)
      requires Valid()
      modifies this
      ensures Valid() && history == History.Insert(old(history), old(Element(data)))
    {
      ghost var x := Element(data);
      var h := HashToNum(expand(data));
      assert |h| == limbs && Val(h) == x;
      var product := MulMod(numerator, h);
      history := History.Insert(history, x);
      numerator := product;
    }

    method Remove(data: Bytes)
      requires Valid()
      modifies this
      ensures Valid() && history == History.Remove(old(history), old(Element(data)))
    {
      ghost var x := Element(data);
      var h := HashToNum(expand(data));
      assert |h| == limbs && Val(h) == x;
      var product := MulMod(denominator, h);
      history := History.Remove(history, x);
      denominator := product;
    }

    method Combine(other: MuHash)
      requires Valid() && other.Valid() && other.limbs == limbs
      modifies this
      ensures Valid() && history == History.Combine(old(history), old(other.history))
    {
      var num := MulMod(numerator, other.numerator);
      var den := MulMod(denominator, other.denominator);
      history := History.Combine(history, other.history);
      numerator, denominator := num, den;
    }

    /** The digest of the bytes of the final number: the history's value decides it. */
    method Finalize() returns (hash: Bytes)
      requires Valid()
      ensures Modulus(limbs) > 2
      ensures hash == digest(ToBytes(ValueLimbs(Hashed(history, limbs), limbs)))
    {
      var quotient := Quotient(numerator, denominator);
      LimbsOfValue(quotient);
      assert Val(quotient) == Hashed(history, limbs);
      hash := digest(ToBytes(quotient));
    }
  }

  lemma OneValue(s: seq<int>)
    requires s != [] && s[0] == 1 && forall i :: 1 <= i < |s| ==> s[i] == 0
    ensures Val(s) == 1
  {
    LowLimb(s);
    ValZeros(s[1..]);
  }
}
