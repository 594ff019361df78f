/** Transaction encoding with and without witness data, after the "Serialization" section of BIP144. */
module TxCodec {
  import opened Arith
  import opened Transactions
  import opened Codec

  // ---------------------------------------------------------------------
  // Inputs and outputs
  // ---------------------------------------------------------------------

  function EncodeOutPoint(o: OutPoint): Bytes {
    o.hash + EncodeLe(o.n, 4)
  }

  function DecodeOutPoint(b: Bytes): Parsed<OutPoint> {
    match Take(b, 32)
    case Err(e) => Err(e)
    case Ok(hash, rest) =>
      match DecodeLe(rest, 4)
      case Err(e) => Err(e)
      case Ok(n, rest') => Ok(OutPoint(hash, n), rest')
  }

  predicate ValidOutPoint(o: OutPoint) {
    |o.hash| == 32 && o.n < U32
  }

  lemma OutPointRoundTrip(o: OutPoint, s: Bytes)
    requires ValidOutPoint(o)
    ensures DecodeOutPoint(EncodeOutPoint(o) + s) == Ok(o, s)
  {
    Widths();
    var b := EncodeOutPoint(o) + s;
    assert b[..32] == o.hash && b[32..] == EncodeLe(o.n, 4) + s;
    LeDecodes(o.n, 4, s);
  }

  lemma OutPointCanonical(b: Bytes)
    ensures DecodeOutPoint(b).Ok? ==>
            var d := DecodeOutPoint(b);
            ValidOutPoint(d.value) && EncodeOutPoint(d.value) + d.rest == b
  {
    Widths();
    if |b| >= 32 {
      LeDecodesOnly(b[32..], 4);
      assert b == b[..32] + b[32..];
    }
  }

  function EncodeTxIn(i: TxIn): Bytes {
    EncodeOutPoint(i.prevout) + (EncodeBytes(i.scriptSig) + EncodeLe(i.sequence, 4))
  }

  /** A decoded input starts without witness; the witness comes later in the stream. */
  function DecodeTxIn(b: Bytes): Parsed<TxIn> {
    match DecodeOutPoint(b)
    case Err(e) => Err(e)
    case Ok(prevout, rest) =>
      match DecodeBytes(rest)
      case Err(e) => Err(e)
      case Ok(script, rest') =>
        match DecodeLe(rest', 4)
        case Err(e) => Err(e)
        case Ok(sequence, rest'') => Ok(TxIn(prevout, script, sequence, []), rest'')
  }

  /** Field widths, and lengths that a decoder accepts. */
  predicate ValidTxIn(i: TxIn) {
    ValidOutPoint(i.prevout) && |i.scriptSig| <= MAX_SIZE && i.sequence < U32
  }

  predicate ValidBareTxIn(i: TxIn) {
    ValidTxIn(i) && i.witnessStack == []
  }

  const TX_IN: Codec<TxIn> := Codec(EncodeTxIn, DecodeTxIn, ValidBareTxIn)

  lemma TxInRoundTrip(i: TxIn, s: Bytes)
    requires ValidBareTxIn(i)
    ensures DecodeTxIn(EncodeTxIn(i) + s) == Ok(i, s)
  {
    Widths();
    var tail := EncodeLe(i.sequence, 4) + s;
    assert EncodeTxIn(i) + s == EncodeOutPoint(i.prevout) + (EncodeBytes(i.scriptSig) + tail);
    OutPointRoundTrip(i.prevout, EncodeBytes(i.scriptSig) + tail);
    BytesRoundTrip(i.scriptSig, tail);
    LeDecodes(i.sequence, 4, s);
  }

  lemma TxInCanonical(b: Bytes)
    ensures CanonicalAt(TX_IN, b)
  {
    Widths();
    if DecodeTxIn(b).Ok? {
      OutPointCanonical(b);
      var d := DecodeOutPoint(b);
      BytesCanonical(d.rest);
      var d' := DecodeBytes(d.rest);
      LeDecodesOnly(d'.rest, 4);
      var d'' := DecodeTxIn(b);
      Regroup(EncodeOutPoint(d.value), EncodeBytes(d'.value), EncodeLe(d''.value.sequence, 4), d''.rest);
    }
  }

  lemma Regroup(a: Bytes, b: Bytes, c: Bytes, s: Bytes)
    ensures (a + (b + c)) + s == a + (b + (c + s))
  {
  }

  lemma TxInLawful()
    ensures Lawful(TX_IN)
  {
    forall x: TxIn, s: Bytes | TX_IN.valid(x) ensures TX_IN.decode(TX_IN.encode(x) + s) == Ok(x, s) {
      TxInRoundTrip(x, s);
    }
    forall b: Bytes ensures CanonicalAt(TX_IN, b) {
      TxInCanonical(b);
    }
  }

  /** Amounts are signed 64-bit numbers in two's complement. */
  function ToU64(v: int): nat {
    v % U64
  }

  predicate IsI64(v: int) {
    -(U64 / 2) <= v < U64 / 2
  }

  lemma TwosComplement(u: int)
    requires 0 <= u < U64
    ensures IsI64(ToI64(u)) && ToU64(ToI64(u)) == u
  {
    UniqueModulus(ToI64(u), if u >= U64 / 2 then -1 else 0, u, U64);
  }

  lemma SignedSurvives(v: int)
    requires IsI64(v)
    ensures 0 <= ToU64(v) < U64 && ToI64(ToU64(v)) == v
  {
    UniqueModulus(v, if v < 0 then -1 else 0, if v < 0 then v + U64 else v, U64);
  }

  function EncodeTxOut(o: TxOut): Bytes {
    EncodeLe(ToU64(o.value), 8) + EncodeBytes(o.scriptPubkey)
  }

  function DecodeTxOut(b: Bytes): Parsed<TxOut> {
    match DecodeLe(b, 8)
    case Err(e) => Err(e)
    case Ok(u, rest) =>
      match DecodeBytes(rest)
      case Err(e) => Err(e)
      case Ok(script, rest') => Ok(TxOut(ToI64(u), script), rest')
  }

  predicate ValidTxOut(o: TxOut) {
    IsI64(o.value) && |o.scriptPubkey| <= MAX_SIZE
  }

  const TX_OUT: Codec<TxOut> := Codec(EncodeTxOut, DecodeTxOut, ValidTxOut)

  lemma TxOutRoundTrip(o: TxOut, s: Bytes)
    requires ValidTxOut(o)
    ensures DecodeTxOut(EncodeTxOut(o) + s) == Ok(o, s)
  {
    Widths();
    var u, amount, script := ToU64(o.value), EncodeLe(ToU64(o.value), 8), EncodeBytes(o.scriptPubkey);
    SignedSurvives(o.value);
    Append(amount, script, s);
    LeDecodes(u, 8, script + s);
    BytesRoundTrip(o.scriptPubkey, s);
  }

  lemma TxOutCanonical(b: Bytes)
    ensures CanonicalAt(TX_OUT, b)
  {
    Widths();
    if DecodeTxOut(b).Ok? {
      LeDecodesOnly(b, 8);
      var d := DecodeLe(b, 8);
      BytesCanonical(d.rest);
      var d' := DecodeBytes(d.rest);
      TwosComplement(d.value);
      Append(EncodeLe(d.value, 8), EncodeBytes(d'.value), d'.rest);
    }
  }

  lemma TxOutLawful()
    ensures Lawful(TX_OUT)
  {
    forall x: TxOut, s: Bytes | TX_OUT.valid(x) ensures TX_OUT.decode(TX_OUT.encode(x) + s) == Ok(x, s) {
      TxOutRoundTrip(x, s);
    }
    forall b: Bytes ensures CanonicalAt(TX_OUT, b) {
      TxOutCanonical(b);
    }
  }

  // ---------------------------------------------------------------------
  // Witness stacks
  // ---------------------------------------------------------------------

  predicate ValidItem(x: Bytes) {
    |x| <= MAX_SIZE
  }

  const ITEM: Codec<Bytes> := Codec(EncodeBytes, DecodeBytes, ValidItem)

  lemma ItemLawful()
    ensures Lawful(ITEM)
  {
    forall x: Bytes, s: Bytes | ITEM.valid(x) ensures ITEM.decode(ITEM.encode(x) + s) == Ok(x, s) {
      BytesRoundTrip(x, s);
    }
    forall b: Bytes ensures CanonicalAt(ITEM, b) {
      BytesCanonical(b);
    }
  }

  function EncodeStack(stack: seq<Bytes>): Bytes {
    EncodeVec(ITEM, stack)
  }

  function DecodeStack(b: Bytes): Parsed<seq<Bytes>> {
    DecodeVec(ITEM, b)
  }

  predicate ValidStack(stack: seq<Bytes>) {
    |stack| <= MAX_SIZE && forall i :: 0 <= i < |stack| ==> ValidItem(stack[i])
  }

  const STACK: Codec<seq<Bytes>> := Codec(EncodeStack, DecodeStack, ValidStack)

  lemma StackLawful()
    ensures Lawful(STACK)
  {
    ItemLawful();
    forall x: seq<Bytes>, s: Bytes | STACK.valid(x) ensures STACK.decode(STACK.encode(x) + s) == Ok(x, s) {
      VecRoundTrip(ITEM, x, s);
    }
    forall b: Bytes ensures CanonicalAt(STACK, b) {
      VecCanonical(ITEM, b);
    }
  }

  // ---------------------------------------------------------------------
  // Transactions
  // ---------------------------------------------------------------------

  predicate HasWitness(vin: seq<TxIn>) {
    exists i :: 0 <= i < |vin| && vin[i].witnessStack != []
  }

  function Stacks(vin: seq<TxIn>): (r: seq<seq<Bytes>>)
    ensures |r| == |vin| && forall i :: 0 <= i < |vin| ==> r[i] == vin[i].witnessStack
  {
    seq(|vin|, i requires 0 <= i < |vin| => vin[i].witnessStack)
  }

  function Bare(i: TxIn): TxIn {
    i.(witnessStack := [])
  }

  function BareAll(vin: seq<TxIn>): (r: seq<TxIn>)
    ensures |r| == |vin| && forall i :: 0 <= i < |vin| ==> r[i] == Bare(vin[i])
  {
    seq(|vin|, i requires 0 <= i < |vin| => Bare(vin[i]))
  }

  function Attach(vin: seq<TxIn>, stacks: seq<seq<Bytes>>): (r: seq<TxIn>)
    requires |vin| == |stacks|
    ensures |r| == |vin| && forall i :: 0 <= i < |vin| ==> r[i] == vin[i].(witnessStack := stacks[i])
  {
    seq(|vin|, i requires 0 <= i < |vin| => vin[i].(witnessStack := stacks[i]))
  }

  function EncodeLists(vin: seq<TxIn>, vout: seq<TxOut>): Bytes {
    EncodeVec(TX_IN, vin) + EncodeVec(TX_OUT, vout)
  }

  /** The extended form announces itself by an empty input list and a flag byte. */
  function EncodeTx(tx: Transaction, allowWitness: bool): Bytes {
    if allowWitness && HasWitness(tx.vin) then
      EncodeLe(tx.version, 4) + (WriteCompactSize(0) + ([1] +
        (EncodeLists(tx.vin, tx.vout) + (EncodeItems(STACK, Stacks(tx.vin)) + EncodeLe(tx.lockTime, 4)))))
    else
      EncodeLe(tx.version, 4) + (EncodeLists(tx.vin, tx.vout) + EncodeLe(tx.lockTime, 4))
  }

  function DecodeLists(b: Bytes): Parsed<(seq<TxIn>, seq<TxOut>)> {
    match DecodeVec(TX_IN, b)
    case Err(e) => Err(e)
    case Ok(vin, rest) =>
      match DecodeVec(TX_OUT, rest)
      case Err(e) => Err(e)
      case Ok(vout, rest') => Ok((vin, vout), rest')
  }

  /** Inputs, outputs and the flag byte; zero when there is none. */
  function DecodeBody(b: Bytes, allowWitness: bool): Parsed<(seq<TxIn>, seq<TxOut>, Byte)> {
    match DecodeVec(TX_IN, b)
    case Err(e) => Err(e)
    case Ok(vin, rest) =>
      if vin == [] && allowWitness then
        if rest == [] then Err(UnexpectedEof)
        else if rest[0] == 0 then Ok(([], [], 0), rest[1..])
        else match DecodeLists(rest[1..])
          case Err(e) => Err(e)
          case Ok(lists, rest') => Ok((lists.0, lists.1, rest[0]), rest')
      else match DecodeVec(TX_OUT, rest)
        case Err(e) => Err(e)
        case Ok(vout, rest') => Ok((vin, vout, 0), rest')
  }

  function DecodeWitness(vin: seq<TxIn>, flags: Byte, b: Bytes): Parsed<seq<TxIn>> {
    DecodeWitnessWith(STACK, vin, flags, b)
  }

  /** One stack per input, read by the given codec. */
  function DecodeWitnessWith(c: Codec<seq<Bytes>>, vin: seq<TxIn>, flags: Byte, b: Bytes): Parsed<seq<TxIn>> {
    if flags % 2 == 1 then
      match DecodeItems(c, |vin|, b)
      case Err(e) => Err(e)
      case Ok(stacks, rest) =>
        DecodedCount(c, |vin|, b);
        if !HasWitness(Attach(vin, stacks)) then Err(SuperfluousWitness)
        else if flags != 1 then Err(UnknownOptionalData)
        else Ok(Attach(vin, stacks), rest)
    else if flags != 0 then Err(UnknownOptionalData)
    else Ok(vin, b)
  }

  lemma {:induction false} DecodedCount<T>(c: Codec<T>, n: nat, b: Bytes)
    ensures DecodeItems(c, n, b).Ok? ==> |DecodeItems(c, n, b).value| == n
    decreases n
  {
    if n > 0 {
      DecodedCount(c, n - 1, b);
    }
  }

  function DecodeTx(b: Bytes, allowWitness: bool): Parsed<Transaction> {
    match DecodeLe(b, 4)
    case Err(e) => Err(e)
    case Ok(version, rest) =>
      match DecodeBody(rest, allowWitness)
      case Err(e) => Err(e)
      case Ok(body, rest1) =>
        match DecodeWitness(body.0, body.2, rest1)
        case Err(e) => Err(e)
        case Ok(vin, rest2) =>
          match DecodeLe(rest2, 4)
          case Err(e) => Err(e)
          case Ok(lockTime, rest3) => Ok(Transaction(version, vin, body.1, lockTime), rest3)
  }

  /** Field widths, and lengths within the limit that decoding enforces. */
  predicate ValidTx(tx: Transaction) {
    && tx.version < U32 && tx.lockTime < U32
    && |tx.vin| <= MAX_SIZE && |tx.vout| <= MAX_SIZE
    && (forall i :: 0 <= i < |tx.vin| ==> ValidTxIn(tx.vin[i]) && ValidStack(tx.vin[i].witnessStack))
    && (forall i :: 0 <= i < |tx.vout| ==> ValidTxOut(tx.vout[i]))
  }

  // ---------------------------------------------------------------------
  // Which bytes are written
  // ---------------------------------------------------------------------

  /** Hash, index, script with its length, sequence number. */
  lemma TxInLayout(i: TxIn)
    requires ValidOutPoint(i.prevout) && i.sequence < U32
    ensures var b := EncodeTxIn(i);
            && |b| >= 40 && b[..32] == i.prevout.hash && LeValue(b[32..36]) == i.prevout.n
            && b[36..|b| - 4] == WriteCompactSize(|i.scriptSig|) + i.scriptSig
            && LeValue(b[|b| - 4..]) == i.sequence
  {
    var b, script := EncodeTxIn(i), EncodeBytes(i.scriptSig);
    var index, sequence := EncodeLe(i.prevout.n, 4), EncodeLe(i.sequence, 4);
    Widths();
    LeRoundTrip(i.prevout.n, 4);
    LeRoundTrip(i.sequence, 4);
    assert b == i.prevout.hash + index + script + sequence;
    assert b[32..36] == index && b[36..|b| - 4] == script && b[|b| - 4..] == sequence;
  }

  /** Amount in two's complement, script with its length. */
  lemma TxOutLayout(o: TxOut)
    requires IsI64(o.value)
    ensures var b := EncodeTxOut(o);
            && |b| >= 8 && LeValue(b[..8]) == (if o.value < 0 then o.value + U64 else o.value)
            && b[8..] == WriteCompactSize(|o.scriptPubkey|) + o.scriptPubkey
  {
    Widths();
    UniqueModulus(o.value, if o.value < 0 then -1 else 0, if o.value < 0 then o.value + U64 else o.value, U64);
    LeRoundTrip(ToU64(o.value), 8);
    var b := EncodeTxOut(o);
    assert b[..8] == EncodeLe(ToU64(o.value), 8) && b[8..] == EncodeBytes(o.scriptPubkey);
  }

  /** The version comes first, the inputs and the outputs, each list after its length, and the lock time last. */
  lemma StrippedLayout(tx: Transaction)
    requires tx.version < U32 && tx.lockTime < U32
    ensures var b := EncodeTx(tx, false);
            && |b| >= 8 && LeValue(b[..4]) == tx.version && LeValue(b[|b| - 4..]) == tx.lockTime
            && b[4..|b| - 4] == WriteCompactSize(|tx.vin|) + EncodeItems(TX_IN, tx.vin)
                              + WriteCompactSize(|tx.vout|) + EncodeItems(TX_OUT, tx.vout)
  {
    var b, lists := EncodeTx(tx, false), EncodeLists(tx.vin, tx.vout);
    Widths();
    LeRoundTrip(tx.version, 4);
    LeRoundTrip(tx.lockTime, 4);
    SliceMiddle(EncodeLe(tx.version, 4), lists, EncodeLe(tx.lockTime, 4));
  }

  lemma SliceMiddle(a: Bytes, b: Bytes, c: Bytes)
    ensures var s := a + (b + c);
            s[..|a|] == a && s[|a|..|s| - |c|] == b && s[|s| - |c|..] == c
  {
  }

  /** The extended form is the stripped one with a zero and a flag after the version and the stacks, one per input,
      before the lock time. */
  lemma ExtendedLayout(tx: Transaction)
    requires HasWitness(tx.vin)
    ensures var b := EncodeTx(tx, false);
            && |b| >= 8
            && EncodeTx(tx, true) == b[..4] + [0, 1] + b[4..|b| - 4]
                                   + EncodeItems(STACK, Stacks(tx.vin)) + b[|b| - 4..]
  {
    Extended(
      EncodeLe(tx.version, 4), EncodeLists(tx.vin, tx.vout), EncodeItems(STACK, Stacks(tx.vin)),
      EncodeLe(tx.lockTime, 4));
  }

  lemma Extended(version: Bytes, lists: Bytes, stacks: Bytes, lock: Bytes)
    requires |version| == |lock| == 4
    ensures var b := version + (lists + lock);
            b[..4] + [0, 1] + b[4..|b| - 4] + stacks + b[|b| - 4..]
            == version + ([0] + ([1] + (lists + (stacks + lock))))
  {
    SliceMiddle(version, lists, lock);
  }

  /** A coinbase is told by the first 36 bytes of its only input: no hash and the greatest index. */
  lemma CoinbaseBytes(tx: Transaction)
    requires ValidTx(tx) && |tx.vin| == 1
    ensures |EncodeTxIn(tx.vin[0])| >= 36
    ensures IsCoinbase(tx) <==>
            EncodeTxIn(tx.vin[0])[..36] == seq(32, i => 0) + [0xff, 0xff, 0xff, 0xff]
  {
    var o, ones := tx.vin[0].prevout, [0xff, 0xff, 0xff, 0xff];
    Widths();
    LeRoundTrip(o.n, 4);
    NullIndexBytes();
    assert EncodeTxIn(tx.vin[0])[..36] == o.hash + EncodeLe(o.n, 4);
    SplitsAt(o.hash, EncodeLe(o.n, 4), seq(32, i => 0), ones);
  }

  lemma NullIndexBytes()
    ensures EncodeLe(NULL_INDEX, 4) == [0xff, 0xff, 0xff, 0xff]
  {
    assert EncodeLe(0xff, 1) == [0xff];
    assert EncodeLe(0xffff, 2) == [0xff] + EncodeLe(0xff, 1);
    assert EncodeLe(0xff_ffff, 3) == [0xff] + EncodeLe(0xffff, 2);
  }

  lemma SplitsAt(a: Bytes, b: Bytes, c: Bytes, d: Bytes)
    requires |a| == |c|
    ensures a + b == c + d <==> a == c && b == d
  {
    assert (a + b)[..|a|] == a && (a + b)[|a|..] == b && (c + d)[..|a|] == c && (c + d)[|a|..] == d;
  }

  // ---------------------------------------------------------------------
  // Decoding an encoding
  // ---------------------------------------------------------------------

  lemma InputsRoundTrip(tx: Transaction, s: Bytes)
    requires ValidTx(tx)
    ensures DecodeVec(TX_IN, EncodeVec(TX_IN, tx.vin) + s) == Ok(BareAll(tx.vin), s)
  {
    TxInLawful();
    SameUpToWitness(BareAll(tx.vin), tx.vin);
    VecRoundTrip(TX_IN, BareAll(tx.vin), s);
  }

  lemma OutputsRoundTrip(tx: Transaction, s: Bytes)
    requires ValidTx(tx)
    ensures DecodeVec(TX_OUT, EncodeVec(TX_OUT, tx.vout) + s) == Ok(tx.vout, s)
  {
    TxOutLawful();
    VecRoundTrip(TX_OUT, tx.vout, s);
  }

  lemma ListsDecode(b: Bytes, vin: seq<TxIn>, b': Bytes, vout: seq<TxOut>, s: Bytes)
    requires DecodeVec(TX_IN, b) == Ok(vin, b') && DecodeVec(TX_OUT, b') == Ok(vout, s)
    ensures DecodeLists(b) == Ok((vin, vout), s)
  {
  }

  lemma ListsRoundTrip(tx: Transaction, s: Bytes)
    requires ValidTx(tx)
    ensures DecodeLists(EncodeLists(tx.vin, tx.vout) + s) == Ok((BareAll(tx.vin), tx.vout), s)
  {
    var ins, outs := EncodeVec(TX_IN, tx.vin), EncodeVec(TX_OUT, tx.vout);
    assert (ins + outs) + s == ins + (outs + s);
    InputsRoundTrip(tx, outs + s);
    OutputsRoundTrip(tx, s);
    ListsDecode(ins + (outs + s), BareAll(tx.vin), outs + s, tx.vout, s);
  }

  lemma EmptyVec<T>(c: Codec<T>, s: Bytes)
    ensures DecodeVec(c, WriteCompactSize(0) + s) == Ok([], s)
  {
    SizeRoundTrip(0, s);
  }

  /** The extended form is recognised and its body read. */
  lemma ExtendedBody(tx: Transaction, s: Bytes)
    requires ValidTx(tx)
    ensures DecodeBody(WriteCompactSize(0) + ([1] + (EncodeLists(tx.vin, tx.vout) + s)), true)
         == Ok((BareAll(tx.vin), tx.vout, 1), s)
  {
    var tail := EncodeLists(tx.vin, tx.vout) + s;
    EmptyVec(TX_IN, [1] + tail);
    assert ([1] + tail)[1..] == tail;
    ListsRoundTrip(tx, s);
  }

  lemma PlainBody(tx: Transaction, s: Bytes, allowWitness: bool)
    requires ValidTx(tx) && (tx.vin != [] || tx.vout == [] || !allowWitness)
    ensures DecodeBody(EncodeLists(tx.vin, tx.vout) + s, allowWitness) == Ok((BareAll(tx.vin), tx.vout, 0), s)
  {
    var outs := EncodeVec(TX_OUT, tx.vout) + s;
    assert EncodeLists(tx.vin, tx.vout) + s == EncodeVec(TX_IN, tx.vin) + outs;
    InputsRoundTrip(tx, outs);
    OutputsRoundTrip(tx, s);
    if tx.vin == [] && allowWitness {
      assert BareAll(tx.vin) == [] && EncodeVec(TX_OUT, tx.vout) == [0];
      EmptyBodyDecode(EncodeVec(TX_IN, tx.vin) + outs, outs, s);
    } else {
      BodyDecode(EncodeVec(TX_IN, tx.vin) + outs, BareAll(tx.vin), outs, tx.vout, s, allowWitness);
    }
  }

  lemma {:induction false} BodyDecode(
      b: Bytes, vin: seq<TxIn>, b': Bytes, vout: seq<TxOut>, s: Bytes, allowWitness: bool)
    requires DecodeVec(TX_IN, b) == Ok(vin, b') && DecodeVec(TX_OUT, b') == Ok(vout, s) && (vin != [] || !allowWitness)
    ensures DecodeBody(b, allowWitness) == Ok((vin, vout, 0), s)
  {
  }

  lemma {:induction false} EmptyBodyDecode(b: Bytes, b': Bytes, s: Bytes)
    requires DecodeVec(TX_IN, b) == Ok([], b') && b' == [0] + s
    ensures DecodeBody(b, true) == Ok(([], [], 0), s)
  {
    assert b'[1..] == s;
  }

  lemma StacksRoundTrip(tx: Transaction, s: Bytes)
    requires ValidTx(tx)
    ensures DecodeItems(STACK, |tx.vin|, EncodeItems(STACK, Stacks(tx.vin)) + s) == Ok(Stacks(tx.vin), s)
  {
    StackLawful();
    assert AllValid(STACK, Stacks(tx.vin));
    ItemsRoundTrip(STACK, Stacks(tx.vin), s);
  }

  lemma AttachOwnStacks(vin: seq<TxIn>)
    ensures Attach(BareAll(vin), Stacks(vin)) == vin
  {
  }

  lemma WitnessRoundTrip(tx: Transaction, s: Bytes)
    requires ValidTx(tx) && HasWitness(tx.vin)
    ensures DecodeWitness(BareAll(tx.vin), 1, EncodeItems(STACK, Stacks(tx.vin)) + s) == Ok(tx.vin, s)
  {
    StacksRoundTrip(tx, s);
    AttachOwnStacks(tx.vin);
    WitnessDecode(STACK, BareAll(tx.vin), EncodeItems(STACK, Stacks(tx.vin)) + s, Stacks(tx.vin), s);
  }

  lemma {:induction false} WitnessDecode(
      c: Codec<seq<Bytes>>, vin: seq<TxIn>, b: Bytes, stacks: seq<seq<Bytes>>, s: Bytes)
    requires |stacks| == |vin| && DecodeItems(c, |vin|, b) == Ok(stacks, s) && HasWitness(Attach(vin, stacks))
    ensures DecodeWitnessWith(c, vin, 1, b) == Ok(Attach(vin, stacks), s)
  {
  }

  lemma NoWitnessIsBare(vin: seq<TxIn>)
    requires !HasWitness(vin)
    ensures BareAll(vin) == vin
  {
    forall i | 0 <= i < |vin| ensures BareAll(vin)[i] == vin[i] {
      assert vin[i].witnessStack == [];
    }
  }

  /** Decoding an encoding followed by anything returns the transaction and what followed. */
  lemma TxRoundTrip(tx: Transaction, s: Bytes)
    requires ValidTx(tx) && (tx.vin != [] || tx.vout == [])
    ensures DecodeTx(EncodeTx(tx, true) + s, true) == Ok(tx, s)
  {
    Widths();
    var lock := EncodeLe(tx.lockTime, 4) + s;
    var lists := EncodeLists(tx.vin, tx.vout);
    LeDecodes(tx.lockTime, 4, s);
    if HasWitness(tx.vin) {
      var stacks := EncodeItems(STACK, Stacks(tx.vin));
      var body := WriteCompactSize(0) + ([1] + (lists + (stacks + lock)));
      ExtendedRegroup(EncodeLe(tx.version, 4), WriteCompactSize(0), [1], lists, stacks, EncodeLe(tx.lockTime, 4), s);
      LeDecodes(tx.version, 4, body);
      ExtendedBody(tx, stacks + lock);
      WitnessRoundTrip(tx, lock);
    } else {
      Regroup(EncodeLe(tx.version, 4), lists, EncodeLe(tx.lockTime, 4), s);
      LeDecodes(tx.version, 4, lists + lock);
      PlainBody(tx, lock, true);
      NoWitnessIsBare(tx.vin);
    }
  }

  lemma ExtendedRegroup(v: Bytes, z: Bytes, f: Bytes, l: Bytes, w: Bytes, t: Bytes, s: Bytes)
    ensures (v + (z + (f + (l + (w + t))))) + s == v + (z + (f + (l + (w + (t + s)))))
  {
    Append(v, z + (f + (l + (w + t))), s);
    Append(z, f + (l + (w + t)), s);
    Append(f, l + (w + t), s);
    Append(l, w + t, s);
    Append(w, t, s);
  }

  lemma Append(a: Bytes, b: Bytes, s: Bytes)
    ensures (a + b) + s == a + (b + s)
  {
  }

  /** The form that is hashed into the txid: it round-trips for every transaction, less the witness. */
  lemma StrippedRoundTrip(tx: Transaction, s: Bytes)
    requires ValidTx(tx)
    ensures DecodeTx(EncodeTx(tx, false) + s, false) == Ok(tx.(vin := BareAll(tx.vin)), s)
  {
    Widths();
    var lists := EncodeLists(tx.vin, tx.vout);
    var lock := EncodeLe(tx.lockTime, 4) + s;
    Regroup(EncodeLe(tx.version, 4), lists, EncodeLe(tx.lockTime, 4), s);
    LeDecodes(tx.version, 4, lists + lock);
    PlainBody(tx, lock, false);
    LeDecodes(tx.lockTime, 4, s);
  }

  // ---------------------------------------------------------------------
  // Accepted bytes are encodings
  // ---------------------------------------------------------------------

  lemma ListsCanonical(b: Bytes)
    ensures DecodeLists(b).Ok? ==>
            var d := DecodeLists(b);
            && EncodeLists(d.value.0, d.value.1) + d.rest == b
            && AllValid(TX_IN, d.value.0) && AllValid(TX_OUT, d.value.1)
            && |d.value.0| <= MAX_SIZE && |d.value.1| <= MAX_SIZE
  {
    TxInLawful();
    TxOutLawful();
    VecCanonical(TX_IN, b);
    if DecodeLists(b).Ok? {
      var d := DecodeVec(TX_IN, b);
      VecCanonical(TX_OUT, d.rest);
      var d' := DecodeVec(TX_OUT, d.rest);
      Append(EncodeVec(TX_IN, d.value), EncodeVec(TX_OUT, d'.value), d'.rest);
    }
  }

  /** Without the extended form the body is the two lists. */
  lemma PlainBodyIsLists(b: Bytes)
    requires DecodeBody(b, true).Ok? && DecodeBody(b, true).value.2 == 0
    ensures var d := DecodeBody(b, true);
            && DecodeLists(b).Ok? && DecodeLists(b).rest == d.rest && DecodeLists(b).value == (d.value.0, d.value.1)
            && (d.value.0 != [] || d.value.1 == [])
  {
    var ins := DecodeVec(TX_IN, b);
    if ins.value == [] {
      assert ins.rest[..1] + ins.rest[1..] == ins.rest;
      EmptyVec(TX_OUT, ins.rest[1..]);
      assert WriteCompactSize(0) == [0] == ins.rest[..1];
    }
  }

  lemma EmptyVecIsZero(b: Bytes)
    requires DecodeVec(TX_IN, b).Ok? && DecodeVec(TX_IN, b).value == []
    ensures b == WriteCompactSize(0) + DecodeVec(TX_IN, b).rest && WriteCompactSize(0) == [0]
  {
    TxInLawful();
    VecCanonical(TX_IN, b);
    assert EncodeVec(TX_IN, []) == [0];
  }

  /** The extended form starts with an empty list and its flag byte. */
  lemma ExtendedBodyIsLists(b: Bytes)
    requires DecodeBody(b, true).Ok? && DecodeBody(b, true).value.2 != 0
    ensures var d := DecodeBody(b, true);
            && |b| >= 2 && b == WriteCompactSize(0) + ([d.value.2] + b[2..])
            && DecodeLists(b[2..]).Ok? && DecodeLists(b[2..]).rest == d.rest
            && DecodeLists(b[2..]).value == (d.value.0, d.value.1)
  {
    EmptyVecIsZero(b);
    var rest := DecodeVec(TX_IN, b).rest;
    assert rest == [rest[0]] + rest[1..];
    assert rest[1..] == b[2..];
  }

  lemma BareCodecInputs(vin: seq<TxIn>)
    requires AllValid(TX_IN, vin)
    ensures !HasWitness(vin) && forall i :: 0 <= i < |vin| ==> ValidTxIn(vin[i]) && ValidStack(vin[i].witnessStack)
  {
    forall i | 0 <= i < |vin| ensures ValidTxIn(vin[i]) && vin[i].witnessStack == [] {
      assert TX_IN.valid(vin[i]);
    }
  }

  /** Encodings agree wherever the inputs agree up to their witness. */
  lemma {:induction false} SameUpToWitness(v: seq<TxIn>, w: seq<TxIn>)
    requires |v| == |w| && forall i :: 0 <= i < |v| ==> Bare(v[i]) == Bare(w[i])
    ensures EncodeItems(TX_IN, v) == EncodeItems(TX_IN, w)
    decreases |v|
  {
    if v != [] {
      var n := |v| - 1;
      SameUpToWitness(v[..n], w[..n]);
      assert Bare(v[n]) == Bare(w[n]);
    }
  }

  lemma AttachEncodes(vin: seq<TxIn>, stacks: seq<seq<Bytes>>)
    requires |vin| == |stacks|
    ensures EncodeItems(TX_IN, Attach(vin, stacks)) == EncodeItems(TX_IN, vin)
  {
    SameUpToWitness(Attach(vin, stacks), vin);
  }

  lemma StacksOfAttached(vin: seq<TxIn>, stacks: seq<seq<Bytes>>)
    requires |vin| == |stacks|
    ensures Stacks(Attach(vin, stacks)) == stacks
  {
  }

  lemma PlainCanonical(b: Bytes)
    requires DecodeTx(b, true).Ok? && DecodeBody(DecodeLe(b, 4).rest, true).value.2 == 0
    ensures var d := DecodeTx(b, true);
            && EncodeTx(d.value, true) + d.rest == b
            && ValidTx(d.value) && (d.value.vin != [] || d.value.vout == [])
  {
    Widths();
    var d, v := DecodeTx(b, true), DecodeLe(b, 4);
    LeDecodesOnly(b, 4);
    PlainBodyIsLists(v.rest);
    ListsCanonical(v.rest);
    var lists := DecodeLists(v.rest);
    LeDecodesOnly(lists.rest, 4);
    BareCodecInputs(d.value.vin);
    Regroup(EncodeLe(v.value, 4), EncodeLists(d.value.vin, d.value.vout), EncodeLe(d.value.lockTime, 4), d.rest);
    OutputsValid(d.value.vout);
  }

  lemma OutputsValid(vout: seq<TxOut>)
    requires AllValid(TX_OUT, vout)
    ensures forall i :: 0 <= i < |vout| ==> ValidTxOut(vout[i])
  {
    forall i | 0 <= i < |vout| ensures ValidTxOut(vout[i]) {
      assert TX_OUT.valid(vout[i]);
    }
  }

  lemma AttachedInputsValid(vin: seq<TxIn>, stacks: seq<seq<Bytes>>)
    requires |vin| == |stacks| && AllValid(TX_IN, vin) && AllValid(STACK, stacks)
    ensures var all := Attach(vin, stacks);
            forall i :: 0 <= i < |all| ==> ValidTxIn(all[i]) && ValidStack(all[i].witnessStack)
  {
    forall i | 0 <= i < |vin| ensures ValidTxIn(vin[i]) && ValidStack(stacks[i]) {
      assert TX_IN.valid(vin[i]) && STACK.valid(stacks[i]);
    }
  }

  lemma ExtendedCanonical(b: Bytes)
    requires DecodeTx(b, true).Ok? && DecodeBody(DecodeLe(b, 4).rest, true).value.2 != 0
    ensures var d := DecodeTx(b, true);
            && EncodeTx(d.value, true) + d.rest == b
            && ValidTx(d.value) && d.value.vin != []
  {
    Widths();
    var d, v := DecodeTx(b, true), DecodeLe(b, 4);
    LeDecodesOnly(b, 4);
    ExtendedBodyIsLists(v.rest);
    var after := v.rest[2..];
    ListsCanonical(after);
    var lists := DecodeLists(after);
    var vin := lists.value.0;
    StackLawful();
    ItemsCanonical(STACK, |vin|, lists.rest);
    var stacks := DecodeItems(STACK, |vin|, lists.rest);
    LeDecodesOnly(stacks.rest, 4);
    AttachEncodes(vin, stacks.value);
    StacksOfAttached(vin, stacks.value);
    AttachedInputsValid(vin, stacks.value);
    OutputsValid(d.value.vout);
    assert EncodeLists(d.value.vin, d.value.vout) == EncodeLists(vin, d.value.vout);
    ExtendedRegroup(EncodeLe(v.value, 4), WriteCompactSize(0), [1], EncodeLists(vin, d.value.vout),
                    EncodeItems(STACK, stacks.value), EncodeLe(d.value.lockTime, 4), d.rest);
  }

  /** Any accepted byte string is the encoding of the transaction it decodes to, followed by what was left over. */
  lemma TxCanonical(b: Bytes)
    requires DecodeTx(b, true).Ok?
    ensures var d := DecodeTx(b, true);
            && EncodeTx(d.value, true) + d.rest == b
            && ValidTx(d.value) && (d.value.vin != [] || d.value.vout == [])
  {
    if DecodeBody(DecodeLe(b, 4).rest, true).value.2 == 0 {
      PlainCanonical(b);
    } else {
      ExtendedCanonical(b);
    }
  }

  /** Exactly the transactions within the size limits that have inputs, or have neither inputs nor outputs, survive. */
  lemma TxRoundTripIff(tx: Transaction, s: Bytes)
    ensures DecodeTx(EncodeTx(tx, true) + s, true) == Ok(tx, s) <==> ValidTx(tx) && (tx.vin != [] || tx.vout == [])
  {
    if DecodeTx(EncodeTx(tx, true) + s, true) == Ok(tx, s) {
      TxCanonical(EncodeTx(tx, true) + s);
    } else if ValidTx(tx) && (tx.vin != [] || tx.vout == []) {
      TxRoundTrip(tx, s);
    }
  }

  // ---------------------------------------------------------------------
  // The writer and the reader
  // ---------------------------------------------------------------------

  method SerializeTransaction(tx: Transaction, allowWitness: bool) returns (w: Bytes)
    ensures w == EncodeTx(tx, allowWitness)
  {
    var version, lock := EncodeLe(tx.version, 4), EncodeLe(tx.lockTime, 4);
    var flags := if allowWitness && HasWitness(tx.vin) then 1 else 0;
    w := version;
    if flags != 0 {
      w := w + WriteCompactSize(0) + [1];
    }
    var lists := WriteLists(tx);
    w := w + lists;
    if flags != 0 {
      var stacks := WriteStacks(tx.vin);
      w := w + stacks;
      ExtendedWritten(version, WriteCompactSize(0), [1], lists, stacks, lock);
    } else {
      Append(version, lists, lock);
    }
    w := w + lock;
  }

  method WriteLists(tx: Transaction) returns (w: Bytes)
    ensures w == EncodeLists(tx.vin, tx.vout)
  {
    w := WriteVec(TX_IN, tx.vin);
    var outputs := WriteVec(TX_OUT, tx.vout);
    w := w + outputs;
  }

  lemma ExtendedWritten(v: Bytes, z: Bytes, f: Bytes, l: Bytes, w: Bytes, t: Bytes)
    ensures v + z + f + l + w + t == v + (z + (f + (l + (w + t))))
  {
    Append(v + z + f + l, w, t);
    Append(v + z + f, l, w + t);
    Append(v + z, f, l + (w + t));
    Append(v, z, f + (l + (w + t)));
  }

  method WriteStacks(vin: seq<TxIn>) returns (w: Bytes)
    ensures w == EncodeItems(STACK, Stacks(vin))
  {
    w := [];
    var stacks := Stacks(vin);
    for i := 0 to |vin|
      invariant w == EncodeItems(STACK, stacks[..i])
    {
      assert stacks[..i + 1][..i] == stacks[..i];
      var stack := WriteVec(ITEM, vin[i].witnessStack);
      w := w + stack;
    }
    assert stacks[..|vin|] == stacks;
  }

  method DeserializeTransaction(b: Bytes, allowWitness: bool) returns (r: Parsed<Transaction>)
    ensures r == DecodeTx(b, allowWitness)
  {
    var version := DecodeLe(b, 4);
    if version.Err? {
      return Err(version.error);
    }
    var flags: Byte := 0;
    var ins := ReadVec(TX_IN, version.rest);
    if ins.Err? {
      return Err(ins.error);
    }
    var vin, vout, rest := ins.value, [], ins.rest;
    if vin == [] && allowWitness {
      if rest == [] {
        return Err(UnexpectedEof);
      }
      flags, rest := rest[0], rest[1..];
      if flags != 0 {
        ins := ReadVec(TX_IN, rest);
        if ins.Err? {
          return Err(ins.error);
        }
        var outs := ReadVec(TX_OUT, ins.rest);
        if outs.Err? {
          return Err(outs.error);
        }
        vin, vout, rest := ins.value, outs.value, outs.rest;
      }
    } else {
      var outs := ReadVec(TX_OUT, rest);
      if outs.Err? {
        return Err(outs.error);
      }
      vout, rest := outs.value, outs.rest;
    }
    assert DecodeBody(version.rest, allowWitness) == Ok((vin, vout, flags), rest);
    var witnessed := ReadWitness(vin, flags, rest);
    if witnessed.Err? {
      return Err(witnessed.error);
    }
    var lockTime := DecodeLe(witnessed.rest, 4);
    if lockTime.Err? {
      return Err(lockTime.error);
    }
    return Ok(Transaction(version.value, witnessed.value, vout, lockTime.value), lockTime.rest);
  }

  /** Reads one stack per input, then refuses a witness that is empty throughout and any flag but the first. */
  method ReadWitness(vin: seq<TxIn>, flags: Byte, b: Bytes) returns (r: Parsed<seq<TxIn>>)
    ensures r == DecodeWitness(vin, flags, b)
  {
    if flags % 2 == 1 {
      var stacks, rest := [], b;
      for n := 0 to |vin|
        invariant |stacks| == n && DecodeItems(STACK, n, b) == Ok(stacks, rest)
      {
        var stack := ReadVec(ITEM, rest);
        if stack.Err? {
          ItemsError(STACK, n + 1, |vin|, b);
          return Err(stack.error);
        }
        stacks, rest := stacks + [stack.value], stack.rest;
      }
      var all := Attach(vin, stacks);
      if !HasWitness(all) {
        return Err(SuperfluousWitness);
      }
      if flags != 1 {
        return Err(UnknownOptionalData);
      }
      return Ok(all, rest);
    }
    if flags != 0 {
      return Err(UnknownOptionalData);
    }
    return Ok(vin, b);
  }
}
