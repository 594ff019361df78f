/** The byte-level key layout of the append-only index, and key sets. */
module IndexerKeys {
  import opened Arith
  import opened Transactions
  import opened Codec

  /** "/__height__/" */
  const HEIGHT_INFIX: Bytes := [0x2f, 0x5f, 0x5f, 0x68, 0x65, 0x69, 0x67, 0x68, 0x74, 0x5f, 0x5f, 0x2f]
  /** "__keyset__/" */
  const KEYSET_PREFIX: Bytes := [0x5f, 0x5f, 0x6b, 0x65, 0x79, 0x73, 0x65, 0x74, 0x5f, 0x5f, 0x2f]
  /** "__H2H__/" */
  const HASH_PREFIX: Bytes := [0x5f, 0x5f, 0x48, 0x32, 0x48, 0x5f, 0x5f, 0x2f]
  /** "__HEIGHT__" */
  const HEIGHT_KEY: Bytes := [0x5f, 0x5f, 0x48, 0x45, 0x49, 0x47, 0x48, 0x54, 0x5f, 0x5f]

  /** "__WASM_HASH__" */
  const WASM_HASH_KEY: Bytes := [0x5f, 0x5f, 0x57, 0x41, 0x53, 0x4d, 0x5f, 0x48, 0x41, 0x53, 0x48, 0x5f, 0x5f]
  /** "__REORG_HEIGHT__" */
  const REORG_HEIGHT_KEY: Bytes :=
    [0x5f, 0x5f, 0x52, 0x45, 0x4f, 0x52, 0x47, 0x5f, 0x48, 0x45, 0x49, 0x47, 0x48, 0x54, 0x5f, 0x5f]

  const LENGTH_SENTINEL: nat := 0xFFFF_FFFF

  /** What a stored key means. */
  datatype DbKey =
    | LengthKey(key: Bytes)
    | IndexKey(key: Bytes, index: nat)
    | EntryHeightKey(key: Bytes, index: nat)
    | KeysetKey(height: nat)
    | HashKey(height: nat)
    | TipKey
    | WasmHashKey
    | ReorgHeightKey

  function KeyBytes(k: DbKey): Bytes {
    match k
    case LengthKey(key) => key + EncodeLe(LENGTH_SENTINEL, 4)
    case IndexKey(key, index) => key + EncodeLe(index, 4)
    case EntryHeightKey(key, index) => key + HEIGHT_INFIX + EncodeLe(index, 4)
    case KeysetKey(height) => KEYSET_PREFIX + EncodeLe(height, 4)
    case HashKey(height) => HASH_PREFIX + EncodeLe(height, 4)
    case TipKey => HEIGHT_KEY
    case WasmHashKey => WASM_HASH_KEY
    case ReorgHeightKey => REORG_HEIGHT_KEY
  }

  predicate EndsWith(b: Bytes, suffix: Bytes) {
    |b| >= |suffix| && b[|b| - |suffix|..] == suffix
  }

  /** Logical keys that do not run into the names the index keeps for itself. */
  predicate Ordinary(key: Bytes) {
    && !EndsWith(key, HEIGHT_INFIX)
    && key != KEYSET_PREFIX && key != HASH_PREFIX
    && key != HEIGHT_KEY[..6] && key != WASM_HASH_KEY[..9] && key != REORG_HEIGHT_KEY[..12]
  }

  /** An ordinary key, with numbers of 32 bits and no list as long as the length sentinel. */
  predicate Usable(k: DbKey) {
    match k
    case LengthKey(key) => Ordinary(key)
    case IndexKey(key, index) => Ordinary(key) && index < LENGTH_SENTINEL
    case EntryHeightKey(key, index) => Ordinary(key) && index < U32
    case KeysetKey(height) => height < U32
    case HashKey(height) => height < U32
    case TipKey => true
    case WasmHashKey => true
    case ReorgHeightKey => true
  }

  /** Every stored key is a name followed by a 32-bit number. */
  function Name(k: DbKey): Bytes {
    match k
    case LengthKey(key) => key
    case IndexKey(key, _) => key
    case EntryHeightKey(key, _) => key + HEIGHT_INFIX
    case KeysetKey(_) => KEYSET_PREFIX
    case HashKey(_) => HASH_PREFIX
    case TipKey => HEIGHT_KEY[..6]
    case WasmHashKey => WASM_HASH_KEY[..9]
    case ReorgHeightKey => REORG_HEIGHT_KEY[..12]
  }

  function Number(k: DbKey): nat {
    match k
    case LengthKey(_) => LENGTH_SENTINEL
    case IndexKey(_, index) => index
    case EntryHeightKey(_, index) => index
    case KeysetKey(height) => height
    case HashKey(height) => height
    case TipKey => LeValue(HEIGHT_KEY[6..])
    case WasmHashKey => LeValue(WASM_HASH_KEY[9..])
    case ReorgHeightKey => LeValue(REORG_HEIGHT_KEY[12..])
  }

  lemma NameThenNumber(k: DbKey)
    requires Usable(k)
    ensures Number(k) < Bytes256(4) && KeyBytes(k) == Name(k) + EncodeLe(Number(k), 4)
  {
    Widths();
    if k.TipKey? {
      FixedName(HEIGHT_KEY, 6);
    } else if k.WasmHashKey? {
      FixedName(WASM_HASH_KEY, 9);
    } else if k.ReorgHeightKey? {
      FixedName(REORG_HEIGHT_KEY, 12);
    }
  }

  lemma FixedName(name: Bytes, n: nat)
    requires |name| == n + 4
    ensures LeValue(name[n..]) < Bytes256(4) && name == name[..n] + EncodeLe(LeValue(name[n..]), 4)
  {
    var tail := name[n..];
    LeCanonical(tail);
    assert EncodeLe(LeValue(tail), |tail|) == tail;
  }

  lemma SameNameAndNumber(a: Bytes, i: nat, b: Bytes, j: nat)
    requires i < Bytes256(4) && j < Bytes256(4) && a + EncodeLe(i, 4) == b + EncodeLe(j, 4)
    ensures a == b && i == j
  {
    var s, t := a + EncodeLe(i, 4), b + EncodeLe(j, 4);
    assert a == s[..|a|] && b == t[..|b|];
    assert EncodeLe(i, 4) == s[|a|..] && EncodeLe(j, 4) == t[|b|..];
    LeRoundTrip(i, 4);
    LeRoundTrip(j, 4);
  }

  lemma InfixEnds(key: Bytes)
    ensures EndsWith(key + HEIGHT_INFIX, HEIGHT_INFIX)
  {
  }

  lemma ReservedNamesDiffer()
    ensures |KEYSET_PREFIX| == 11 && |HASH_PREFIX| == 8 && |HEIGHT_KEY[..6]| == 6
    ensures |WASM_HASH_KEY[..9]| == 9 && |REORG_HEIGHT_KEY[..12]| == 12
    ensures !EndsWith(KEYSET_PREFIX, HEIGHT_INFIX) && !EndsWith(HASH_PREFIX, HEIGHT_INFIX)
    ensures !EndsWith(HEIGHT_KEY[..6], HEIGHT_INFIX) && !EndsWith(WASM_HASH_KEY[..9], HEIGHT_INFIX)
    ensures !EndsWith(REORG_HEIGHT_KEY[..12], HEIGHT_INFIX)
  {
    assert REORG_HEIGHT_KEY[..12][0] == 0x5f && HEIGHT_INFIX[0] == 0x2f;
  }

  /** Usable keys of all families are told apart by their bytes. */
  lemma KeyFamiliesNeverAlias(a: DbKey, b: DbKey)
    requires Usable(a) && Usable(b) && KeyBytes(a) == KeyBytes(b)
    ensures a == b
  {
    NameThenNumber(a);
    NameThenNumber(b);
    SameNameAndNumber(Name(a), Number(a), Name(b), Number(b));
    ReservedNamesDiffer();
    if a.EntryHeightKey? {
      InfixEnds(a.key);
    }
    if b.EntryHeightKey? {
      InfixEnds(b.key);
    }
    if a.EntryHeightKey? && b.EntryHeightKey? {
      var n := |a.key|;
      assert a.key == Name(a)[..n] && b.key == Name(b)[..n];
    }
  }

  /** The excluded names do collide: with entry heights, key sets, canonical hashes and the tip. */
  lemma ReservedNamesAlias(key: Bytes, i: nat)
    requires i < U32
    ensures KeyBytes(IndexKey(key + HEIGHT_INFIX, i)) == KeyBytes(EntryHeightKey(key, i))
    ensures KeyBytes(IndexKey(KEYSET_PREFIX, i)) == KeyBytes(KeysetKey(i))
    ensures KeyBytes(IndexKey(HASH_PREFIX, i)) == KeyBytes(HashKey(i))
    ensures KeyBytes(IndexKey(HEIGHT_KEY[..6], Number(TipKey))) == KeyBytes(TipKey)
    ensures KeyBytes(IndexKey(WASM_HASH_KEY[..9], Number(WasmHashKey))) == KeyBytes(WasmHashKey)
    ensures KeyBytes(IndexKey(REORG_HEIGHT_KEY[..12], Number(ReorgHeightKey))) == KeyBytes(ReorgHeightKey)
    ensures KeyBytes(IndexKey(key, LENGTH_SENTINEL)) == KeyBytes(LengthKey(key))
  {
    NameThenNumber(WasmHashKey);
    NameThenNumber(ReorgHeightKey);
    NameThenNumber(TipKey);
  }

  /** The byte test by which a scan takes a stored key for a list length. */
  predicate LooksLikeLength(b: Bytes) {
    |b| >= 4 && EndsWith(b, EncodeLe(LENGTH_SENTINEL, 4))
  }

  /** The test finds exactly the keys whose number is the sentinel, and what precedes it is their name: for a length
      that is the logical key, and no list entry passes. */
  lemma LengthRecognised(k: DbKey)
    requires Usable(k)
    ensures LooksLikeLength(KeyBytes(k)) <==> Number(k) == LENGTH_SENTINEL
    ensures |KeyBytes(k)| >= 4 && KeyBytes(k)[..|KeyBytes(k)| - 4] == Name(k)
    ensures LeValue(KeyBytes(k)[|KeyBytes(k)| - 4..]) == Number(k)
    ensures k.LengthKey? ==> LooksLikeLength(KeyBytes(k)) && Name(k) == k.key
    ensures k.IndexKey? ==> !LooksLikeLength(KeyBytes(k))
  {
    NameThenNumber(k);
    Widths();
    var b := KeyBytes(k);
    assert b[|b| - 4..] == EncodeLe(Number(k), 4);
    LeRoundTrip(Number(k), 4);
    LeRoundTrip(LENGTH_SENTINEL, 4);
  }

  // ---------------------------------------------------------------------
  // Key sets
  // ---------------------------------------------------------------------

  function EncodeKeys(keys: seq<Bytes>): Bytes {
    if keys == [] then [] else (EncodeLe(|keys[0]|, 4) + keys[0]) + EncodeKeys(keys[1..])
  }

  function EncodeKeySet(keys: seq<Bytes>): Bytes {
    EncodeLe(|keys|, 4) + EncodeKeys(keys)
  }

  /** At most `count` keys from a position on; a truncated record ends the list early. */
  function KeysFrom(data: Bytes, pos: nat, count: nat): seq<Bytes>
    requires pos <= |data|
    decreases count, data
  {
    if count == 0 || pos + 4 > |data| then []
    else
      var len := LeValue(data[pos..pos + 4]);
      if pos + 4 + len > |data| then []
      else [data[pos + 4..pos + 4 + len]] + KeysFrom(data, pos + 4 + len, count - 1)
  }

  function DecodeKeySet(data: Bytes): seq<Bytes> {
    if |data| < 4 then [] else KeysFrom(data, 4, LeValue(data[..4]))
  }

  /** Where a record's length field and key lie. */
  lemma RecordParts(prefix: Bytes, head: Bytes, key: Bytes, rest: Bytes)
    requires |head| == 4
    ensures var data := prefix + ((head + key) + rest);
            var pos := |prefix|;
            && data[pos..pos + 4] == head && data[pos + 4..pos + 4 + |key|] == key
            && data == (prefix + (head + key)) + rest
  {
  }

  lemma OneRecord(prefix: Bytes, key: Bytes, rest: Bytes)
    requires |key| < U32
    ensures var data := prefix + ((EncodeLe(|key|, 4) + key) + rest);
            var pos := |prefix|;
            && LeValue(data[pos..pos + 4]) == |key| && data[pos + 4..pos + 4 + |key|] == key
            && data == (prefix + (EncodeLe(|key|, 4) + key)) + rest
  {
    Widths();
    LeRoundTrip(|key|, 4);
    RecordParts(prefix, EncodeLe(|key|, 4), key, rest);
  }

  lemma {:induction false} KeysRoundTrip(prefix: Bytes, keys: seq<Bytes>)
    requires forall i :: 0 <= i < |keys| ==> |keys[i]| < U32
    ensures KeysFrom(prefix + EncodeKeys(keys), |prefix|, |keys|) == keys
    decreases |keys|
  {
    if keys != [] {
      var key := keys[0];
      OneRecord(prefix, key, EncodeKeys(keys[1..]));
      KeysRoundTrip(prefix + (EncodeLe(|key|, 4) + key), keys[1..]);
      assert keys == [key] + keys[1..];
    }
  }

  /** Decoding a key set gives back every key, in order and with repetitions. */
  lemma KeySetRoundTrip(keys: seq<Bytes>)
    requires |keys| < U32 && forall i :: 0 <= i < |keys| ==> |keys[i]| < U32
    ensures DecodeKeySet(EncodeKeySet(keys)) == keys
  {
    Widths();
    LeRoundTrip(|keys|, 4);
    assert EncodeKeySet(keys)[..4] == EncodeLe(|keys|, 4);
    KeysRoundTrip(EncodeLe(|keys|, 4), keys);
  }

  /** The count, then each key after its length, in order. */
  lemma KeySetLayout(keys: seq<Bytes>, i: nat)
    requires i < |keys| < U32 && |keys[i]| < U32
    ensures var data := EncodeKeySet(keys);
            var pos := 4 + |EncodeKeys(keys[..i])|;
            && |data| >= pos + 4 + |keys[i]| && LeValue(data[..4]) == |keys|
            && LeValue(data[pos..pos + 4]) == |keys[i]| && data[pos + 4..pos + 4 + |keys[i]|] == keys[i]
  {
    Widths();
    LeRoundTrip(|keys|, 4);
    KeysSplit(keys, i);
    var head, before := EncodeLe(|keys|, 4), EncodeKeys(keys[..i]);
    var after := (EncodeLe(|keys[i]|, 4) + keys[i]) + EncodeKeys(keys[i + 1..]);
    assert keys[i..][1..] == keys[i + 1..];
    assert EncodeKeySet(keys) == (head + before) + after;
    assert EncodeKeySet(keys)[..4] == head;
    OneRecord(head + before, keys[i], EncodeKeys(keys[i + 1..]));
  }

  lemma {:induction false} KeysSplit(keys: seq<Bytes>, i: nat)
    requires i <= |keys|
    ensures EncodeKeys(keys) == EncodeKeys(keys[..i]) + EncodeKeys(keys[i..])
    decreases i
  {
    if i == 0 {
      assert keys[0..] == keys;
    } else {
      KeysSplit(keys[1..], i - 1);
      assert keys[1..][..i - 1] == keys[..i][1..] && keys[1..][i - 1..] == keys[i..];
    }
  }

  method DecodeKeySetLoop(data: Bytes) returns (keys: seq<Bytes>)
    ensures keys == DecodeKeySet(data)
  {
    if |data| < 4 {
      return [];
    }
    keys := ReadKeys(data, LeValue(data[..4]));
  }

  method ReadKeys(data: Bytes, count: nat) returns (keys: seq<Bytes>)
    requires |data| >= 4
    ensures keys == KeysFrom(data, 4, count)
  {
    keys := [];
    var pos := 4;
    for n := 0 to count
      invariant 4 <= pos <= |data|
      invariant keys + KeysFrom(data, pos, count - n) == KeysFrom(data, 4, count)
    {
      if pos + 4 > |data| {
        break;
      }
      var len := LeValue(data[pos..pos + 4]);
      if pos + 4 + len > |data| {
        break;
      }
      var key := data[pos + 4..pos + 4 + len];
      pos := pos + 4 + len;
      ghost var rest := KeysFrom(data, pos, count - n - 1);
      assert keys + ([key] + rest) == (keys + [key]) + rest;
      keys := keys + [key];
    }
  }
}
