/** Rolling the append-only index back to a height: by key sets while they last, then by a scan.

    The store is keyed by what each byte key means; the byte layout keeps usable keys apart. */
module Rollback {
  import opened Arith
  import opened Wrappers
  import opened Transactions
  import opened Codec
  import opened IndexerKeys

  type Db = map<DbKey, Bytes>

  function GetU32(db: Db, k: DbKey): Option<nat> {
    if k in db && |db[k]| >= 4 then Some(LeValue(db[k][..4])) else None
  }

  function U32Or0(db: Db, k: DbKey): nat {
    match GetU32(db, k)
    case None => 0
    case Some(v) => v
  }

  function Length(db: Db, key: Bytes): nat {
    U32Or0(db, LengthKey(key))
  }

  function TipHeight(db: Db): nat {
    U32Or0(db, TipKey)
  }

  function HeightAt(db: Db, key: Bytes, i: nat): nat {
    U32Or0(db, EntryHeightKey(key, i))
  }

  // ---------------------------------------------------------------------
  // Well-formed append lists
  // ---------------------------------------------------------------------

  /** Entry `i` of a list is stored exactly when `i` is below the recorded length, with its height. */
  ghost predicate EntryOk(db: Db, key: Bytes, i: nat) {
    && (IndexKey(key, i) in db <==> i < Length(db, key))
    && (EntryHeightKey(key, i) in db <==> i < Length(db, key))
    && (i < Length(db, key) ==> |db[EntryHeightKey(key, i)]| >= 4)
    && (0 < i < Length(db, key) ==> HeightAt(db, key, i - 1) <= HeightAt(db, key, i))
  }

  /** Contiguous entries with non-decreasing heights. */
  ghost predicate ListOk(db: Db, key: Bytes) {
    Length(db, key) < U32 && forall i: nat :: EntryOk(db, key, i)
  }

  ghost predicate DbOk(db: Db) {
    forall key: Bytes :: ListOk(db, key)
  }

  /** How many of the first `n` entries have a height up to `h`: with sorted heights, a prefix. */
  ghost function Kept(db: Db, key: Bytes, n: nat, h: int): (m: nat)
    ensures m <= n
    decreases n, db
  {
    if n == 0 || HeightAt(db, key, n - 1) <= h then n else Kept(db, key, n - 1, h)
  }

  ghost function KeptAt(db: Db, key: Bytes, h: int): nat {
    Kept(db, key, Length(db, key), h)
  }

  lemma {:induction false} HeightsSorted(db: Db, key: Bytes, i: nat, j: nat)
    requires ListOk(db, key) && i <= j < Length(db, key)
    ensures HeightAt(db, key, i) <= HeightAt(db, key, j)
    decreases j
  {
    if i < j {
      HeightsSorted(db, key, i, j - 1);
      assert EntryOk(db, key, j);
    }
  }

  /** The kept prefix is exactly the entries at or below the height. */
  lemma {:induction false} KeptIsPrefix(db: Db, key: Bytes, n: nat, h: int, i: nat)
    requires ListOk(db, key) && i < n <= Length(db, key)
    ensures i < Kept(db, key, n, h) <==> HeightAt(db, key, i) <= h
    decreases n
  {
    if HeightAt(db, key, n - 1) <= h {
      HeightsSorted(db, key, i, n - 1);
    } else if i < n - 1 {
      KeptIsPrefix(db, key, n - 1, h, i);
    }
  }

  /** Entries of `key` at exactly height `h`. */
  ghost function EntriesAt(db: Db, key: Bytes, h: nat): set<int> {
    set i | 0 <= i < Length(db, key) && HeightAt(db, key, i) == h
  }

  ghost function Range(a: int, b: int): (r: set<int>)
    ensures forall i :: i in r <==> a <= i < b
    ensures a <= b ==> |r| == b - a
    decreases b - a
  {
    if a >= b then {} else Range(a, b - 1) + {b - 1}
  }

  lemma {:induction false} KeptMonotone(db: Db, key: Bytes, n: nat, g: int, h: int)
    requires g <= h
    ensures Kept(db, key, n, g) <= Kept(db, key, n, h)
    decreases n
  {
    if n > 0 && HeightAt(db, key, n - 1) > h {
      KeptMonotone(db, key, n - 1, g, h);
    }
  }

  /** Lowering the bound by one height drops exactly the entries at that height. */
  lemma KeptStep(db: Db, key: Bytes, h: nat)
    requires ListOk(db, key)
    ensures KeptAt(db, key, h) == KeptAt(db, key, h - 1) + |EntriesAt(db, key, h)|
  {
    var n := Length(db, key);
    var lo, hi := KeptAt(db, key, h - 1), KeptAt(db, key, h);
    KeptMonotone(db, key, n, h - 1, h);
    forall i | 0 <= i < n ensures (lo <= i < hi <==> HeightAt(db, key, i) == h) {
      KeptIsPrefix(db, key, n, h, i);
      KeptIsPrefix(db, key, n, h - 1, i);
    }
    assert EntriesAt(db, key, h) == Range(lo, hi);
  }

  // ---------------------------------------------------------------------
  // Truncation
  // ---------------------------------------------------------------------

  ghost predicate SameEntry(db: Db, db': Db, key: Bytes, m: nat, i: nat) {
    if i < m then
      && IndexKey(key, i) in db && IndexKey(key, i) in db' && db'[IndexKey(key, i)] == db[IndexKey(key, i)]
      && EntryHeightKey(key, i) in db && EntryHeightKey(key, i) in db'
      && db'[EntryHeightKey(key, i)] == db[EntryHeightKey(key, i)]
    else
      IndexKey(key, i) !in db' && EntryHeightKey(key, i) !in db'
  }

  /** In `db'` the list of `key` is the first `m` entries it has in `db`. */
  ghost predicate CutTo(db: Db, db': Db, key: Bytes, m: nat) {
    && m <= Length(db, key) && Length(db', key) == m
    && forall i: nat :: SameEntry(db, db', key, m, i)
  }

  /** Deleting the entry at `idx` and recording the shorter length. */
  function Pop(db: Db, key: Bytes, idx: nat): Db {
    (db - {IndexKey(key, idx), EntryHeightKey(key, idx)})[LengthKey(key) := EncodeLe(idx, 4)]
  }

  lemma StoredU32(db: Db, k: DbKey, v: nat)
    requires v < U32
    ensures GetU32(db[k := EncodeLe(v, 4)], k) == Some(v)
  {
    Widths();
    LeRoundTrip(v, 4);
    assert EncodeLe(v, 4)[..4] == EncodeLe(v, 4);
  }

  lemma PopCuts(db: Db, db': Db, key: Bytes, m: nat)
    requires CutTo(db, db', key, m) && 0 < m && Length(db, key) < U32
    ensures CutTo(db, Pop(db', key, m - 1), key, m - 1)
  {
    var idx := m - 1;
    var next := Pop(db', key, idx);
    StoredU32(db' - {IndexKey(key, idx), EntryHeightKey(key, idx)}, LengthKey(key), idx);
    forall i: nat ensures SameEntry(db, next, key, idx, i) {
      assert SameEntry(db, db', key, m, i);
    }
  }

  /** Other lists, key sets and the tip are untouched. */
  lemma PopFrame(db: Db, db': Db, key: Bytes, idx: nat, other: Bytes, m: nat)
    requires CutTo(db, db', other, m) && other != key
    ensures CutTo(db, Pop(db', key, idx), other, m)
  {
    var next := Pop(db', key, idx);
    forall i: nat ensures SameEntry(db, next, other, m, i) {
      assert SameEntry(db, db', other, m, i);
    }
  }

  lemma Untouched(db: Db, key: Bytes)
    requires ListOk(db, key)
    ensures CutTo(db, db, key, Length(db, key))
  {
    forall i: nat ensures SameEntry(db, db, key, Length(db, key), i) {
      assert EntryOk(db, key, i);
    }
  }

  /** List entries in the whole store. */
  ghost function Entries(db: Db): set<DbKey> {
    set k | k in db && k.IndexKey?
  }

  lemma PopRemovesOne(db: Db, key: Bytes, idx: nat)
    requires IndexKey(key, idx) in db
    ensures |Entries(db)| == |Entries(Pop(db, key, idx))| + 1
  {
    assert Entries(db) == Entries(Pop(db, key, idx)) + {IndexKey(key, idx)};
  }

  /** The whole index cut back: every list keeps exactly its entries at or below `h`. */
  ghost predicate CutAll(db: Db, db': Db, h: int) {
    forall key: Bytes :: CutTo(db, db', key, KeptAt(db, key, h))
  }

  /** A key set that is present lists each key once per entry at its height. */
  ghost predicate KeysetOk(db: Db, h: nat) {
    KeysetKey(h) in db ==> KeysetListsEntries(db, h, DecodeKeySet(db[KeysetKey(h)]))
  }

  ghost predicate KeysetListsEntries(db: Db, h: nat, keys: seq<Bytes>) {
    forall key: Bytes :: multiset(keys)[key] == |EntriesAt(db, key, h)|
  }

  /** No entry is above the recorded tip. */
  ghost predicate BelowTip(db: Db) {
    forall key: Bytes :: KeptAt(db, key, TipHeight(db)) == Length(db, key)
  }

  // ---------------------------------------------------------------------
  // Cuts compose
  // ---------------------------------------------------------------------

  lemma CutHeights(db: Db, db': Db, key: Bytes, m: nat, i: nat)
    requires CutTo(db, db', key, m) && i < m
    ensures HeightAt(db', key, i) == HeightAt(db, key, i)
  {
    assert SameEntry(db, db', key, m, i);
  }

  lemma CutListOk(db: Db, db': Db, key: Bytes, m: nat)
    requires ListOk(db, key) && CutTo(db, db', key, m)
    ensures ListOk(db', key)
  {
    forall i: nat ensures EntryOk(db', key, i) {
      assert SameEntry(db, db', key, m, i);
      assert EntryOk(db, key, i);
      if 0 < i < m {
        CutHeights(db, db', key, m, i);
        CutHeights(db, db', key, m, i - 1);
      }
    }
  }

  lemma CutCompose(db: Db, mid: Db, db': Db, key: Bytes, m: nat, n: nat)
    requires CutTo(db, mid, key, m) && CutTo(mid, db', key, n)
    ensures CutTo(db, db', key, n)
  {
    forall i: nat ensures SameEntry(db, db', key, n, i) {
      assert SameEntry(mid, db', key, n, i);
      assert SameEntry(db, mid, key, m, i);
    }
  }

  /** What a lower bound keeps of a list already cut is what it keeps of the original. */
  lemma {:induction false} KeptOfCut(db: Db, db': Db, key: Bytes, m: nat, n: nat, h: int)
    requires CutTo(db, db', key, m) && n <= m
    ensures Kept(db', key, n, h) == Kept(db, key, n, h)
    decreases n
  {
    if n > 0 {
      CutHeights(db, db', key, m, n - 1);
      KeptOfCut(db, db', key, m, n - 1, h);
    }
  }

  /** Scanning down from a higher cut reaches the same point. */
  lemma {:induction false} KeptTwice(db: Db, key: Bytes, n: nat, g: int, h: int)
    requires g <= h
    ensures Kept(db, key, Kept(db, key, n, h), g) == Kept(db, key, n, g)
    decreases n
  {
    if n > 0 && HeightAt(db, key, n - 1) > h {
      KeptTwice(db, key, n - 1, g, h);
    }
  }

  lemma CutAllCompose(db: Db, mid: Db, db': Db, h: int, target: int)
    requires CutAll(db, mid, h) && CutAll(mid, db', target) && target <= h
    ensures CutAll(db, db', target)
  {
    forall key: Bytes ensures CutTo(db, db', key, KeptAt(db, key, target)) {
      var m := KeptAt(db, key, h);
      KeptOfCut(db, mid, key, m, m, target);
      KeptTwice(db, key, Length(db, key), target, h);
      CutCompose(db, mid, db', key, m, KeptAt(mid, key, target));
    }
  }

  /** Everything but lists and the tip. */
  ghost predicate SameMeta(db: Db, db': Db) {
    forall k: DbKey :: k.KeysetKey? || k.HashKey? || k.WasmHashKey? || k.ReorgHeightKey? ==>
      (k in db <==> k in db') && (k in db ==> db'[k] == db[k])
  }

  // ---------------------------------------------------------------------
  // The two passes
  // ---------------------------------------------------------------------

  /** The length of a list as the pending batch will leave it. */
  function PendingLength(db: Db, lengthCache: map<Bytes, nat>, key: Bytes): nat {
    if key in lengthCache then lengthCache[key] else Length(db, key)
  }

  ghost predicate CacheAgrees(db: Db, batch: Db, lengthCache: map<Bytes, nat>) {
    forall key: Bytes :: PendingLength(db, lengthCache, key) == Length(batch, key)
  }

  /** Drops the last entry of a list, if it has one. */
  function PopLast(db: Db, key: Bytes): Db {
    var n := Length(db, key);
    if n > 0 then Pop(db, key, n - 1) else db
  }

  /** One entry dropped for every listed key that still has one. */
  function PopEach(db: Db, keys: seq<Bytes>): Db
    decreases |keys|
  {
    if keys == [] then db else PopEach(PopLast(db, keys[0]), keys[1..])
  }

  /** How many of the listed keys still had one. */
  function PopCount(db: Db, keys: seq<Bytes>): nat
    decreases |keys|
  {
    if keys == [] then 0
    else (if Length(db, keys[0]) > 0 then 1 else 0) + PopCount(PopLast(db, keys[0]), keys[1..])
  }

  ghost predicate ShortLists(db: Db) {
    forall k: Bytes :: Length(db, k) < U32
  }

  lemma PopLastLengths(db: Db, key: Bytes)
    requires ShortLists(db)
    ensures ShortLists(PopLast(db, key))
    ensures Length(PopLast(db, key), key) == if Length(db, key) > 0 then Length(db, key) - 1 else 0
    ensures forall other: Bytes :: other != key ==> Length(PopLast(db, key), other) == Length(db, other)
  {
    var n := Length(db, key);
    if n > 0 {
      StoredU32(db - {IndexKey(key, n - 1), EntryHeightKey(key, n - 1)}, LengthKey(key), n - 1);
    }
    var next := PopLast(db, key);
    forall other: Bytes ensures Length(next, other) == if other == key && n > 0 then n - 1 else Length(db, other) {
    }
    forall other: Bytes ensures Length(next, other) < U32 {
      assert Length(db, other) < U32;
    }
  }

  lemma PopEachStep(db: Db, keys: seq<Bytes>, j: nat)
    requires j < |keys|
    ensures PopEach(PopLast(db, keys[j]), keys[j + 1..]) == PopEach(db, keys[j..])
    ensures PopCount(db, keys[j..])
         == (if Length(db, keys[j]) > 0 then 1 else 0) + PopCount(PopLast(db, keys[j]), keys[j + 1..])
  {
    assert keys[j..][1..] == keys[j + 1..];
  }

  /** Pops the last entry of each listed key; repeated keys see the lengths left by earlier pops. */
  method PopKeys(db: Db, batch0: Db, cache0: map<Bytes, nat>, keys: seq<Bytes>)
    returns (batch: Db, lengthCache: map<Bytes, nat>, popped: nat)
    requires CacheAgrees(db, batch0, cache0) && ShortLists(batch0)
    ensures batch == PopEach(batch0, keys) && popped == PopCount(batch0, keys)
    ensures CacheAgrees(db, batch, lengthCache)
  {
    batch, lengthCache, popped := batch0, cache0, 0;
    assert keys[0..] == keys;
    for j := 0 to |keys|
      invariant PopEach(batch, keys[j..]) == PopEach(batch0, keys)
      invariant popped + PopCount(batch, keys[j..]) == PopCount(batch0, keys)
      invariant CacheAgrees(db, batch, lengthCache) && ShortLists(batch)
    {
      var key := keys[j];
      PopEachStep(batch, keys, j);
      PopLastLengths(batch, key);
      var currentLen := PendingLength(db, lengthCache, key);
      assert currentLen == Length(batch, key);
      if currentLen > 0 {
        var idx := currentLen - 1;
        CacheFollowsPop(db, batch, lengthCache, key);
        batch := Pop(batch, key, idx);
        lengthCache := lengthCache[key := idx];
        popped := popped + 1;
      }
    }
  }

  // ---------------------------------------------------------------------
  // What popping does to the lists, whatever the keys
  // ---------------------------------------------------------------------

  /** Every list of `batch` is a prefix of the list in `db`. */
  ghost predicate IsCut(db: Db, batch: Db) {
    forall key: Bytes :: CutTo(db, batch, key, Length(batch, key))
  }

  /** Subtraction that stops at 0. */
  function Minus(a: nat, b: nat): nat {
    if a <= b then 0 else a - b
  }

  lemma CutIsShort(db: Db, batch: Db)
    requires DbOk(db) && IsCut(db, batch)
    ensures ShortLists(batch)
  {
    forall key: Bytes ensures Length(batch, key) < U32 {
      assert ListOk(db, key) && CutTo(db, batch, key, Length(batch, key));
    }
  }

  lemma PopLastCuts(db: Db, batch: Db, key: Bytes)
    requires DbOk(db) && IsCut(db, batch)
    ensures IsCut(db, PopLast(batch, key)) && SameMeta(batch, PopLast(batch, key))
    ensures |Entries(batch)| == |Entries(PopLast(batch, key))| + (if Length(batch, key) > 0 then 1 else 0)
  {
    CutIsShort(db, batch);
    PopLastLengths(batch, key);
    var m, next := Length(batch, key), PopLast(batch, key);
    assert CutTo(db, batch, key, m) && ListOk(db, key);
    if m > 0 {
      assert SameEntry(db, batch, key, m, m - 1);
      PopRemovesOne(batch, key, m - 1);
      PopCuts(db, batch, key, m);
      forall other: Bytes ensures CutTo(db, next, other, Length(next, other)) {
        assert CutTo(db, batch, other, Length(batch, other));
        if other != key {
          PopFrame(db, batch, key, m - 1, other, Length(batch, other));
        }
      }
    }
  }

  /** Popping by any list of keys shortens each list by as often as it is named, down to nothing. */
  lemma {:induction false} PopEachCuts(db: Db, batch: Db, keys: seq<Bytes>)
    requires DbOk(db) && IsCut(db, batch)
    ensures IsCut(db, PopEach(batch, keys)) && SameMeta(batch, PopEach(batch, keys))
    ensures PopCount(batch, keys) + |Entries(PopEach(batch, keys))| == |Entries(batch)|
    decreases |keys|
  {
    if keys != [] {
      PopLastCuts(db, batch, keys[0]);
      PopEachCuts(db, PopLast(batch, keys[0]), keys[1..]);
    }
  }

  lemma {:induction false} PopEachLength(db: Db, keys: seq<Bytes>, key: Bytes)
    requires ShortLists(db)
    ensures Length(PopEach(db, keys), key) == Minus(Length(db, key), multiset(keys)[key])
    decreases |keys|
  {
    if keys != [] {
      PopLastLengths(db, keys[0]);
      assert keys == [keys[0]] + keys[1..];
      PopEachLength(PopLast(db, keys[0]), keys[1..], key);
    }
  }

  /** A right key set for the highest remaining height takes off exactly that height's entries. */
  lemma KeysetCuts(db: Db, batch: Db, h: nat, keys: seq<Bytes>)
    requires DbOk(db) && KeysetListsEntries(db, h, keys) && CutAll(db, batch, h)
    ensures CutAll(db, PopEach(batch, keys), h - 1)
  {
    var g: int := h - 1;
    CutAllIsCut(db, batch, h);
    CutIsShort(db, batch);
    PopEachCuts(db, batch, keys);
    forall key: Bytes ensures CutTo(db, PopEach(batch, keys), key, KeptAt(db, key, g)) {
      assert CutTo(db, PopEach(batch, keys), key, Length(PopEach(batch, keys), key));
      assert CutTo(db, batch, key, KeptAt(db, key, h)) && ListOk(db, key);
      PopEachLength(batch, keys, key);
      KeptStep(db, key, h);
    }
  }

  lemma CutAllIsCut(db: Db, batch: Db, h: int)
    requires CutAll(db, batch, h)
    ensures IsCut(db, batch)
  {
    forall key: Bytes ensures CutTo(db, batch, key, Length(batch, key)) {
      assert CutTo(db, batch, key, KeptAt(db, key, h));
    }
  }

  lemma CacheFollowsPop(db: Db, batch: Db, lengthCache: map<Bytes, nat>, key: Bytes)
    requires CacheAgrees(db, batch, lengthCache) && 0 < Length(batch, key) < U32
    ensures CacheAgrees(db, Pop(batch, key, Length(batch, key) - 1), lengthCache[key := Length(batch, key) - 1])
  {
    var idx := Length(batch, key) - 1;
    StoredU32(batch - {IndexKey(key, idx), EntryHeightKey(key, idx)}, LengthKey(key), idx);
    var next, cache := Pop(batch, key, idx), lengthCache[key := idx];
    forall other: Bytes ensures PendingLength(db, cache, other) == Length(next, other) {
      assert PendingLength(db, lengthCache, other) == Length(batch, other);
    }
  }

  /** A height between `h` and the tip without a key set. */
  ghost predicate GapAbove(db: Db, h: nat, tip: nat) {
    exists g: nat :: h < g <= tip && KeysetKey(g) !in db
  }

  /** How often the key set of height `h` lists `key`. */
  function Lists(db: Db, h: nat, key: Bytes): nat {
    if KeysetKey(h) in db then multiset(DecodeKeySet(db[KeysetKey(h)]))[key] else 0
  }

  /** How often the key sets above `low` up to `high` list `key`. */
  ghost function Listed(db: Db, key: Bytes, low: nat, high: nat): nat
    decreases high - low, db
  {
    if low >= high then 0 else Lists(db, low + 1, key) + Listed(db, key, low + 1, high)
  }

  /** Where the walk down from `h` ends: at the target, or at the first height without a key set. */
  ghost function WalkEnd(db: Db, target: nat, h: nat): (end: nat)
    ensures end <= h && (target <= h ==> target <= end)
    decreases h, db
  {
    if h <= target || KeysetKey(h) !in db then h else WalkEnd(db, target, h - 1)
  }

  /** Each list is shorter by as often as the key sets above `h` list it. */
  ghost predicate WalkedTo(db: Db, batch: Db, h: nat, tip: nat) {
    forall key: Bytes :: Length(batch, key) == Minus(Length(db, key), Listed(db, key, h, tip))
  }

  /** Walks down from the tip by key sets, batching every change; stops at the first height without one. Each list is
      cut by as often as the key sets walked over list it, right or wrong. */
  method KeysetPass(db: Db, target: nat, tip: nat) returns (batch: Db, reached: nat, deleted: nat)
    requires DbOk(db) && target < tip
    ensures reached == WalkEnd(db, target, tip)
    ensures IsCut(db, batch) && WalkedTo(db, batch, reached, tip)
    ensures reached > target ==> KeysetKey(reached) !in db
    ensures KeysetsCleared(db, batch, reached, tip)
    ensures deleted + |Entries(batch)| == |Entries(db)|
  {
    batch, deleted := db, 0;
    var lengthCache: map<Bytes, nat> := map[];
    var h := tip;
    WholeIsCut(db);
    while h > target
      invariant target <= h <= tip && WalkEnd(db, target, h) == WalkEnd(db, target, tip)
      invariant IsCut(db, batch) && WalkedTo(db, batch, h, tip) && CacheAgrees(db, batch, lengthCache)
      invariant KeysetsCleared(db, batch, h, tip)
      invariant deleted + |Entries(batch)| == |Entries(db)|
    {
      if KeysetKey(h) !in db {
        return batch, h, deleted;
      }
      var keys := DecodeKeySetLoop(db[KeysetKey(h)]);
      ghost var before := batch;
      var popped;
      CutIsShort(db, batch);
      WalkStep(db, batch, h, tip);
      batch, lengthCache, popped := PopKeys(db, batch, lengthCache, keys);
      ghost var after := batch;
      batch := batch - {KeysetKey(h)};
      deleted := deleted + popped;
      CutUnderMeta(db, after, batch);
      ClearOne(db, before, after, h, tip);
      h := h - 1;
    }
    reached := target;
  }

  /** The key sets above `h` are gone, all others are as they were. */
  ghost predicate KeysetsCleared(db: Db, batch: Db, h: nat, tip: nat) {
    forall g: nat :: KeysetCleared(db, batch, h, tip, g)
  }

  ghost predicate SameKeyset(db: Db, now: Db, g: nat) {
    (KeysetKey(g) in now <==> KeysetKey(g) in db) && (KeysetKey(g) in db ==> now[KeysetKey(g)] == db[KeysetKey(g)])
  }

  ghost predicate KeysetCleared(db: Db, batch: Db, h: nat, tip: nat, g: nat) {
    if h < g <= tip then KeysetKey(g) in db && KeysetKey(g) !in batch
    else SameKeyset(db, batch, g)
  }

  lemma ClearOne(db: Db, before: Db, after: Db, h: nat, tip: nat)
    requires KeysetsCleared(db, before, h, tip) && SameMeta(before, after) && 0 < h <= tip && KeysetKey(h) in db
    ensures KeysetsCleared(db, after - {KeysetKey(h)}, h - 1, tip)
  {
    var less, below := after - {KeysetKey(h)}, h - 1;
    forall g: nat ensures KeysetCleared(db, less, below, tip, g) {
      assert KeysetCleared(db, before, h, tip, g);
      assert KeysetKey(g) in before <==> KeysetKey(g) in after;
    }
  }

  lemma WalkStep(db: Db, batch: Db, h: nat, tip: nat)
    requires DbOk(db) && IsCut(db, batch) && 0 < h <= tip && WalkedTo(db, batch, h, tip) && KeysetKey(h) in db
    ensures var next := PopEach(batch, DecodeKeySet(db[KeysetKey(h)]));
            && IsCut(db, next) && WalkedTo(db, next, h - 1, tip) && SameMeta(batch, next)
            && PopCount(batch, DecodeKeySet(db[KeysetKey(h)])) + |Entries(next)| == |Entries(batch)|
  {
    var keys := DecodeKeySet(db[KeysetKey(h)]);
    var next := PopEach(batch, keys);
    CutIsShort(db, batch);
    PopEachCuts(db, batch, keys);
    forall key: Bytes ensures Length(next, key) == Minus(Length(db, key), Listed(db, key, h - 1, tip)) {
      PopEachLength(batch, keys, key);
      assert Length(batch, key) == Minus(Length(db, key), Listed(db, key, h, tip));
      assert Listed(db, key, h - 1, tip) == Lists(db, h, key) + Listed(db, key, h, tip);
    }
  }

  predicate IsListKey(k: DbKey) {
    k.LengthKey? || k.IndexKey? || k.EntryHeightKey?
  }

  /** Only key sets, hashes and the tip differ. */
  ghost predicate ListsUntouched(db: Db, db': Db) {
    forall k: DbKey :: IsListKey(k) ==> (k in db <==> k in db') && (k in db ==> db'[k] == db[k])
  }

  /** Changes outside the lists leave every cut as it is. */
  lemma CutUnderMeta(db: Db, batch: Db, batch': Db)
    requires IsCut(db, batch) && ListsUntouched(batch, batch')
    ensures IsCut(db, batch') && Entries(batch') == Entries(batch)
    ensures forall key: Bytes :: Length(batch', key) == Length(batch, key)
  {
    forall key: Bytes ensures Length(batch', key) == Length(batch, key) {
      assert IsListKey(LengthKey(key));
    }
    forall key: Bytes ensures CutTo(db, batch', key, Length(batch', key)) {
      assert CutTo(db, batch, key, Length(batch, key));
      forall i: nat ensures SameEntry(db, batch', key, Length(batch, key), i) {
        assert SameEntry(db, batch, key, Length(batch, key), i);
        assert IsListKey(IndexKey(key, i)) && IsListKey(EntryHeightKey(key, i));
      }
    }
    assert forall k: DbKey :: k.IndexKey? ==> IsListKey(k);
  }

  /** A change elsewhere leaves a cut list as it is. */
  lemma CutFrame(db: Db, batch: Db, batch': Db, key: Bytes, m: nat)
    requires CutTo(db, batch, key, m) && Length(batch', key) == Length(batch, key)
    requires forall i: nat :: IndexKey(key, i) in batch' <==> IndexKey(key, i) in batch
    requires forall i: nat :: EntryHeightKey(key, i) in batch' <==> EntryHeightKey(key, i) in batch
    requires forall i: nat :: IndexKey(key, i) in batch ==> batch'[IndexKey(key, i)] == batch[IndexKey(key, i)]
    requires forall i: nat :: EntryHeightKey(key, i) in batch ==>
               batch'[EntryHeightKey(key, i)] == batch[EntryHeightKey(key, i)]
    ensures CutTo(db, batch', key, m)
  {
    forall i: nat ensures SameEntry(db, batch', key, m, i) {
      assert SameEntry(db, batch, key, m, i);
    }
  }

  lemma WholeIsCut(db: Db)
    requires DbOk(db)
    ensures IsCut(db, db) && CacheAgrees(db, db, map[])
  {
    forall key: Bytes ensures CutTo(db, db, key, Length(db, key)) {
      assert ListOk(db, key);
      Untouched(db, key);
    }
  }

  /** Recording the tip touches no list. */
  lemma TipWrite(db: Db, batch: Db, height: nat, bound: int)
    requires height < U32 && CutAll(db, batch, bound)
    ensures var batch' := batch[TipKey := EncodeLe(height, 4)];
            && CutAll(db, batch', bound) && TipHeight(batch') == height
            && Entries(batch') == Entries(batch) && SameMeta(batch, batch')
  {
    var batch' := batch[TipKey := EncodeLe(height, 4)];
    StoredU32(batch, TipKey, height);
    forall key: Bytes ensures CutTo(db, batch', key, KeptAt(db, key, bound)) {
      assert CutTo(db, batch, key, KeptAt(db, key, bound));
      CutFrame(db, batch, batch', key, KeptAt(db, key, bound));
    }
  }

  // ---------------------------------------------------------------------
  // The scan
  // ---------------------------------------------------------------------

  lemma PopInList(db: Db, next: Db, key: Bytes, m: nat)
    requires CutTo(db, next, key, m) && 0 < m && Length(db, key) < U32
    requires SameMeta(db, next) && OthersSame(db, next, key)
    ensures var less := Pop(next, key, m - 1);
            && CutTo(db, less, key, m - 1) && SameMeta(db, less) && OthersSame(db, less, key)
            && |Entries(next)| == |Entries(less)| + 1
  {
    assert SameEntry(db, next, key, m, m - 1);
    PopRemovesOne(next, key, m - 1);
    PopCuts(db, next, key, m);
  }

  /** Walks one list backwards, dropping entries above the target, and stops at the first that stays. */
  method CutList(db: Db, key: Bytes, target: nat) returns (next: Db, dropped: nat)
    requires ListOk(db, key)
    ensures CutTo(db, next, key, KeptAt(db, key, target))
    ensures SameMeta(db, next) && dropped + |Entries(next)| == |Entries(db)|
    ensures OthersSame(db, next, key)
  {
    next, dropped := db, 0;
    Untouched(db, key);
    var idx := Length(db, key);
    while idx > 0
      invariant 0 <= idx <= Length(db, key)
      invariant CutTo(db, next, key, idx) && Kept(db, key, idx, target) == KeptAt(db, key, target)
      invariant SameMeta(db, next) && dropped + |Entries(next)| == |Entries(db)|
      invariant OthersSame(db, next, key)
    {
      assert EntryOk(db, key, idx - 1);
      if HeightAt(db, key, idx - 1) <= target {
        break;
      }
      PopInList(db, next, key, idx);
      next := Pop(next, key, idx - 1);
      idx, dropped := idx - 1, dropped + 1;
    }
  }

  /** Only keys of one list differ. */
  ghost predicate OthersSame(db: Db, next: Db, key: Bytes) {
    forall k: DbKey :: !Mentions(k, key) ==> (k in next <==> k in db) && (k in db ==> next[k] == db[k])
  }

  predicate Mentions(k: DbKey, key: Bytes) {
    (k.LengthKey? || k.IndexKey? || k.EntryHeightKey?) && k.key == key
  }

  /** Where the scan has got to: lists still to visit are whole, the others are cut. */
  ghost predicate Scanned(db: Db, now: Db, remaining: set<Bytes>, target: int) {
    forall key: Bytes :: ScannedAt(db, now, remaining, target, key)
  }

  ghost predicate ScannedAt(db: Db, now: Db, remaining: set<Bytes>, target: int, key: Bytes) {
    CutTo(db, now, key, if key in remaining then Length(db, key) else KeptAt(db, key, target))
  }

  lemma ScanStep(db: Db, now: Db, next: Db, remaining: set<Bytes>, target: int, key: Bytes)
    requires DbOk(db) && Scanned(db, now, remaining, target) && key in remaining
    requires ListOk(now, key) ==> CutTo(now, next, key, KeptAt(now, key, target))
    requires OthersSame(now, next, key)
    ensures ListOk(now, key)
    ensures Scanned(db, next, remaining - {key}, target)
  {
    ScanListOk(db, now, remaining, target, key);
    var n := Length(db, key);
    KeptOfCut(db, now, key, n, n, target);
    CutCompose(db, now, next, key, n, KeptAt(now, key, target));
    forall other: Bytes ensures ScannedAt(db, next, remaining - {key}, target, other) {
      assert ScannedAt(db, now, remaining, target, other);
      if other != key {
        CutFrame(db, now, next, other, if other in remaining then Length(db, other) else KeptAt(db, other, target));
      }
    }
  }

  lemma ScanListOk(db: Db, now: Db, remaining: set<Bytes>, target: int, key: Bytes)
    requires DbOk(db) && Scanned(db, now, remaining, target) && key in remaining
    ensures ListOk(now, key) && CutTo(db, now, key, Length(db, key))
  {
    assert ListOk(db, key) && ScannedAt(db, now, remaining, target, key);
    CutListOk(db, now, key, Length(db, key));
  }

  /** Full scan over all recorded lengths, in whatever order the store yields them. */
  method RollbackLegacy(db: Db, target: nat) returns (now: Db, deleted: nat)
    requires DbOk(db) && target < U32
    ensures CutAll(db, now, target) && TipHeight(now) == target
    ensures SameMeta(db, now) && deleted + |Entries(now)| == |Entries(db)|
  {
    now, deleted := db, 0;
    var remaining := set k | k in db && k.LengthKey? :: k.key;
    ScanStart(db, remaining, target);
    while remaining != {}
      invariant Scanned(db, now, remaining, target)
      invariant SameMeta(db, now) && deleted + |Entries(now)| == |Entries(db)|
      decreases remaining
    {
      var key :| key in remaining;
      ScanListOk(db, now, remaining, target, key);
      var next, dropped := CutList(now, key, target);
      ScanStep(db, now, next, remaining, target, key);
      now, deleted, remaining := next, deleted + dropped, remaining - {key};
    }
    ScanEnd(db, now, target);
    TipWrite(db, now, target, target);
    now := now[TipKey := EncodeLe(target, 4)];
  }

  /** Usable keys, none but list lengths numbered by the sentinel: heights and list positions below 2^32 - 1. */
  ghost predicate BytesUsable(db: Db) {
    forall k :: k in db ==> Usable(k) && (Number(k) == LENGTH_SENTINEL ==> k.LengthKey?)
  }

  /** In such a store the byte test of the scan finds exactly the lists, by their logical keys. */
  lemma ScanFindsLists(db: Db)
    requires BytesUsable(db)
    ensures (set k | k in db && LooksLikeLength(KeyBytes(k)) :: KeyBytes(k)[..|KeyBytes(k)| - 4])
         == (set k | k in db && k.LengthKey? :: k.key)
  {
    forall k | k in db
      ensures LooksLikeLength(KeyBytes(k)) <==> k.LengthKey?
      ensures k.LengthKey? ==> KeyBytes(k)[..|KeyBytes(k)| - 4] == k.key
    {
      LengthRecognised(k);
    }
  }

  lemma ScanStart(db: Db, keys: set<Bytes>, target: int)
    requires DbOk(db) && forall k :: k in db && k.LengthKey? ==> k.key in keys
    ensures Scanned(db, db, keys, target)
  {
    forall key: Bytes ensures ScannedAt(db, db, keys, target, key) {
      assert ListOk(db, key);
      Untouched(db, key);
      assert key !in keys ==> LengthKey(key) !in db;
    }
  }

  lemma ScanEnd(db: Db, now: Db, target: int)
    requires Scanned(db, now, {}, target)
    ensures CutAll(db, now, target)
  {
    forall key: Bytes ensures CutTo(db, now, key, KeptAt(db, key, target)) {
      assert ScannedAt(db, now, {}, target, key);
    }
  }

  // ---------------------------------------------------------------------
  // Around the two passes
  // ---------------------------------------------------------------------

  /** How long a rollback leaves the list of `key`: cut by what the key sets walked over list, and, when a gap hands
      over to the scan, to its entries at or below the target. */
  ghost function Left(db: Db, key: Bytes, target: nat): nat {
    var tip := TipHeight(db);
    if tip <= target then Length(db, key)
    else
      var end := WalkEnd(db, target, tip);
      var walked := Minus(Length(db, key), Listed(db, key, end, tip));
      if end > target then Kept(db, key, walked, target) else walked
  }

  /** The key sets that a rollback walks over list `key` as often as it has entries above the target; with a gap below
      them, no more often than that. A list that is to go entirely may also be listed more often. */
  ghost predicate ListedRight(db: Db, key: Bytes, target: nat) {
    var tip := TipHeight(db);
    tip <= target ||
    (var end := WalkEnd(db, target, tip);
     var listed, kept := Listed(db, key, end, tip), KeptAt(db, key, target);
     if end > target then kept == 0 || listed <= Length(db, key) - kept
     else listed == Length(db, key) - kept || (kept == 0 && listed >= Length(db, key)))
  }

  /** Scanning a prefix keeps what scanning the whole list keeps, as far as the prefix goes. */
  lemma {:induction false} KeptOfPrefix(db: Db, key: Bytes, m: nat, n: nat, h: int)
    requires ListOk(db, key) && m <= n <= Length(db, key)
    ensures Kept(db, key, m, h) == if m <= Kept(db, key, n, h) then m else Kept(db, key, n, h)
    decreases n
  {
    if m < n {
      KeptOfPrefix(db, key, m, n - 1, h);
      if HeightAt(db, key, n - 1) <= h && m > 0 {
        HeightsSorted(db, key, m - 1, n - 1);
      }
    }
  }

  /** What is left is right exactly when the key sets are, as far as they were used. */
  lemma LeftRightIff(db: Db, key: Bytes, target: nat)
    requires DbOk(db) && (TipHeight(db) <= target ==> BelowTip(db))
    ensures Left(db, key, target) == KeptAt(db, key, target) <==> ListedRight(db, key, target)
  {
    var tip, n := TipHeight(db), Length(db, key);
    assert ListOk(db, key);
    if tip <= target {
      assert KeptAt(db, key, tip) == n;
      KeptMonotone(db, key, n, tip, target);
    } else {
      var end := WalkEnd(db, target, tip);
      var walked := Minus(n, Listed(db, key, end, tip));
      KeptOfPrefix(db, key, walked, n, target);
    }
  }

  ghost predicate KeysetsOkBetween(db: Db, low: nat, high: nat) {
    forall h: nat :: low < h <= high ==> KeysetOk(db, h)
  }

  /** A right key set lists the entries that lowering the bound past its height drops. */
  lemma RightKeysetLists(db: Db, key: Bytes, h: nat)
    requires DbOk(db) && KeysetKey(h) in db && KeysetOk(db, h)
    ensures KeptAt(db, key, h) == KeptAt(db, key, h - 1) + Lists(db, h, key)
  {
    assert ListOk(db, key);
    KeptStep(db, key, h);
  }

  /** Right key sets without a gap list exactly the entries above the height they go down to. */
  lemma {:induction false} RightKeysetsList(db: Db, key: Bytes, low: nat, high: nat)
    requires DbOk(db) && low <= high && KeysetsOkBetween(db, low, high)
    requires forall h: nat :: low < h <= high ==> KeysetKey(h) in db
    ensures Listed(db, key, low, high) + KeptAt(db, key, low) == KeptAt(db, key, high)
    decreases high - low
  {
    if low < high {
      var next := low + 1;
      RightKeysetsList(db, key, next, high);
      assert KeysetOk(db, next) && KeysetKey(next) in db;
      RightKeysetLists(db, key, next);
    }
  }

  lemma {:induction false} WalkedHeights(db: Db, target: nat, h: nat, g: nat)
    requires WalkEnd(db, target, h) < g <= h
    ensures KeysetKey(g) in db
    decreases h
  {
    if g < h {
      WalkedHeights(db, target, h - 1, g);
    }
  }

  /** Key sets that are right wherever present list right. */
  lemma RightKeysetsListRight(db: Db, key: Bytes, target: nat)
    requires DbOk(db) && BelowTip(db) && KeysetsOkBetween(db, target, TipHeight(db))
    ensures ListedRight(db, key, target)
  {
    var tip := TipHeight(db);
    if tip > target {
      var end := WalkEnd(db, target, tip);
      forall h: nat | end < h <= tip ensures KeysetKey(h) in db {
        WalkedHeights(db, target, tip, h);
      }
      RightKeysetsList(db, key, end, tip);
      assert KeptAt(db, key, tip) == Length(db, key);
      KeptMonotone(db, key, Length(db, key), target, end);
    }
  }

  /** Cutting by a walk and then by a scan. */
  lemma ScanAfterWalk(db: Db, mid: Db, now: Db, key: Bytes, target: nat)
    requires IsCut(db, mid) && CutAll(mid, now, target)
    ensures CutTo(db, now, key, Kept(db, key, Length(mid, key), target))
  {
    var m := Length(mid, key);
    assert CutTo(db, mid, key, m) && CutTo(mid, now, key, KeptAt(mid, key, target));
    KeptOfCut(db, mid, key, m, m, target);
    CutCompose(db, mid, now, key, m, KeptAt(mid, key, target));
  }

  lemma CutDbOk(db: Db, db': Db)
    requires DbOk(db) && IsCut(db, db')
    ensures DbOk(db')
  {
    forall key: Bytes ensures ListOk(db', key) {
      assert ListOk(db, key) && CutTo(db, db', key, Length(db', key));
      CutListOk(db, db', key, Length(db', key));
    }
  }

  lemma CutBelowTip(db: Db, db': Db, target: nat)
    requires DbOk(db) && CutAll(db, db', target) && TipHeight(db') == target
    ensures DbOk(db') && BelowTip(db')
  {
    CutAllIsCut(db, db', target);
    CutDbOk(db, db');
    forall key: Bytes ensures KeptAt(db', key, target) == Length(db', key) {
      var m := KeptAt(db, key, target);
      assert CutTo(db, db', key, m);
      KeptOfCut(db, db', key, m, m, target);
      KeptTwice(db, key, Length(db, key), target, target);
    }
  }

  /** What the walk has not cleared stays, also through a scan. */
  lemma KeysetsLeft(start: Db, mid: Db, end: Db, target: nat, reached: nat, tip: nat)
    requires target <= reached <= tip && SameMeta(mid, end)
    requires reached > target ==> KeysetKey(reached) !in start
    requires KeysetsCleared(start, mid, reached, tip)
    ensures forall g: nat :: KeysetKey(g) in end ==> KeysetKey(g) in start && end[KeysetKey(g)] == start[KeysetKey(g)]
    ensures forall g: nat :: KeysetKey(g) in end <==>
              KeysetKey(g) in start && (g <= target || g > tip || GapAbove(start, g, tip))
  {
    forall g: nat
      ensures KeysetKey(g) in end ==> KeysetKey(g) in start && end[KeysetKey(g)] == start[KeysetKey(g)]
      ensures KeysetKey(g) in end <==> KeysetKey(g) in start && (g <= target || g > tip || GapAbove(start, g, tip))
    {
      assert KeysetCleared(start, mid, reached, tip, g);
      assert KeysetKey(g) in end <==> KeysetKey(g) in mid;
      if target < g < reached {
        assert GapAbove(start, g, tip);
      }
      NoGapAboveReached(start, mid, reached, tip, g);
    }
  }

  lemma NoGapAboveReached(start: Db, mid: Db, reached: nat, tip: nat, g: nat)
    requires KeysetsCleared(start, mid, reached, tip)
    ensures reached <= g ==> !GapAbove(start, g, tip)
  {
    forall f: nat | reached < f <= tip ensures KeysetKey(f) in start {
      assert KeysetCleared(start, mid, reached, tip, f);
    }
  }

  // ---------------------------------------------------------------------
  // Key sets after a rollback
  // ---------------------------------------------------------------------

  lemma NothingAbove(db: Db, db': Db, target: nat, key: Bytes, h: nat)
    requires DbOk(db) && CutAll(db, db', target) && h > target
    ensures EntriesAt(db', key, h) == {}
  {
    var m := KeptAt(db, key, target);
    assert CutTo(db, db', key, m) && ListOk(db, key);
    forall i | 0 <= i < m ensures HeightAt(db', key, i) != h {
      CutHeights(db, db', key, m, i);
      KeptIsPrefix(db, key, Length(db, key), target, i);
    }
  }

  /** A key set left behind above the target describes entries that are gone: it is right only if it is empty. */
  lemma LeftBehindIsStale(db: Db, db': Db, target: nat, h: nat)
    requires DbOk(db) && CutAll(db, db', target) && h > target && KeysetKey(h) in db'
    ensures KeysetOk(db', h) <==> DecodeKeySet(db'[KeysetKey(h)]) == []
  {
    var keys := DecodeKeySet(db'[KeysetKey(h)]);
    forall key: Bytes ensures |EntriesAt(db', key, h)| == 0 {
      NothingAbove(db, db', target, key, h);
    }
    if keys != [] {
      assert multiset(keys)[keys[0]] > 0;
    }
  }
}
