/** Indexing blocks into append lists, and rolling the index back: one undoes the other. */
module Indexing {
  import opened Arith
  import opened Wrappers
  import opened Transactions
  import opened Codec
  import opened IndexerKeys
  import opened Rollback

  datatype Pair = Pair(key: Bytes, value: Bytes)

  /** The values a block writes under one key, in order. */
  function Values(pairs: seq<Pair>, key: Bytes): seq<Bytes> {
    if pairs == [] then []
    else
      var last := pairs[|pairs| - 1];
      Values(pairs[..|pairs| - 1], key) + if last.key == key then [last.value] else []
  }

  function Keys(pairs: seq<Pair>): (keys: seq<Bytes>)
    ensures |keys| == |pairs| && forall i :: 0 <= i < |pairs| ==> keys[i] == pairs[i].key
  {
    seq(|pairs|, i requires 0 <= i < |pairs| => pairs[i].key)
  }

  lemma {:induction false} KeyPerValue(pairs: seq<Pair>, key: Bytes)
    ensures multiset(Keys(pairs))[key] == |Values(pairs, key)|
  {
    if pairs != [] {
      var n := |pairs| - 1;
      KeyPerValue(pairs[..n], key);
      assert Keys(pairs) == Keys(pairs[..n]) + [pairs[n].key];
    }
  }

  /** Lists well formed, none above the tip, and every key set present lists exactly its height's entries. */
  ghost predicate Indexed(db: Db) {
    DbOk(db) && BelowTip(db) && KeysetsOk(db)
  }

  ghost predicate KeysetsOk(db: Db) {
    forall h: nat :: KeysetOk(db, h)
  }

  /** Every entry is below `height`. */
  ghost predicate AllBelow(db: Db, height: nat) {
    forall key: Bytes :: KeptAt(db, key, height - 1) == Length(db, key)
  }

  // ---------------------------------------------------------------------
  // What a block adds
  // ---------------------------------------------------------------------

  ghost predicate AppendedEntry(db: Db, now: Db, vs: seq<Bytes>, record: Bytes, key: Bytes, i: nat) {
    var n := Length(db, key);
    && (IndexKey(key, i) in now <==> i < n + |vs|)
    && (EntryHeightKey(key, i) in now <==> i < n + |vs|)
    && (i < n ==>
          && IndexKey(key, i) in db && now[IndexKey(key, i)] == db[IndexKey(key, i)]
          && EntryHeightKey(key, i) in db && now[EntryHeightKey(key, i)] == db[EntryHeightKey(key, i)])
    && (n <= i < n + |vs| ==> now[IndexKey(key, i)] == vs[i - n] && now[EntryHeightKey(key, i)] == record)
  }

  /** The list of `key` is the old one followed by `vs`, each new entry with the given height record. */
  ghost predicate AppendedAt(db: Db, now: Db, vs: seq<Bytes>, record: Bytes, key: Bytes) {
    && Length(now, key) == Length(db, key) + |vs|
    && forall i: nat :: AppendedEntry(db, now, vs, record, key, i)
  }

  ghost predicate Appended(db: Db, now: Db, pairs: seq<Pair>, record: Bytes) {
    forall key: Bytes :: AppendedAt(db, now, Values(pairs, key), record, key)
  }

  /** Records one more entry at the end of a list whose pending length is `n`. */
  function Push(db: Db, key: Bytes, n: nat, value: Bytes, record: Bytes): Db {
    db[LengthKey(key) := EncodeLe(n + 1, 4)][IndexKey(key, n) := value][EntryHeightKey(key, n) := record]
  }

  lemma PushLength(now: Db, key: Bytes, n: nat, value: Bytes, record: Bytes)
    requires n + 1 < U32
    ensures Length(Push(now, key, n, value, record), key) == n + 1
    ensures forall other: Bytes :: other != key ==>
              Length(Push(now, key, n, value, record), other) == Length(now, other)
  {
    StoredU32(now, LengthKey(key), n + 1);
  }

  lemma PushExtends(db: Db, now: Db, pairs: seq<Pair>, record: Bytes, pair: Pair)
    requires Appended(db, now, pairs, record) && Length(now, pair.key) + 1 < U32
    ensures Appended(db, Push(now, pair.key, Length(now, pair.key), pair.value, record), pairs + [pair], record)
  {
    var n := Length(now, pair.key);
    var next := Push(now, pair.key, n, pair.value, record);
    PushLength(now, pair.key, n, pair.value, record);
    assert (pairs + [pair])[..|pairs|] == pairs;
    forall key: Bytes ensures AppendedAt(db, next, Values(pairs + [pair], key), record, key) {
      var vs := Values(pairs, key);
      assert AppendedAt(db, now, vs, record, key);
      forall i: nat ensures AppendedEntry(db, next, Values(pairs + [pair], key), record, key, i) {
        assert AppendedEntry(db, now, vs, record, key, i);
      }
    }
  }

  lemma NothingAppended(db: Db, record: Bytes)
    requires DbOk(db)
    ensures Appended(db, db, [], record)
  {
    forall key: Bytes ensures AppendedAt(db, db, Values([], key), record, key) {
      assert ListOk(db, key);
      forall i: nat ensures AppendedEntry(db, db, [], record, key, i) {
        assert EntryOk(db, key, i);
      }
    }
  }

  lemma AppendedFrame(db: Db, now: Db, now': Db, pairs: seq<Pair>, record: Bytes)
    requires Appended(db, now, pairs, record) && ListsUntouched(now, now')
    ensures Appended(db, now', pairs, record)
  {
    forall key: Bytes ensures AppendedAt(db, now', Values(pairs, key), record, key) {
      assert AppendedAt(db, now, Values(pairs, key), record, key);
      assert IsListKey(LengthKey(key));
      forall i: nat ensures AppendedEntry(db, now', Values(pairs, key), record, key, i) {
        assert AppendedEntry(db, now, Values(pairs, key), record, key, i);
        assert IsListKey(IndexKey(key, i)) && IsListKey(EntryHeightKey(key, i));
      }
    }
  }

  // ---------------------------------------------------------------------
  // What the invariant says of the longer lists
  // ---------------------------------------------------------------------

  predicate IsRecordOf(record: Bytes, height: nat) {
    |record| >= 4 && LeValue(record[..4]) == height
  }

  /** The last entry of `key`, if there is one, is not above `height`. */
  ghost predicate EndsBy(db: Db, key: Bytes, height: nat) {
    Length(db, key) == 0 || HeightAt(db, key, Length(db, key) - 1) <= height
  }

  lemma AppendedHeight(db: Db, now: Db, vs: seq<Bytes>, record: Bytes, key: Bytes, height: nat, i: nat)
    requires AppendedAt(db, now, vs, record, key) && IsRecordOf(record, height) && i < Length(now, key)
    ensures HeightAt(now, key, i) == if i < Length(db, key) then HeightAt(db, key, i) else height
  {
    assert AppendedEntry(db, now, vs, record, key, i);
  }

  /** Appending keeps heights in order exactly when the list did not already end above the new height. */
  lemma AppendedListOk(db: Db, now: Db, vs: seq<Bytes>, record: Bytes, key: Bytes, height: nat)
    requires AppendedAt(db, now, vs, record, key) && IsRecordOf(record, height)
    requires ListOk(db, key) && Length(db, key) + |vs| < U32
    ensures ListOk(now, key) <==> vs == [] || EndsBy(db, key, height)
  {
    var n := Length(db, key);
    forall i: nat ensures EntryOk(now, key, i) <==> (i == n && 0 < n && vs != [] ==> EndsBy(db, key, height)) {
      assert AppendedEntry(db, now, vs, record, key, i);
      assert EntryOk(db, key, i);
      if 0 < i < Length(now, key) {
        AppendedHeight(db, now, vs, record, key, height, i);
        AppendedHeight(db, now, vs, record, key, height, i - 1);
      }
    }
    assert EntryOk(now, key, n) <==> (0 < n && vs != [] ==> EndsBy(db, key, height));
  }

  lemma BelowEndsBy(db: Db, key: Bytes, height: nat)
    requires ListOk(db, key) && KeptAt(db, key, height - 1) == Length(db, key)
    ensures EndsBy(db, key, height)
  {
    var n := Length(db, key);
    if n > 0 {
      KeptIsPrefix(db, key, n, height - 1, n - 1);
    }
  }

  lemma AppendedHeights(db: Db, now: Db, vs: seq<Bytes>, record: Bytes, key: Bytes, height: nat, i: nat)
    requires AppendedAt(db, now, vs, record, key) && IsRecordOf(record, height)
    requires ListOk(db, key) && KeptAt(db, key, height - 1) == Length(db, key)
    requires i < Length(now, key)
    ensures HeightAt(now, key, i) == if i < Length(db, key) then HeightAt(db, key, i) else height
    ensures i < Length(db, key) <==> HeightAt(now, key, i) < height
    ensures HeightAt(now, key, i) <= height
  {
    AppendedHeight(db, now, vs, record, key, height, i);
    if i < Length(db, key) {
      KeptIsPrefix(db, key, Length(db, key), height - 1, i);
    }
  }

  lemma KeptByPrefix(db: Db, key: Bytes, n: nat, h: int, m: nat)
    requires ListOk(db, key) && m <= n <= Length(db, key)
    requires forall i: nat :: i < n ==> (i < m <==> HeightAt(db, key, i) <= h)
    ensures Kept(db, key, n, h) == m
  {
    var k := Kept(db, key, n, h);
    if k < m {
      KeptIsPrefix(db, key, n, h, k);
    }
    if m < k {
      KeptIsPrefix(db, key, n, h, m);
    }
  }

  /** The old list is the new one cut below the block's height; the new entries are those at it. */
  lemma AppendedIsCut(db: Db, now: Db, vs: seq<Bytes>, record: Bytes, key: Bytes, height: nat)
    requires AppendedAt(db, now, vs, record, key) && IsRecordOf(record, height)
    requires ListOk(db, key) && KeptAt(db, key, height - 1) == Length(db, key) && Length(db, key) + |vs| < U32
    ensures ListOk(now, key) && KeptAt(now, key, height) == Length(now, key)
    ensures CutTo(now, db, key, KeptAt(now, key, height - 1))
  {
    BelowEndsBy(db, key, height);
    AppendedListOk(db, now, vs, record, key, height);
    var n, m := Length(now, key), Length(db, key);
    forall i: nat | i < n
      ensures i < m <==> HeightAt(now, key, i) <= height - 1
      ensures i < n <==> HeightAt(now, key, i) <= height
    {
      AppendedHeights(db, now, vs, record, key, height, i);
    }
    KeptByPrefix(now, key, n, height - 1, m);
    KeptByPrefix(now, key, n, height, n);
    forall i: nat ensures SameEntry(now, db, key, m, i) {
      assert AppendedEntry(db, now, vs, record, key, i);
      assert EntryOk(db, key, i);
    }
  }

  lemma AppendedEntriesAt(db: Db, now: Db, vs: seq<Bytes>, record: Bytes, key: Bytes, height: nat, h: nat)
    requires AppendedAt(db, now, vs, record, key) && IsRecordOf(record, height)
    requires ListOk(db, key) && KeptAt(db, key, height - 1) == Length(db, key)
    ensures h == height ==> |EntriesAt(now, key, h)| == |vs|
    ensures h != height ==> EntriesAt(now, key, h) == EntriesAt(db, key, h)
  {
    var m, n := Length(db, key), Length(now, key);
    forall i | 0 <= i < n
      ensures HeightAt(now, key, i) == if i < m then HeightAt(db, key, i) else height
      ensures i < m <==> HeightAt(now, key, i) < height
    {
      AppendedHeights(db, now, vs, record, key, height, i);
    }
    if h == height {
      assert EntriesAt(now, key, h) == Range(m, n);
    }
  }

  /** Room for the block: 32-bit lengths and key-set fields. */
  ghost predicate Fits(db: Db, pairs: seq<Pair>) {
    && |pairs| < U32 && (forall i :: 0 <= i < |pairs| ==> |pairs[i].key| < U32)
    && forall key: Bytes :: Length(db, key) + |pairs| < U32
  }

  lemma {:induction false} ValuesFit(pairs: seq<Pair>, key: Bytes)
    ensures |Values(pairs, key)| <= |pairs|
  {
    if pairs != [] {
      ValuesFit(pairs[..|pairs| - 1], key);
    }
  }

  lemma BlockLists(db: Db, now: Db, pairs: seq<Pair>, record: Bytes, height: nat)
    requires DbOk(db) && AllBelow(db, height) && Fits(db, pairs)
    requires Appended(db, now, pairs, record) && IsRecordOf(record, height)
    ensures DbOk(now) && CutAll(now, db, height - 1)
    ensures forall key: Bytes :: KeptAt(now, key, height) == Length(now, key)
  {
    var below: int := height - 1;
    forall key: Bytes
      ensures ListOk(now, key) && KeptAt(now, key, height) == Length(now, key)
      ensures CutTo(now, db, key, KeptAt(now, key, below))
    {
      assert AppendedAt(db, now, Values(pairs, key), record, key) && ListOk(db, key);
      ValuesFit(pairs, key);
      AppendedIsCut(db, now, Values(pairs, key), record, key, height);
    }
  }

  /** A block keeps all lists in order exactly when none of the lists it names ends above its height. */
  lemma BlockOrder(db: Db, now: Db, pairs: seq<Pair>, record: Bytes, height: nat)
    requires DbOk(db) && Fits(db, pairs) && Appended(db, now, pairs, record) && IsRecordOf(record, height)
    ensures DbOk(now) <==> forall key: Bytes :: key in Keys(pairs) ==> EndsBy(db, key, height)
  {
    forall key: Bytes ensures ListOk(now, key) <==> (key in Keys(pairs) ==> EndsBy(db, key, height)) {
      assert AppendedAt(db, now, Values(pairs, key), record, key) && ListOk(db, key);
      ValuesFit(pairs, key);
      KeyPerValue(pairs, key);
      AppendedListOk(db, now, Values(pairs, key), record, key, height);
    }
  }

  lemma BlockKeyset(db: Db, now: Db, pairs: seq<Pair>, record: Bytes, height: nat, h: nat)
    requires DbOk(db) && AllBelow(db, height) && Fits(db, pairs) && KeysetOk(db, h)
    requires Appended(db, now, pairs, record) && IsRecordOf(record, height)
    requires KeysetKey(height) in now && now[KeysetKey(height)] == EncodeKeySet(Keys(pairs))
    requires h != height ==> SameKeyset(db, now, h)
    ensures KeysetOk(now, h)
  {
    if KeysetKey(h) in now {
      var keys := if h == height then Keys(pairs) else DecodeKeySet(now[KeysetKey(h)]);
      KeySetRoundTrip(Keys(pairs));
      forall key: Bytes ensures multiset(keys)[key] == |EntriesAt(now, key, h)| {
        assert AppendedAt(db, now, Values(pairs, key), record, key) && ListOk(db, key);
        AppendedEntriesAt(db, now, Values(pairs, key), record, key, height, h);
        KeyPerValue(pairs, key);
      }
    }
  }

  lemma RoomForOne(db: Db, now: Db, pairs: seq<Pair>, j: nat, record: Bytes)
    requires Fits(db, pairs) && j < |pairs| && Appended(db, now, pairs[..j], record)
    ensures Length(now, pairs[j].key) + 1 < U32
  {
    var key := pairs[j].key;
    assert AppendedAt(db, now, Values(pairs[..j], key), record, key);
    ValuesFit(pairs[..j], key);
  }

  lemma PushAddsOne(db: Db, now: Db, pairs: seq<Pair>, record: Bytes, key: Bytes, value: Bytes)
    requires Appended(db, now, pairs, record)
    ensures |Entries(Push(now, key, Length(now, key), value, record))| == |Entries(now)| + 1
  {
    var n := Length(now, key);
    assert AppendedAt(db, now, Values(pairs, key), record, key);
    assert AppendedEntry(db, now, Values(pairs, key), record, key, n);
    assert Entries(Push(now, key, n, value, record)) == Entries(now) + {IndexKey(key, n)};
  }

  lemma CacheFollowsPush(db: Db, batch: Db, lengthCache: map<Bytes, nat>, key: Bytes, value: Bytes, record: Bytes)
    requires CacheAgrees(db, batch, lengthCache) && Length(batch, key) + 1 < U32
    ensures var n := Length(batch, key);
            CacheAgrees(db, Push(batch, key, n, value, record), lengthCache[key := n + 1])
  {
    var n := Length(batch, key);
    var next, cache := Push(batch, key, n, value, record), lengthCache[key := n + 1];
    PushLength(batch, key, n, value, record);
    forall other: Bytes ensures PendingLength(db, cache, other) == Length(next, other) {
      assert PendingLength(db, lengthCache, other) == Length(batch, other);
    }
  }

  /** What a block's height record, key set, canonical hash and tip leave of the store. */
  function Sealed(now: Db, pairs: seq<Pair>, height: nat, hash8: Option<Bytes>): Db {
    var keyed := now[KeysetKey(height) := EncodeKeySet(Keys(pairs))];
    var hashed := if hash8.Some? && |hash8.value| >= 8 then keyed[HashKey(height) := hash8.value[..8]] else keyed;
    hashed[TipKey := EncodeLe(height, 4)]
  }

  function HeightRecord(height: nat, hash8: Option<Bytes>): Bytes {
    EncodeLe(height, 4) + if hash8.Some? && |hash8.value| >= 8 then hash8.value[..8] else []
  }

  lemma RecordHeight(height: nat, hash8: Option<Bytes>)
    requires height < U32
    ensures IsRecordOf(HeightRecord(height, hash8), height)
  {
    Widths();
    LeRoundTrip(height, 4);
    assert HeightRecord(height, hash8)[..4] == EncodeLe(height, 4);
  }

  /** The block is named alike in its entries' height records and under its canonical hash key. */
  lemma SealedNamesBlock(now: Db, pairs: seq<Pair>, height: nat, hash: Bytes)
    requires height < U32 && |hash| >= 8
    ensures var done, record := Sealed(now, pairs, height, Some(hash)), HeightRecord(height, Some(hash));
            && |record| == 12 && LeValue(record[..4]) == height && record[4..] == hash[..8]
            && HashKey(height) in done && done[HashKey(height)] == hash[..8]
  {
    Widths();
    LeRoundTrip(height, 4);
    var record := HeightRecord(height, Some(hash));
    assert record[..4] == EncodeLe(height, 4) && record[4..] == hash[..8];
  }

  /** All key sets but that of `height` are as they were. */
  ghost predicate OtherKeysetsSame(db: Db, now: Db, height: nat) {
    forall g: nat :: g != height ==> SameKeyset(db, now, g)
  }

  lemma SealedStore(db: Db, now: Db, pairs: seq<Pair>, height: nat, hash8: Option<Bytes>)
    requires height < U32 && Appended(db, now, pairs, HeightRecord(height, hash8)) && SameMeta(db, now)
    ensures var done := Sealed(now, pairs, height, hash8);
            && Appended(db, done, pairs, HeightRecord(height, hash8)) && Entries(done) == Entries(now)
            && TipHeight(done) == height && OtherKeysetsSame(db, done, height)
            && KeysetKey(height) in done && done[KeysetKey(height)] == EncodeKeySet(Keys(pairs))
  {
    var done := Sealed(now, pairs, height, hash8);
    AppendedFrame(db, now, done, pairs, HeightRecord(height, hash8));
    StoredU32(done - {TipKey}, TipKey, height);
    assert (done - {TipKey})[TipKey := EncodeLe(height, 4)] == done;
    forall g: nat | g != height ensures SameKeyset(db, done, g) {
      assert KeysetKey(g) in db <==> KeysetKey(g) in now;
    }
  }

  lemma SealedIsIndexed(db: Db, done: Db, pairs: seq<Pair>, height: nat, hash8: Option<Bytes>)
    requires Indexed(db) && AllBelow(db, height) && Fits(db, pairs) && height < U32
    requires Appended(db, done, pairs, HeightRecord(height, hash8)) && OtherKeysetsSame(db, done, height)
    requires TipHeight(done) == height
    requires KeysetKey(height) in done && done[KeysetKey(height)] == EncodeKeySet(Keys(pairs))
    ensures Indexed(done)
  {
    RecordHeight(height, hash8);
    BlockLists(db, done, pairs, HeightRecord(height, hash8), height);
    forall h: nat ensures KeysetOk(done, h) {
      assert KeysetOk(db, h);
      assert h != height ==> SameKeyset(db, done, h);
      BlockKeyset(db, done, pairs, HeightRecord(height, hash8), height, h);
    }
  }

  // ---------------------------------------------------------------------
  // Key sets after a rollback
  // ---------------------------------------------------------------------

  /** Rolling back leaves the key sets right exactly when each one stranded below a gap was empty. */
  lemma KeysetsRightIff(db: Db, db': Db, target: nat)
    requires Indexed(db) && CutAll(db, db', target)
    requires forall g: nat :: KeysetKey(g) in db' ==> KeysetKey(g) in db && db'[KeysetKey(g)] == db[KeysetKey(g)]
    requires forall g: nat :: KeysetKey(g) in db' <==> Survives(db, target, g)
    ensures KeysetsOk(db') <==> forall g: nat :: Stranded(db, target, g) ==> DecodeKeySet(db[KeysetKey(g)]) == []
  {
    var tip := TipHeight(db);
    forall g: nat ensures KeysetOk(db', g) <==> (Stranded(db, target, g) ==> DecodeKeySet(db[KeysetKey(g)]) == []) {
      assert KeysetOk(db, g);
      if KeysetKey(g) in db' {
        if g <= target {
          KeptKeysetOk(db, db', target, g);
        } else {
          LeftBehindIsStale(db, db', target, g);
          if g > tip {
            AboveTipEmpty(db, g);
          }
        }
      }
    }
  }

  /** The key sets that a rollback leaves: those outside the heights rolled back, and those below a gap. */
  ghost predicate Survives(db: Db, target: nat, g: nat) {
    KeysetKey(g) in db && (g <= target || g > TipHeight(db) || GapAbove(db, g, TipHeight(db)))
  }

  /** A key set above the target and below a height that has none. */
  ghost predicate Stranded(db: Db, target: nat, g: nat) {
    target < g <= TipHeight(db) && KeysetKey(g) in db && GapAbove(db, g, TipHeight(db))
  }

  lemma KeptKeysetOk(db: Db, db': Db, target: nat, g: nat)
    requires DbOk(db) && CutAll(db, db', target) && g <= target && KeysetOk(db, g)
    requires KeysetKey(g) in db && KeysetKey(g) in db' && db'[KeysetKey(g)] == db[KeysetKey(g)]
    ensures KeysetOk(db', g)
  {
    forall key: Bytes ensures EntriesAt(db', key, g) == EntriesAt(db, key, g) {
      var m := KeptAt(db, key, target);
      assert CutTo(db, db', key, m) && ListOk(db, key);
      forall i | 0 <= i < Length(db, key)
        ensures i < m <==> HeightAt(db, key, i) <= target
        ensures i < m ==> HeightAt(db', key, i) == HeightAt(db, key, i)
      {
        KeptIsPrefix(db, key, Length(db, key), target, i);
        if i < m {
          CutHeights(db, db', key, m, i);
        }
      }
    }
    assert KeysetListsEntries(db', g, DecodeKeySet(db[KeysetKey(g)]));
  }

  lemma TipIsCut(db: Db)
    requires DbOk(db) && BelowTip(db)
    ensures CutAll(db, db, TipHeight(db))
  {
    forall key: Bytes ensures CutTo(db, db, key, KeptAt(db, key, TipHeight(db))) {
      assert KeptAt(db, key, TipHeight(db)) == Length(db, key) && ListOk(db, key);
      Untouched(db, key);
    }
  }

  lemma AboveTipEmpty(db: Db, g: nat)
    requires DbOk(db) && BelowTip(db) && g > TipHeight(db) && KeysetKey(g) in db && KeysetOk(db, g)
    ensures DecodeKeySet(db[KeysetKey(g)]) == []
  {
    TipIsCut(db);
    LeftBehindIsStale(db, db, TipHeight(db), g);
  }

  // ---------------------------------------------------------------------
  // What a rollback does, whatever the key sets
  // ---------------------------------------------------------------------

  ghost predicate CutLeft(db: Db, db': Db, target: nat) {
    forall key: Bytes :: CutTo(db, db', key, Left(db, key, target))
  }

  /** A rollback is right for a list exactly when the key sets it walked over list that key right. */
  lemma RollbackRightIff(db: Db, db': Db, target: nat, key: Bytes)
    requires DbOk(db) && CutLeft(db, db', target) && (TipHeight(db) <= target ==> BelowTip(db))
    ensures CutTo(db, db', key, KeptAt(db, key, target)) <==> ListedRight(db, key, target)
  {
    assert CutTo(db, db', key, Left(db, key, target));
    LeftRightIff(db, key, target);
  }

  /** Where all key sets present are right, so is the rollback. */
  lemma RightKeysetsCutAll(db: Db, db': Db, target: nat)
    requires DbOk(db) && BelowTip(db) && KeysetsOkBetween(db, target, TipHeight(db)) && CutLeft(db, db', target)
    ensures CutAll(db, db', target)
  {
    forall key: Bytes ensures CutTo(db, db', key, KeptAt(db, key, target)) {
      RightKeysetsListRight(db, key, target);
      RollbackRightIff(db, db', target, key);
    }
  }

  lemma CutLeftIsCut(db: Db, db': Db, target: nat)
    requires CutLeft(db, db', target)
    ensures IsCut(db, db')
  {
    forall key: Bytes ensures CutTo(db, db', key, Length(db', key)) {
      assert CutTo(db, db', key, Left(db, key, target));
    }
  }

  // ---------------------------------------------------------------------
  // The storage
  // ---------------------------------------------------------------------

  /** Batches the entries of a block; a key that comes twice sees the length left by the first time. */
  method PushAll(db: Db, pairs: seq<Pair>, record: Bytes) returns (batch: Db)
    requires DbOk(db) && Fits(db, pairs)
    ensures Appended(db, batch, pairs, record) && SameMeta(db, batch)
    ensures |Entries(batch)| == |Entries(db)| + |pairs|
  {
    batch := db;
    var lengthCache: map<Bytes, nat> := map[];
    NothingAppended(db, record);
    for j := 0 to |pairs|
      invariant Appended(db, batch, pairs[..j], record) && CacheAgrees(db, batch, lengthCache)
      invariant SameMeta(db, batch) && |Entries(batch)| == |Entries(db)| + j
    {
      var key, value := pairs[j].key, pairs[j].value;
      var currentLen := PendingLength(db, lengthCache, key);
      RoomForOne(db, batch, pairs, j, record);
      PushExtends(db, batch, pairs[..j], record, pairs[j]);
      CacheFollowsPush(db, batch, lengthCache, key, value, record);
      assert pairs[..j + 1] == pairs[..j] + [pairs[j]];
      PushAddsOne(db, batch, pairs[..j], record, key, value);
      batch := Push(batch, key, currentLen, value, record);
      lengthCache := lengthCache[key := currentLen + 1];
    }
    assert pairs[..|pairs|] == pairs;
  }

  class IndexerStorage {
    var db: Db

    /** Appends a block's pairs, in one batch with its key set, canonical hash and the tip; a block without pairs
        writes nothing at all, not even the tip. Every list is the old one followed by the block's values, so cutting
        the new store below the block's height gives back the old lists. */
    method AppendBatch(pairs: seq<Pair>, height: nat, hash8: Option<Bytes>)
      requires DbOk(db) && Fits(db, pairs) && height < U32
      modifies this
      ensures Appended(old(db), db, pairs, HeightRecord(height, hash8))
      ensures |Entries(db)| == |Entries(old(db))| + |pairs| && OtherKeysetsSame(old(db), db, height)
      ensures pairs == [] ==> db == old(db)
      ensures pairs != [] ==> TipHeight(db) == height
      ensures pairs != [] ==> KeysetKey(height) in db && db[KeysetKey(height)] == EncodeKeySet(Keys(pairs))
      ensures pairs != [] && hash8.Some? && |hash8.value| >= 8 ==>
                HashKey(height) in db && db[HashKey(height)] == hash8.value[..8]
      ensures DbOk(db) <==> forall key: Bytes :: key in Keys(pairs) ==> EndsBy(old(db), key, height)
      ensures old(AllBelow(db, height)) ==> CutAll(db, old(db), height - 1) && AllBelow(db, height + 1)
      ensures old(AllBelow(db, height) && Indexed(db)) ==> Indexed(db)
    {
      ghost var start := db;
      var record := HeightRecord(height, hash8);
      RecordHeight(height, hash8);
      if pairs == [] {
        NothingAppended(db, record);
      } else {
        var batch := PushAll(db, pairs, record);
        SealedStore(db, batch, pairs, height, hash8);
        db := Sealed(batch, pairs, height, hash8);
      }
      BlockOrder(start, db, pairs, record, height);
      if AllBelow(start, height) {
        BlockLists(start, db, pairs, record, height);
        if Indexed(start) && pairs != [] {
          SealedIsIndexed(start, db, pairs, height, hash8);
        }
      }
    }

    /** In every well-formed store each list is cut to the length `Left` says: by what the key sets walked over list,
        and after a gap by the scan. With no entry above the tip this is right for a list exactly when it is listed
        right, hence for all lists when the key sets are right. The result counts the entries removed. Key sets below a
        gap are left behind, and all key sets are right afterwards exactly when those were empty. */
    method RollbackToHeight(target: nat) returns (deleted: nat)
      requires DbOk(db) && target < U32
      modifies this
      ensures CutLeft(old(db), db, target) && TipHeight(db) == target && DbOk(db)
      ensures deleted + |Entries(db)| == |Entries(old(db))|
      ensures old(TipHeight(db) <= target ==> BelowTip(db)) ==> forall key: Bytes ::
                CutTo(old(db), db, key, KeptAt(old(db), key, target)) <==> ListedRight(old(db), key, target)
      ensures old(BelowTip(db) && KeysetsOkBetween(db, target, TipHeight(db))) ==>
                CutAll(old(db), db, target) && BelowTip(db)
      ensures forall g: nat ::
                KeysetKey(g) in db ==> KeysetKey(g) in old(db) && db[KeysetKey(g)] == old(db)[KeysetKey(g)]
      ensures forall g: nat :: KeysetKey(g) in db <==> Survives(old(db), target, g)
      ensures old(Indexed(db)) ==>
                (KeysetsOk(db) <==>
                 forall g: nat :: Stranded(old(db), target, g) ==> DecodeKeySet(old(db)[KeysetKey(g)]) == [])
    {
      ghost var start := db;
      var tip := TipHeight(db);
      deleted := 0;
      if tip <= target {
        db := db[TipKey := EncodeLe(target, 4)];
        WholeIsCut(start);
        CutUnderMeta(start, start, db);
        StoredU32(start, TipKey, target);
      } else {
        var batch, reached;
        batch, reached, deleted := KeysetPass(db, target, tip);
        db := batch[TipKey := EncodeLe(target, 4)];
        ghost var mid := db;
        CutUnderMeta(start, batch, mid);
        TipLeavesKeysets(start, batch, mid, reached, tip);
        StoredU32(batch, TipKey, target);
        if reached > target {
          CutDbOk(start, mid);
          var now, more := RollbackLegacy(db, target);
          db, deleted := now, deleted + more;
        }
        PassesCutLeft(start, mid, db, target);
        KeysetsLeft(start, mid, db, target, reached, tip);
      }
      Outcome(start, db, target);
    }
  }

  lemma TipLeavesKeysets(start: Db, batch: Db, mid: Db, reached: nat, tip: nat)
    requires KeysetsCleared(start, batch, reached, tip) && SameMeta(batch, mid)
    ensures KeysetsCleared(start, mid, reached, tip)
  {
    forall g: nat ensures KeysetCleared(start, mid, reached, tip, g) {
      assert KeysetCleared(start, batch, reached, tip, g);
      assert KeysetKey(g) in batch <==> KeysetKey(g) in mid;
    }
  }

  lemma PassesCutLeft(start: Db, mid: Db, now: Db, target: nat)
    requires var tip := TipHeight(start);
             var end := WalkEnd(start, target, tip);
             && tip > target && IsCut(start, mid) && WalkedTo(start, mid, end, tip)
             && (if end > target then CutAll(mid, now, target) else now == mid)
    ensures CutLeft(start, now, target)
  {
    var tip := TipHeight(start);
    var end := WalkEnd(start, target, tip);
    forall key: Bytes ensures CutTo(start, now, key, Left(start, key, target)) {
      assert Length(mid, key) == Minus(Length(start, key), Listed(start, key, end, tip));
      assert CutTo(start, mid, key, Length(mid, key));
      if end > target {
        ScanAfterWalk(start, mid, now, key, target);
      }
    }
  }

  lemma Outcome(start: Db, now: Db, target: nat)
    requires DbOk(start) && CutLeft(start, now, target) && TipHeight(now) == target
    requires forall g: nat ::
               KeysetKey(g) in now ==> KeysetKey(g) in start && now[KeysetKey(g)] == start[KeysetKey(g)]
    requires forall g: nat :: KeysetKey(g) in now <==> Survives(start, target, g)
    ensures DbOk(now)
    ensures (TipHeight(start) <= target ==> BelowTip(start)) ==> forall key: Bytes ::
              CutTo(start, now, key, KeptAt(start, key, target)) <==> ListedRight(start, key, target)
    ensures BelowTip(start) && KeysetsOkBetween(start, target, TipHeight(start)) ==>
              CutAll(start, now, target) && BelowTip(now)
    ensures Indexed(start) ==>
              (KeysetsOk(now) <==>
               forall g: nat :: Stranded(start, target, g) ==> DecodeKeySet(start[KeysetKey(g)]) == [])
  {
    CutLeftIsCut(start, now, target);
    CutDbOk(start, now);
    if TipHeight(start) <= target ==> BelowTip(start) {
      forall key: Bytes
        ensures CutTo(start, now, key, KeptAt(start, key, target)) <==> ListedRight(start, key, target)
      {
        RollbackRightIff(start, now, target, key);
      }
    }
    if BelowTip(start) {
      if KeysetsOkBetween(start, target, TipHeight(start)) {
        RightKeysetsCutAll(start, now, target);
        CutBelowTip(start, now, target);
        if KeysetsOk(start) {
          KeysetsRightIff(start, now, target);
        }
      }
    }
  }

  // ---------------------------------------------------------------------
  // Indexing and rolling back
  // ---------------------------------------------------------------------

  datatype Block = Block(height: nat, pairs: seq<Pair>, hash8: Option<Bytes>)

  function TotalPairs(blocks: seq<Block>): nat {
    if blocks == [] then 0 else TotalPairs(blocks[..|blocks| - 1]) + |blocks[|blocks| - 1].pairs|
  }

  lemma {:induction false} TotalOfPrefix(blocks: seq<Block>, n: nat)
    requires n <= |blocks|
    ensures TotalPairs(blocks[..n]) <= TotalPairs(blocks)
    ensures n < |blocks| ==> TotalPairs(blocks[..n]) + |blocks[n].pairs| <= TotalPairs(blocks)
    decreases |blocks|
  {
    var m := |blocks| - 1;
    if n == |blocks| {
      assert blocks[..n] == blocks;
    } else {
      TotalOfPrefix(blocks[..m], n);
      assert blocks[..m][..n] == blocks[..n];
    }
  }

  /** Heights above the target, each above the one before, and room for every entry. */
  ghost predicate CanIndex(db: Db, blocks: seq<Block>, target: nat) {
    && TotalPairs(blocks) < U32
    && (forall i :: 0 <= i < |blocks| ==> target < blocks[i].height < U32)
    && (forall i, j :: 0 <= i < j < |blocks| ==> blocks[i].height < blocks[j].height)
    && (forall i, k :: 0 <= i < |blocks| && 0 <= k < |blocks[i].pairs| ==> |blocks[i].pairs[k].key| < U32)
    && ShortLists(db) && forall key: Bytes :: Length(db, key) + TotalPairs(blocks) < U32
  }

  /** Both stores hold the same lists. */
  ghost predicate SameLists(db: Db, db': Db) {
    forall key: Bytes :: CutTo(db, db', key, Length(db, key))
  }

  /** What has been added so far is bounded by the pairs seen. */
  ghost predicate LengthsWithin(db: Db, now: Db, n: nat) {
    forall key: Bytes :: Length(now, key) <= Length(db, key) + n
  }

  lemma BlockFits(db: Db, now: Db, blocks: seq<Block>, target: nat, i: nat)
    requires CanIndex(db, blocks, target) && i < |blocks| && LengthsWithin(db, now, TotalPairs(blocks[..i]))
    ensures Fits(now, blocks[i].pairs)
  {
    TotalOfPrefix(blocks, i);
    forall key: Bytes ensures Length(now, key) + |blocks[i].pairs| < U32 {
      assert Length(now, key) <= Length(db, key) + TotalPairs(blocks[..i]);
      assert Length(db, key) + TotalPairs(blocks) < U32;
    }
  }

  lemma LengthsGrow(db: Db, now: Db, next: Db, n: nat, pairs: seq<Pair>, record: Bytes)
    requires LengthsWithin(db, now, n) && Appended(now, next, pairs, record)
    ensures LengthsWithin(db, next, n + |pairs|)
  {
    forall key: Bytes ensures Length(next, key) <= Length(db, key) + (n + |pairs|) {
      assert AppendedAt(now, next, Values(pairs, key), record, key);
      assert Length(now, key) <= Length(db, key) + n;
      ValuesFit(pairs, key);
    }
  }

  lemma AllBelowHigher(db: Db, g: nat, h: nat)
    requires AllBelow(db, g) && g <= h
    ensures AllBelow(db, h)
  {
    forall key: Bytes ensures KeptAt(db, key, h - 1) == Length(db, key) {
      assert KeptAt(db, key, g - 1) == Length(db, key);
      KeptMonotone(db, key, Length(db, key), g - 1, h - 1);
    }
  }

  /** Two cuts of one store at one height are the same lists. */
  lemma SameCut(db: Db, a: Db, b: Db, h: int)
    requires CutAll(db, a, h) && CutAll(db, b, h)
    ensures SameLists(a, b)
  {
    forall key: Bytes ensures CutTo(a, b, key, Length(a, key)) {
      var m := KeptAt(db, key, h);
      assert CutTo(db, a, key, m) && CutTo(db, b, key, m);
      forall i: nat ensures SameEntry(a, b, key, m, i) {
        assert SameEntry(db, a, key, m, i) && SameEntry(db, b, key, m, i);
      }
    }
  }

  /** After the first `i` blocks: the starting lists are those cut at the target, and the lists have grown by no more
      than the blocks' pairs. `bound` is above every entry. */
  ghost predicate Progress(start: Db, now: Db, blocks: seq<Block>, i: nat, target: nat, bound: nat)
    requires i <= |blocks|
  {
    && Indexed(now) && CutAll(now, start, target) && AllBelow(now, bound) && target < bound
    && (i < |blocks| ==> bound <= blocks[i].height)
    && LengthsWithin(start, now, TotalPairs(blocks[..i]))
    && |Entries(now)| == |Entries(start)| + TotalPairs(blocks[..i])
  }

  lemma ProgressFits(start: Db, now: Db, blocks: seq<Block>, i: nat, target: nat, bound: nat)
    requires CanIndex(start, blocks, target) && i < |blocks| && Progress(start, now, blocks, i, target, bound)
    ensures Fits(now, blocks[i].pairs) && AllBelow(now, blocks[i].height) && blocks[i].height < U32
  {
    BlockFits(start, now, blocks, target, i);
    AllBelowHigher(now, bound, blocks[i].height);
  }

  lemma ProgressStep(start: Db, now: Db, next: Db, blocks: seq<Block>, i: nat, target: nat, bound: nat)
    requires CanIndex(start, blocks, target) && i < |blocks| && Progress(start, now, blocks, i, target, bound)
    requires Appended(now, next, blocks[i].pairs, HeightRecord(blocks[i].height, blocks[i].hash8)) && Indexed(next)
    requires CutAll(next, now, blocks[i].height - 1) && AllBelow(next, blocks[i].height + 1)
    requires |Entries(next)| == |Entries(now)| + |blocks[i].pairs|
    ensures Progress(start, next, blocks, i + 1, target, blocks[i].height + 1)
  {
    var block := blocks[i];
    assert blocks[..i + 1][..i] == blocks[..i];
    LengthsGrow(start, now, next, TotalPairs(blocks[..i]), block.pairs, HeightRecord(block.height, block.hash8));
    CutAllCompose(next, now, start, block.height - 1, target);
  }

  /** Rolling back undoes indexing: after any run of blocks above the target, with or without pairs, the rollback
      gives back every list as it was and removes exactly the entries the run added. */
  method IndexThenRollback(storage: IndexerStorage, blocks: seq<Block>, target: nat) returns (deleted: nat)
    requires Indexed(storage.db) && AllBelow(storage.db, target + 1)
    requires CanIndex(storage.db, blocks, target) && target < U32
    modifies storage
    ensures SameLists(old(storage.db), storage.db) && TipHeight(storage.db) == target
    ensures deleted == TotalPairs(blocks)
  {
    ghost var start := storage.db;
    ghost var bound: nat := target + 1;
    StartIsCut(start, target);
    for i := 0 to |blocks|
      invariant Progress(start, storage.db, blocks, i, target, bound)
    {
      ghost var now := storage.db;
      ProgressFits(start, now, blocks, i, target, bound);
      storage.AppendBatch(blocks[i].pairs, blocks[i].height, blocks[i].hash8);
      ProgressStep(start, now, storage.db, blocks, i, target, bound);
      bound := blocks[i].height + 1;
    }
    assert blocks[..|blocks|] == blocks;
    ghost var full := storage.db;
    deleted := storage.RollbackToHeight(target);
    SameCut(full, start, storage.db, target);
    SameListsSameEntries(start, storage.db);
  }

  lemma StartIsCut(db: Db, target: nat)
    requires DbOk(db) && AllBelow(db, target + 1)
    ensures CutAll(db, db, target) && LengthsWithin(db, db, 0)
  {
    forall key: Bytes ensures CutTo(db, db, key, KeptAt(db, key, target)) {
      assert KeptAt(db, key, target + 1 - 1) == Length(db, key) && ListOk(db, key);
      Untouched(db, key);
    }
  }

  lemma SameListsSameEntries(db: Db, db': Db)
    requires DbOk(db) && SameLists(db, db')
    ensures Entries(db) == Entries(db')
  {
    forall k: DbKey | k.IndexKey? ensures k in db <==> k in db' {
      assert CutTo(db, db', k.key, Length(db, k.key)) && ListOk(db, k.key);
      assert SameEntry(db, db', k.key, Length(db, k.key), k.index) && EntryOk(db, k.key, k.index);
    }
  }

  // ---------------------------------------------------------------------
  // A stale key set at work
  // ---------------------------------------------------------------------

  lemma EmptyStore()
    ensures Indexed(map[]) && forall height: nat :: AllBelow(map[], height)
  {
    forall key: Bytes ensures ListOk(map[], key) {
      forall i: nat ensures EntryOk(map[], key, i) {
      }
    }
  }

  /** What one appended pair does to lengths, heights and key sets. */
  ghost predicate AppendedOne(db: Db, now: Db, key: Bytes, height: nat) {
    && (forall k: Bytes :: Length(now, k) == Length(db, k) + if k == key then 1 else 0)
    && (forall k: Bytes, i: nat :: i < Length(db, k) ==> HeightAt(now, k, i) == HeightAt(db, k, i))
    && HeightAt(now, key, Length(db, key)) == height && TipHeight(now) == height
    && KeysetKey(height) in now && (forall k: Bytes :: Lists(now, height, k) == if k == key then 1 else 0)
    && OtherKeysetsSame(db, now, height)
  }

  lemma OnePair(db: Db, now: Db, pair: Pair, height: nat)
    requires Appended(db, now, [pair], HeightRecord(height, None)) && height < U32 && |pair.key| < U32
    requires KeysetKey(height) in now && now[KeysetKey(height)] == EncodeKeySet(Keys([pair]))
    requires OtherKeysetsSame(db, now, height) && TipHeight(now) == height
    ensures AppendedOne(db, now, pair.key, height)
  {
    var record := HeightRecord(height, None);
    RecordHeight(height, None);
    forall k: Bytes ensures Values([pair], k) == if k == pair.key then [pair.value] else [] {
      assert [pair][..0] == [];
    }
    forall k: Bytes ensures Length(now, k) == Length(db, k) + if k == pair.key then 1 else 0 {
      assert AppendedAt(db, now, Values([pair], k), record, k);
    }
    forall k: Bytes, i: nat | i < Length(db, k) ensures HeightAt(now, k, i) == HeightAt(db, k, i) {
      assert AppendedAt(db, now, Values([pair], k), record, k);
      AppendedHeight(db, now, Values([pair], k), record, k, height, i);
    }
    AppendedHeight(db, now, Values([pair], pair.key), record, pair.key, height, Length(db, pair.key));
    assert Keys([pair]) == [pair.key];
    KeySetRoundTrip([pair.key]);
  }

  ghost predicate NoLongerThan(db: Db, n: nat) {
    forall key: Bytes :: Length(db, key) <= n
  }

  lemma OnePairFits(db: Db, pair: Pair, n: nat)
    requires |pair.key| < U32 && n < 10 && NoLongerThan(db, n)
    ensures Fits(db, [pair])
  {
    forall key: Bytes ensures Length(db, key) + 1 < U32 {
      assert Length(db, key) <= n;
    }
  }

  method AppendOne(storage: IndexerStorage, key: Bytes, v: Bytes, height: nat, ghost n: nat)
    requires DbOk(storage.db) && AllBelow(storage.db, height) && NoLongerThan(storage.db, n) && n < 10
    requires |key| < U32 && height < U32
    modifies storage
    ensures AppendedOne(old(storage.db), storage.db, key, height) && NoLongerThan(storage.db, n + 1)
    ensures DbOk(storage.db) && AllBelow(storage.db, height + 1)
    ensures old(Indexed(storage.db)) ==> Indexed(storage.db)
  {
    ghost var start := storage.db;
    OnePairFits(start, Pair(key, v), n);
    storage.AppendBatch([Pair(key, v)], height, None);
    OnePair(start, storage.db, Pair(key, v), height);
    forall k: Bytes ensures EndsBy(start, k, height) {
      assert KeptAt(start, k, height - 1) == Length(start, k) && ListOk(start, k);
      BelowEndsBy(start, k, height);
    }
  }

  /** `k` has entries at `a` and `a + 1`, and there is no key set at `a + 2`. */
  ghost predicate TwoEntries(db: Db, a: nat, k: Bytes) {
    && Length(db, k) == 2 && HeightAt(db, k, 0) == a && HeightAt(db, k, 1) == a + 1
    && KeysetKey(a + 1) in db && Lists(db, a + 1, k) == 1 && KeysetKey(a + 2) !in db
  }

  lemma TwoAppended(one: Db, two: Db, a: nat, k: Bytes)
    requires AppendedOne(map[], one, k, a) && AppendedOne(one, two, k, a + 1)
    ensures TwoEntries(two, a, k)
  {
    assert Length(map[], k) == 0 && HeightAt(one, k, 0) == a;
    assert SameKeyset(map[], one, a + 2) && SameKeyset(one, two, a + 2);
    assert Lists(two, a + 1, k) == 1;
  }

  lemma TwoRemain(two: Db, three: Db, a: nat, k: Bytes, j: Bytes)
    requires TwoEntries(two, a, k) && AppendedOne(two, three, j, a + 3) && k != j
    ensures TwoEntries(three, a, k)
  {
    assert SameKeyset(two, three, a + 1) && SameKeyset(two, three, a + 2);
  }

  /** Rolled back to `a`: one entry of `k` is left, and the key set of `a + 1`, which still lists `k`. */
  ghost predicate OneEntryAndStaleKeyset(db: Db, a: nat, k: Bytes) {
    && Length(db, k) == 1 && HeightAt(db, k, 0) == a && NoLongerThan(db, 3)
    && KeysetKey(a + 1) in db && Lists(db, a + 1, k) == 1
  }

  lemma KeptOne(db: Db, k: Bytes, a: nat)
    requires 1 <= Length(db, k) <= 2 && HeightAt(db, k, 0) == a && (Length(db, k) == 2 ==> HeightAt(db, k, 1) > a)
    ensures KeptAt(db, k, a) == 1
  {
    assert Kept(db, k, 1, a) == 1;
    if Length(db, k) == 2 {
      assert Kept(db, k, 2, a) == Kept(db, k, 1, a);
    }
  }

  /** The rollback is right, and leaves the key set of `a + 1` behind because `a + 2` has none. */
  lemma AfterFirstRollback(db: Db, db': Db, a: nat, k: Bytes)
    requires TwoEntries(db, a, k) && TipHeight(db) == a + 3 && NoLongerThan(db, 3) && CutAll(db, db', a)
    requires forall g: nat ::
               KeysetKey(g) in db' ==> KeysetKey(g) in db && db'[KeysetKey(g)] == db[KeysetKey(g)]
    requires forall g: nat :: KeysetKey(g) in db' <==> Survives(db, a, g)
    ensures OneEntryAndStaleKeyset(db', a, k)
  {
    KeptOne(db, k, a);
    assert CutTo(db, db', k, 1);
    CutHeights(db, db', k, 1, 0);
    forall key: Bytes ensures Length(db', key) <= 3 {
      assert CutTo(db, db', key, KeptAt(db, key, a)) && Length(db, key) <= 3;
    }
    assert KeysetKey(a + 2) !in db;
    assert GapAbove(db, a + 1, TipHeight(db));
  }

  /** With `j` appended at `a + 2`, a second rollback to `a` walks over the stale key set and takes the last entry. */
  lemma SecondRollbackTakesAll(stale: Db, db: Db, a: nat, k: Bytes, j: Bytes)
    requires OneEntryAndStaleKeyset(stale, a, k) && AppendedOne(stale, db, j, a + 2) && k != j
    ensures Length(db, k) == 1 == KeptAt(db, k, a) && Left(db, k, a) == 0
  {
    assert SameKeyset(stale, db, a + 1) && HeightAt(db, k, 0) == HeightAt(stale, k, 0);
    KeptOne(db, k, a);
    assert WalkEnd(db, a, a + 2) == WalkEnd(db, a, a + 1) == WalkEnd(db, a, a) == a;
    assert Listed(db, k, a, a + 2) == Lists(db, a + 1, k) + Listed(db, k, a + 1, a + 2);
  }

  method IndexThree(storage: IndexerStorage, a: nat, k: Bytes, j: Bytes, v: Bytes)
    requires storage.db == map[] && k != j && |k| < U32 && |j| < U32 && a + 3 < U32
    modifies storage
    ensures Indexed(storage.db) && TipHeight(storage.db) == a + 3 && NoLongerThan(storage.db, 3)
    ensures TwoEntries(storage.db, a, k)
  {
    EmptyStore();
    assert AllBelow(storage.db, a);
    AppendOne(storage, k, v, a, 0);
    ghost var one := storage.db;
    AppendOne(storage, k, v, a + 1, 1);
    ghost var two := storage.db;
    AllBelowHigher(two, a + 2, a + 3);
    AppendOne(storage, j, v, a + 3, 2);
    TwoAppended(one, two, a, k);
    TwoRemain(two, storage.db, a, k, j);
  }

  /** From an empty store, for all keys and heights: two blocks with `k`, a height without a block, a block with `j`, a
      rollback to the first block, one more block with `j`, and the same rollback again. Before the last step `k` has
      one entry, at the target height; after it none. */
  method StaleKeysetTakesEntry(storage: IndexerStorage, a: nat, k: Bytes, j: Bytes, v: Bytes)
    returns (ghost three: Db, ghost stale: Db, ghost before: Db)
    requires storage.db == map[] && k != j && |k| < U32 && |j| < U32 && a + 3 < U32
    modifies storage
    ensures Indexed(three) && TwoEntries(three, a, k) && TipHeight(three) == a + 3
    ensures CutLeft(three, stale, a) && CutAll(three, stale, a)
    ensures AppendedOne(stale, before, j, a + 2)
    ensures DbOk(before) && BelowTip(before) && Length(before, k) == 1 == KeptAt(before, k, a)
    ensures CutLeft(before, storage.db, a) && !ListedRight(before, k, a) && Length(storage.db, k) == 0
  {
    IndexThree(storage, a, k, j, v);
    three := storage.db;
    var _ := storage.RollbackToHeight(a);
    stale := storage.db;
    AfterFirstRollback(three, stale, a, k);
    AllBelowHigher(stale, a + 1, a + 2);
    AppendOne(storage, j, v, a + 2, 3);
    before := storage.db;
    SecondRollbackTakesAll(stale, before, a, k, j);
    LeftRightIff(before, k, a);
    var _ := storage.RollbackToHeight(a);
    assert CutTo(before, storage.db, k, Left(before, k, a));
  }
}
