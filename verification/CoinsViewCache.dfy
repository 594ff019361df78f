/** The cache object itself: a write-back cache over a base store, and the store it flushes to. */
module CoinsViewCache {
  import opened Wrappers
  import opened Transactions
  import opened Coins
  import opened CoinsRuns

  const MAX_RETAINED_BYTES: nat := 1024 * 1024 * 1024

  type BlockHash = Bytes

  predicate IsNullHash(hash: BlockHash) {
    forall i :: 0 <= i < |hash| ==> hash[i] == 0
  }

  function DynamicMemoryUsage(coin: Coin): nat {
    140 + |coin.txOut.scriptPubkey|
  }

  /** The memory that the coins of a cache take together. */
  ghost function Usage(cache: Cache): nat
    decreases |cache|
  {
    if cache == map[] then 0
    else
      var o :| o in cache;
      DynamicMemoryUsage(cache[o].coin) + Usage(cache - {o})
  }

  /** In whatever order the coins are counted. */
  lemma {:induction false} UsageWithout(cache: Cache, o: OutPoint)
    requires o in cache
    ensures Usage(cache) == DynamicMemoryUsage(cache[o].coin) + Usage(cache - {o})
    decreases |cache|
  {
    var first :| first in cache && Usage(cache) == DynamicMemoryUsage(cache[first].coin) + Usage(cache - {first});
    if first != o {
      UsageWithout(cache - {first}, o);
      UsageWithout(cache - {o}, first);
      assert cache - {first} - {o} == cache - {o} - {first};
    }
  }

  lemma UsageAdds(cache: Cache, o: OutPoint, e: Entry)
    requires o !in cache
    ensures Usage(cache[o := e]) == Usage(cache) + DynamicMemoryUsage(e.coin)
  {
    UsageWithout(cache[o := e], o);
    assert cache[o := e] - {o} == cache;
  }

  /** The effect of a batch: each entry writes its coin or erases the outpoint, in order. */
  function ApplyWrites(m: Store, writes: seq<(OutPoint, Option<Coin>)>): Store {
    if writes == [] then m
    else
      var before := ApplyWrites(m, writes[..|writes| - 1]);
      var (o, coin) := writes[|writes| - 1];
      if coin.Some? then before[o := coin.value] else before - {o}
  }

  /** A database-backed coin set. `coins` may hold spent coins; readers ignore them. */
  class CoinsViewDb {
    var coins: Store
    var bestBlock: BlockHash

    constructor (coins: Store, bestBlock: BlockHash)
      ensures this.coins == coins && this.bestBlock == bestBlock
    {
      this.coins, this.bestBlock := coins, bestBlock;
    }

    method GetCoin(o: OutPoint) returns (r: Option<Coin>)
      ensures r == Lookup(coins, o)
    {
      r := Lookup(coins, o);
    }

    /** All writes and the best block go into one batch; `committed` says whether the database took it. */
    method BatchWrite(writes: seq<(OutPoint, Option<Coin>)>, best: BlockHash, committed: bool) returns (ok: bool)
      modifies this
      ensures ok == committed
      ensures ok ==> coins == ApplyWrites(old(coins), writes) && bestBlock == best
      ensures !ok ==> coins == old(coins) && bestBlock == old(bestBlock)
    {
      var batch := coins;
      for i := 0 to |writes|
        invariant batch == ApplyWrites(coins, writes[..i])
        invariant coins == old(coins) && bestBlock == old(bestBlock)
      {
        assert writes[..i + 1][..i] == writes[..i];
        var (o, coin) := writes[i];
        batch := if coin.Some? then batch[o := coin.value] else batch - {o};
      }
      assert writes[..|writes|] == writes;
      if committed {
        coins, bestBlock := batch, best;
      }
      return committed;
    }
  }

  class CoinsViewCache {
    const base: CoinsViewDb
    var cache: Cache
    var bestBlock: BlockHash

    ghost predicate Valid()
      reads this, base
    {
      Coherent(base.coins, cache)
    }

    /** The UTXO set this object shows. */
    ghost function Shown(): Store
      reads this, base
    {
      View(base.coins, cache)
    }

    /** The block up to which this object's UTXO set is meant to be current. */
    ghost function Best(): BlockHash
      reads this, base
    {
      if IsNullHash(bestBlock) then base.bestBlock else bestBlock
    }

    constructor (base: CoinsViewDb)
      ensures this.base == base && cache == map[] && Valid()
      ensures bestBlock == base.bestBlock && Best() == base.bestBlock && Shown() == View(base.coins, map[])
    {
      this.base := base;
      cache := map[];
      bestBlock := base.bestBlock;
    }

    method SetBestBlock(hash: BlockHash)
      modifies this`bestBlock
      ensures bestBlock == hash
      ensures Best() == if IsNullHash(hash) then base.bestBlock else hash
    {
      bestBlock := hash;
    }

    method GetBestBlock() returns (hash: BlockHash)
      ensures hash == Best()
    {
      hash := if IsNullHash(bestBlock) then base.bestBlock else bestBlock;
    }

    method FetchCoin(o: OutPoint) returns (r: Option<Coin>)
      requires Valid()
      modifies this`cache
      ensures Valid() && Shown() == old(Shown())
      ensures cache == FetchInto(base.coins, old(cache), o)
      ensures r == old(ViewAt(base.coins, cache, o))
    {
      FetchIntoEffect(base.coins, cache, o);
      if o in cache {
        return if IsSpent(cache[o].coin) then None else Some(cache[o].coin);
      }
      r := base.GetCoin(o);
      if r.None? {
        return;
      }
      cache := if o in cache then cache else cache[o := Entry(r.value, false, false)];
    }

    method PrefetchCoins(outpoints: seq<OutPoint>)
      requires Valid()
      modifies this`cache
      ensures Valid() && Shown() == old(Shown())
      ensures cache == PrefetchInto(base.coins, old(cache), outpoints)
    {
      var missing := CollectMisses(outpoints);
      var found := ReadAll(base.coins, missing);
      PrefetchIntoEffect(base.coins, cache, outpoints);
      ghost var before := cache;
      for i := 0 to |found|
        invariant InsertAll(cache, found[i..]) == InsertAll(before, found)
      {
        assert found[i..][1..] == found[i + 1..];
        var (o, coin) := found[i];
        if o !in cache && !IsSpent(coin) {
          cache := cache[o := Entry(coin, false, false)];
        }
      }
    }

    method CollectMisses(outpoints: seq<OutPoint>) returns (missing: seq<OutPoint>)
      ensures missing == Misses(cache, outpoints)
    {
      missing := [];
      for i := 0 to |outpoints|
        invariant missing + Misses(cache, outpoints[i..]) == Misses(cache, outpoints)
      {
        assert outpoints[i..][1..] == outpoints[i + 1..];
        if outpoints[i] !in cache {
          missing := missing + [outpoints[i]];
        }
      }
    }

    /** The result is `Panicked` where the source stops. The new entry is marked FRESH whenever nothing was
        cached, so coherence survives exactly when no uncached coin of the base is hidden. */
    method AddCoin(o: OutPoint, coin: Coin, possibleOverwrite: bool) returns (r: AddResult)
      modifies this`cache
      ensures r == AddOutcome(old(cache), o, coin, possibleOverwrite)
      ensures cache == AddStep(old(cache), o, coin, possibleOverwrite)
      ensures old(Valid()) ==> Shown() == if r == Added then old(Shown())[o := coin] else old(Shown())
      ensures old(Valid()) ==> (Valid() <==> r != Added || o in old(cache) || Lookup(base.coins, o) == None)
    {
      if Valid() {
        AddEffect(base.coins, cache, o, coin, possibleOverwrite);
      }
      if IsSpent(coin) {
        return Panicked;
      }
      if IsUnspendable(coin.txOut.scriptPubkey) {
        return Skipped;
      }
      if o in cache {
        var existing := cache[o];
        var markFresh := false;
        if !possibleOverwrite {
          if !IsSpent(existing.coin) {
            return Panicked;
          }
          markFresh := !existing.isDirty;
        }
        cache := cache[o := Entry(coin, true, markFresh)];
      } else {
        cache := cache[o := Entry(coin, true, true)];
      }
      return Added;
    }

    method SpendCoin(o: OutPoint) returns (r: Option<Coin>)
      requires Valid()
      modifies this`cache
      ensures Valid() && Shown() == old(Shown()) - {o}
      ensures r == old(ViewAt(base.coins, cache, o))
      ensures cache == SpendStep(FetchInto(base.coins, old(cache), o), o)
    {
      FetchIntoEffect(base.coins, cache, o);
      var _ := FetchCoin(o);
      SpendEffect(base.coins, cache, o);
      if o !in cache || IsSpent(cache[o].coin) {
        return None;
      }
      r := Some(cache[o].coin);
      if cache[o].isFresh {
        cache := cache - {o};
      } else {
        cache := cache[o := Entry(EMPTY_COIN, true, false)];
      }
    }

    method Uncache(o: OutPoint)
      requires Valid()
      modifies this`cache
      ensures Valid() && Shown() == old(Shown())
      ensures cache == UncacheStep(old(cache), o)
    {
      UncacheEffect(base.coins, cache, o);
      if o in cache && !cache[o].isDirty {
        cache := cache - {o};
      }
    }

    /** Entries to write, gathered in whatever order the hash map yields them. */
    method CollectWrites(ghost target: Store) returns (writes: seq<(OutPoint, Option<Coin>)>)
      ensures ApplyWrites(target, writes) == Flushed(target, cache)
    {
      writes := [];
      var remaining := cache.Keys;
      FlushedNone(target);
      assert cache - cache.Keys == map[];
      while remaining != {}
        invariant remaining <= cache.Keys
        invariant ApplyWrites(target, writes) == Flushed(target, cache - remaining)
        decreases remaining
      {
        var o :| o in remaining;
        FlushedOneMore(target, cache, remaining, o);
        var entry := cache[o];
        if entry.isDirty && !(entry.isFresh && IsSpent(entry.coin)) {
          var write := (o, if IsSpent(entry.coin) then None else Some(entry.coin));
          assert (writes + [write])[..|writes|] == writes;
          writes := writes + [write];
        }
        remaining := remaining - {o};
      }
      assert cache - {} == cache;
    }

    /** Keeps unspent entries as a clean read cache while they fit under the cap, in whatever order they come: what is
        kept fits, and nothing that was dropped unspent would fit beside it. */
    method Retain() returns (ghost keep: set<OutPoint>)
      modifies this`cache
      ensures cache == Retained(old(cache), keep) && Usage(cache) <= MAX_RETAINED_BYTES
      ensures forall o :: o in old(cache) && !IsSpent(old(cache)[o].coin) && o !in cache ==>
                Usage(cache) + DynamicMemoryUsage(old(cache)[o].coin) > MAX_RETAINED_BYTES
    {
      var kept: Cache := map[];
      var retainedUsage := 0;
      var remaining := cache.Keys;
      keep := {};
      while remaining != {}
        invariant remaining <= cache.Keys && keep !! remaining
        invariant cache == old(cache) && kept == Retained(cache, keep)
        invariant retainedUsage == Usage(kept) <= MAX_RETAINED_BYTES
        invariant forall o :: o in cache && o !in remaining && !IsSpent(cache[o].coin) && o !in kept ==>
                    retainedUsage + DynamicMemoryUsage(cache[o].coin) > MAX_RETAINED_BYTES
        decreases remaining
      {
        var o :| o in remaining;
        remaining := remaining - {o};
        var coin := cache[o].coin;
        if !IsSpent(coin) && retainedUsage + DynamicMemoryUsage(coin) <= MAX_RETAINED_BYTES {
          assert Retained(cache, keep + {o}) == Retained(cache, keep)[o := Entry(coin, false, false)];
          UsageAdds(kept, o, Entry(coin, false, false));
          kept := kept[o := Entry(coin, false, false)];
          keep := keep + {o};
          retainedUsage := retainedUsage + DynamicMemoryUsage(coin);
        }
      }
      cache := kept;
    }

    /** `committed` is the database's answer. On success the target holds exactly what was shown, together with
        the best block, whenever it started out equal to the base; flushing into the base itself also leaves
        what is shown unchanged and only clean unspent entries cached. */
    method FlushTo(target: CoinsViewDb, committed: bool) returns (ok: bool)
      requires Valid()
      modifies this`cache, target
      ensures ok == committed
      ensures !ok ==> cache == old(cache)
      ensures !ok ==> target.coins == old(target.coins) && target.bestBlock == old(target.bestBlock)
      ensures ok ==> target.bestBlock == bestBlock && target.coins == Flushed(old(target.coins), old(cache))
      ensures ok && old(target.coins) == old(base.coins) ==> View(target.coins, map[]) == old(Shown())
      ensures ok && old(target.coins) == old(base.coins) ==>
                Coherent(target.coins, cache) && View(target.coins, cache) == old(Shown())
      ensures ok && target == base ==> Valid() && Shown() == old(Shown())
      ensures ok && target == base ==>
                (Best() == old(Best()) <==> !IsNullHash(bestBlock) || old(base.bestBlock) == bestBlock)
      ensures ok ==> forall o :: o in cache ==>
                o in old(cache) && cache[o] == Entry(old(cache)[o].coin, false, false) && !IsSpent(cache[o].coin)
    {
      FlushEffect(base.coins, cache, {});
      var writes := CollectWrites(target.coins);
      ok := target.BatchWrite(writes, bestBlock, committed);
      if ok {
        ghost var keep := Retain();
        FlushEffect(old(base.coins), old(cache), keep);
      }
    }

    /** Adds the outputs of a transaction. With `checkForOverwrite` each output is looked up first, and the cache
        stays coherent whatever the base holds. */
    method AddCoins(tx: Transaction, txid: Bytes, height: nat, checkForOverwrite: bool) returns (r: AddResult)
      requires Valid()
      modifies this`cache
      ensures checkForOverwrite ==> Valid()
      ensures checkForOverwrite ==> r == PlainAddAllOutcome(tx, |tx.vout|)
      ensures checkForOverwrite ==> Shown() == PlainAddAll(old(Shown()), tx, txid, height, |tx.vout|)
      ensures !checkForOverwrite ==>
        (r, cache) == RawAddAll(old(cache), tx, txid, height, |tx.vout|)
    {
      var isCoinbase := IsCoinbase(tx);
      r := Added;
      for i := 0 to |tx.vout|
        invariant checkForOverwrite ==> Valid() && r == PlainAddAllOutcome(tx, i) == Added
        invariant checkForOverwrite ==> Shown() == PlainAddAll(old(Shown()), tx, txid, height, i)
        invariant !checkForOverwrite ==> r == Added && (r, cache) == RawAddAll(old(cache), tx, txid, height, i)
      {
        var o := OutPoint(txid, i);
        var coin := Coin(tx.vout[i], height, isCoinbase);
        if checkForOverwrite {
          CheckedAddIsPlain(base.coins, cache, o, coin);
          var existing := FetchCoin(o);
          r := AddCoin(o, coin, existing.Some?);
        } else {
          r := AddCoin(o, coin, isCoinbase);
        }
        if r == Panicked {
          PlainPanicStays(tx, i + 1, |tx.vout|);
          PlainPanicKeeps(old(Shown()), tx, txid, height, i + 1, |tx.vout|);
          RawPanicStays(old(cache), tx, txid, height, i + 1, |tx.vout|);
          return;
        }
        r := Added;
      }
    }
  }

  /** What is written survives: after moving to a block and flushing into its own base, a new cache over that base shows
      the same coins and reports that block. */
  method FlushAndReopen(cache: CoinsViewCache, hash: BlockHash) returns (reopened: CoinsViewCache, best: BlockHash)
    requires cache.Valid() && !IsNullHash(hash)
    modifies cache, cache.base
    ensures fresh(reopened) && reopened.base == cache.base && reopened.Valid()
    ensures reopened.Shown() == old(cache.Shown()) == cache.Shown() && best == hash == cache.Best()
  {
    cache.SetBestBlock(hash);
    var _ := cache.FlushTo(cache.base, true);
    reopened := new CoinsViewCache(cache.base);
    best := reopened.GetBestBlock();
  }

  lemma FlushedNone(target: Store)
    ensures Flushed(target, map[]) == target
  {
  }

  lemma FlushedOneMore(target: Store, cache: Cache, remaining: set<OutPoint>, o: OutPoint)
    requires o in remaining && remaining <= cache.Keys
    ensures var less := remaining - {o};
            var before := Flushed(target, cache - remaining);
            var e := cache[o];
            Flushed(target, cache - less) ==
              if e.isDirty && !(e.isFresh && IsSpent(e.coin)) then
                (if IsSpent(e.coin) then before - {o} else before[o := e.coin])
              else before
  {
  }

  // ---------------------------------------------------------------------
  // A transaction's outputs
  // ---------------------------------------------------------------------

  ghost function OutputCoin(tx: Transaction, height: nat, i: nat): Coin
    requires i < |tx.vout|
  {
    Coin(tx.vout[i], height, IsCoinbase(tx))
  }

  /** Reference for the checked path: every spendable output overwrites; a null output stops the node. */
  ghost function PlainAddAllOutcome(tx: Transaction, n: nat): AddResult
    requires n <= |tx.vout|
  {
    if n == 0 then Added
    else if PlainAddAllOutcome(tx, n - 1) == Panicked || tx.vout[n - 1].value == -1 then Panicked
    else Added
  }

  ghost function PlainAddAll(m: Store, tx: Transaction, txid: Bytes, height: nat, n: nat): Store
    requires n <= |tx.vout|
  {
    if n == 0 then m
    else if PlainAddAllOutcome(tx, n - 1) == Panicked then PlainAddAll(m, tx, txid, height, n - 1)
    else PlainAdd(PlainAddAll(m, tx, txid, height, n - 1), OutPoint(txid, n - 1), OutputCoin(tx, height, n - 1), true)
  }

  /** The unchecked path: overwriting is allowed to coinbase transactions only, and nothing is looked up. */
  ghost function RawAddAll(cache: Cache, tx: Transaction, txid: Bytes, height: nat, n: nat): (AddResult, Cache)
    requires n <= |tx.vout|
  {
    if n == 0 then (Added, cache)
    else
      var (r, before) := RawAddAll(cache, tx, txid, height, n - 1);
      if r == Panicked then (r, before)
      else
        var o, coin := OutPoint(txid, n - 1), OutputCoin(tx, height, n - 1);
        (if AddOutcome(before, o, coin, IsCoinbase(tx)) == Panicked then Panicked else Added,
         AddStep(before, o, coin, IsCoinbase(tx)))
  }

  lemma {:induction false} PlainPanicStays(tx: Transaction, i: nat, n: nat)
    requires i <= n <= |tx.vout|
    ensures PlainAddAllOutcome(tx, i) == Panicked ==> PlainAddAllOutcome(tx, n) == Panicked
    decreases n
  {
    if i < n {
      PlainPanicStays(tx, i, n - 1);
    }
  }

  lemma {:induction false} PlainPanicKeeps(m: Store, tx: Transaction, txid: Bytes, height: nat, i: nat, n: nat)
    requires i <= n <= |tx.vout|
    ensures PlainAddAllOutcome(tx, i) == Panicked ==>
            PlainAddAll(m, tx, txid, height, n) == PlainAddAll(m, tx, txid, height, i)
    decreases n
  {
    if i < n {
      PlainPanicStays(tx, i, n - 1);
      PlainPanicKeeps(m, tx, txid, height, i, n - 1);
    }
  }

  lemma {:induction false} RawPanicStays(cache: Cache, tx: Transaction, txid: Bytes, height: nat, i: nat, n: nat)
    requires i <= n <= |tx.vout|
    ensures RawAddAll(cache, tx, txid, height, i).0 == Panicked ==>
            RawAddAll(cache, tx, txid, height, n) == RawAddAll(cache, tx, txid, height, i)
    decreases n
  {
    if i < n {
      RawPanicStays(cache, tx, txid, height, i, n - 1);
    }
  }
}
