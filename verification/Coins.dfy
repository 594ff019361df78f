/** The UTXO cache as a state machine: cached entries with DIRTY and FRESH flags
    over a base view, and what each atomic step does to them. */
module Coins {
  import opened Wrappers
  import opened Transactions

  datatype Coin = Coin(txOut: TxOut, height: nat, coinbase: bool)

  const EMPTY_COIN: Coin := Coin(TxOut(-1, []), 0, false)

  predicate IsSpent(coin: Coin) {
    coin.txOut.value == -1
  }

  datatype Entry = Entry(coin: Coin, isDirty: bool, isFresh: bool)

  /** What a base view stores; it may hold spent coins, which readers ignore. */
  type Store = map<OutPoint, Coin>
  type Cache = map<OutPoint, Entry>

  function Lookup(base: Store, o: OutPoint): Option<Coin> {
    if o in base && !IsSpent(base[o]) then Some(base[o]) else None
  }

  /** The coin that the cache over the base shows at `o`. */
  function ViewAt(base: Store, cache: Cache, o: OutPoint): Option<Coin> {
    if o in cache then (if IsSpent(cache[o].coin) then None else Some(cache[o].coin))
    else Lookup(base, o)
  }

  /** The whole UTXO set shown: a plain map from outpoints to unspent coins. */
  ghost function View(base: Store, cache: Cache): Store {
    map o | o in base.Keys + cache.Keys && ViewAt(base, cache, o).Some? :: ViewAt(base, cache, o).value
  }

  ghost predicate EntryOk(base: Store, o: OutPoint, e: Entry) {
    && (!e.isDirty ==> !e.isFresh && Lookup(base, o) == Some(e.coin))
    && (e.isFresh ==> Lookup(base, o) == None && !IsSpent(e.coin))
  }

  /** Clean entries mirror the base; FRESH entries are unspent and unknown to the base. */
  ghost predicate Coherent(base: Store, cache: Cache) {
    forall o :: o in cache ==> EntryOk(base, o, cache[o])
  }

  // ---------------------------------------------------------------------
  // Atomic steps, each one critical section of the source
  // ---------------------------------------------------------------------

  /** Inserting coins read from the base, where nothing is cached yet. */
  function InsertClean(cache: Cache, o: OutPoint, coin: Coin): Cache {
    if o in cache || IsSpent(coin) then cache else cache[o := Entry(coin, false, false)]
  }

  datatype AddResult = Added | Skipped | Panicked

  /** A spent coin and an overwrite that the caller ruled out stop the node; unspendable outputs are not stored. */
  function AddOutcome(cache: Cache, o: OutPoint, coin: Coin, possibleOverwrite: bool): AddResult {
    if IsSpent(coin) then Panicked
    else if IsUnspendable(coin.txOut.scriptPubkey) then Skipped
    else if o in cache && !possibleOverwrite && !IsSpent(cache[o].coin) then Panicked
    else Added
  }

  function AddStep(cache: Cache, o: OutPoint, coin: Coin, possibleOverwrite: bool): Cache {
    if AddOutcome(cache, o, coin, possibleOverwrite) != Added then cache
    else if o in cache then cache[o := Entry(coin, true, !possibleOverwrite && !cache[o].isDirty)]
    else cache[o := Entry(coin, true, true)]
  }

  /** The locked half of a spend: it sees the cache only. */
  function SpendOutcome(cache: Cache, o: OutPoint): Option<Coin> {
    if o in cache && !IsSpent(cache[o].coin) then Some(cache[o].coin) else None
  }

  function SpendStep(cache: Cache, o: OutPoint): Cache {
    if SpendOutcome(cache, o).None? then cache
    else if cache[o].isFresh then cache - {o}
    else cache[o := Entry(EMPTY_COIN, true, false)]
  }

  function UncacheStep(cache: Cache, o: OutPoint): Cache {
    if o in cache && !cache[o].isDirty then cache - {o} else cache
  }

  /** What a flush leaves in the target: dirty entries written or erased, spent FRESH entries skipped. */
  ghost function Flushed(base: Store, cache: Cache): Store {
    map o | o in base.Keys + cache.Keys && StoredAfterFlush(base, cache, o).Some?
         :: StoredAfterFlush(base, cache, o).value
  }

  ghost function StoredAfterFlush(base: Store, cache: Cache, o: OutPoint): Option<Coin> {
    if o in cache && cache[o].isDirty && !(cache[o].isFresh && IsSpent(cache[o].coin)) then
      (if IsSpent(cache[o].coin) then None else Some(cache[o].coin))
    else if o in base then Some(base[o]) else None
  }

  /** The warm cache kept after a flush: unspent entries among `keep`, all clean. */
  ghost function Retained(cache: Cache, keep: set<OutPoint>): Cache {
    map o | o in cache && o in keep && !IsSpent(cache[o].coin) :: Entry(cache[o].coin, false, false)
  }

  // ---------------------------------------------------------------------
  // What each step does to the view and to coherence
  // ---------------------------------------------------------------------

  lemma ViewLookup(base: Store, cache: Cache, o: OutPoint)
    ensures o in View(base, cache) <==> ViewAt(base, cache, o).Some?
    ensures o in View(base, cache) ==> View(base, cache)[o] == ViewAt(base, cache, o).value
  {
  }

  /** Two views are equal when they show the same coin everywhere. */
  lemma ViewExtensional(base: Store, cache: Cache, m: Store)
    requires forall o :: ViewAt(base, cache, o) == if o in m then Some(m[o]) else None
    ensures View(base, cache) == m
  {
    forall o | o in m ensures o in View(base, cache) && View(base, cache)[o] == m[o] {
      ViewLookup(base, cache, o);
    }
    forall o | o in View(base, cache) ensures o in m {
      ViewLookup(base, cache, o);
    }
  }

  /** Caching what the base holds changes nothing; a coin that the base no longer holds breaks coherence
      exactly when it does land in the cache. */
  lemma InsertCleanEffect(base: Store, cache: Cache, o: OutPoint, coin: Coin)
    requires Coherent(base, cache)
    ensures Coherent(base, InsertClean(cache, o, coin)) <==>
            o in cache || IsSpent(coin) || Lookup(base, o) == Some(coin)
    ensures Lookup(base, o) == Some(coin) ==> View(base, InsertClean(cache, o, coin)) == View(base, cache)
  {
    var cache' := InsertClean(cache, o, coin);
    assert !IsSpent(coin) ==> o in cache';
    if Lookup(base, o) == Some(coin) {
      forall x ensures ViewAt(base, cache', x) == if x in View(base, cache) then Some(View(base, cache)[x]) else None {
        ViewLookup(base, cache, x);
      }
      ViewExtensional(base, cache', View(base, cache));
    }
  }

  /** Adding always shows the coin; it keeps the cache coherent exactly when it overwrites nothing uncached in the
      base. */
  lemma AddEffect(base: Store, cache: Cache, o: OutPoint, coin: Coin, possibleOverwrite: bool)
    requires Coherent(base, cache)
    ensures var added := AddOutcome(cache, o, coin, possibleOverwrite) == Added;
            var cache' := AddStep(cache, o, coin, possibleOverwrite);
            && View(base, cache') == (if added then View(base, cache)[o := coin] else View(base, cache))
            && (Coherent(base, cache') <==> !added || o in cache || Lookup(base, o) == None)
  {
    var cache' := AddStep(cache, o, coin, possibleOverwrite);
    if AddOutcome(cache, o, coin, possibleOverwrite) == Added {
      var m := View(base, cache)[o := coin];
      forall x ensures ViewAt(base, cache', x) == if x in m then Some(m[x]) else None {
        ViewLookup(base, cache, x);
      }
      ViewExtensional(base, cache', m);
      assert o in cache' && cache'[o].coin == coin;
      assert o in cache ==> EntryOk(base, o, cache[o]);
      if o in cache || Lookup(base, o) == None {
        assert EntryOk(base, o, cache'[o]);
      }
    }
  }

  /** A locked spend keeps coherence always, and does what a spend should exactly when the coin it is
      meant to spend is cached. */
  lemma SpendEffect(base: Store, cache: Cache, o: OutPoint)
    requires Coherent(base, cache)
    ensures Coherent(base, SpendStep(cache, o))
    ensures SpendOutcome(cache, o) == ViewAt(base, cache, o) <==> o in cache || Lookup(base, o) == None
    ensures View(base, SpendStep(cache, o)) == View(base, cache) - {o} <==> o in cache || Lookup(base, o) == None
    ensures o !in cache ==> SpendStep(cache, o) == cache
  {
    var cache' := SpendStep(cache, o);
    assert o in cache ==> EntryOk(base, o, cache[o]);
    ViewLookup(base, cache, o);
    if o in cache || Lookup(base, o) == None {
      var m := View(base, cache) - {o};
      forall x ensures ViewAt(base, cache', x) == if x in m then Some(m[x]) else None {
        ViewLookup(base, cache, x);
      }
      ViewExtensional(base, cache', m);
    }
  }

  lemma UncacheEffect(base: Store, cache: Cache, o: OutPoint)
    requires Coherent(base, cache)
    ensures Coherent(base, UncacheStep(cache, o))
    ensures View(base, UncacheStep(cache, o)) == View(base, cache)
  {
    var cache' := UncacheStep(cache, o);
    assert o in cache ==> EntryOk(base, o, cache[o]);
    forall x ensures ViewAt(base, cache', x) == if x in View(base, cache) then Some(View(base, cache)[x]) else None {
      ViewLookup(base, cache, x);
    }
    ViewExtensional(base, cache', View(base, cache));
  }

  lemma FlushedLookup(base: Store, cache: Cache, o: OutPoint)
    requires Coherent(base, cache)
    ensures Lookup(Flushed(base, cache), o) == ViewAt(base, cache, o)
  {
    assert o in cache ==> EntryOk(base, o, cache[o]);
  }

  /** Flushing writes exactly the view into the base; whichever entries stay cached, the view is unchanged
      and everything cached is clean, unspent and equal to the base. */
  lemma FlushEffect(base: Store, cache: Cache, keep: set<OutPoint>)
    requires Coherent(base, cache)
    ensures View(Flushed(base, cache), map[]) == View(base, cache)
    ensures View(Flushed(base, cache), Retained(cache, keep)) == View(base, cache)
    ensures Coherent(Flushed(base, cache), Retained(cache, keep))
    ensures var kept := Retained(cache, keep);
            forall o :: o in kept ==> !kept[o].isDirty && !IsSpent(kept[o].coin)
  {
    var base', cache' := Flushed(base, cache), Retained(cache, keep);
    forall x
      ensures ViewAt(base', cache', x) == if x in View(base, cache) then Some(View(base, cache)[x]) else None
      ensures ViewAt(base', map[], x) == if x in View(base, cache) then Some(View(base, cache)[x]) else None
    {
      FlushedLookup(base, cache, x);
      ViewLookup(base, cache, x);
    }
    ViewExtensional(base', cache', View(base, cache));
    ViewExtensional(base', map[], View(base, cache));
    forall x | x in cache' ensures EntryOk(base', x, cache'[x]) {
      FlushedLookup(base, cache, x);
    }
  }
}
