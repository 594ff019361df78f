/** Whole runs of the UTXO cache, sequential and concurrent. */
module CoinsRuns {
  import opened Wrappers
  import opened Transactions
  import opened Coins

  datatype State = State(base: Store, cache: Cache)

  datatype Op =
    | Fetch(o: OutPoint)
    | Prefetch(os: seq<OutPoint>)
    | Add(o: OutPoint, coin: Coin, possibleOverwrite: bool)
    | AddChecked(o: OutPoint, coin: Coin)
    | Spend(o: OutPoint)
    | Uncache(o: OutPoint)
    | Flush(keep: set<OutPoint>)

  datatype Observation = Silent | Found(coin: Option<Coin>) | AddedAs(result: AddResult)

  function FetchInto(base: Store, cache: Cache, o: OutPoint): Cache {
    match Lookup(base, o)
    case None => cache
    case Some(coin) => InsertClean(cache, o, coin)
  }

  /** Misses are found first, read from the base together, and inserted together. */
  function PrefetchInto(base: Store, cache: Cache, os: seq<OutPoint>): Cache {
    InsertAll(cache, ReadAll(base, Misses(cache, os)))
  }

  ghost function Apply(s: State, op: Op): State {
    match op
    case Fetch(o) => s.(cache := FetchInto(s.base, s.cache, o))
    case Prefetch(os) => s.(cache := PrefetchInto(s.base, s.cache, os))
    case Add(o, coin, possibleOverwrite) => s.(cache := AddStep(s.cache, o, coin, possibleOverwrite))
    case AddChecked(o, coin) =>
      var cache := FetchInto(s.base, s.cache, o);
      s.(cache := AddStep(cache, o, coin, ViewAt(s.base, s.cache, o).Some?))
    case Spend(o) => s.(cache := SpendStep(FetchInto(s.base, s.cache, o), o))
    case Uncache(o) => s.(cache := UncacheStep(s.cache, o))
    case Flush(keep) => State(Flushed(s.base, s.cache), Retained(s.cache, keep))
  }

  ghost function Observe(s: State, op: Op): Observation {
    match op
    case Fetch(o) => Found(ViewAt(s.base, s.cache, o))
    case Prefetch(_) => Silent
    case Add(o, coin, possibleOverwrite) => AddedAs(AddOutcome(s.cache, o, coin, possibleOverwrite))
    case AddChecked(o, coin) =>
      AddedAs(AddOutcome(FetchInto(s.base, s.cache, o), o, coin, ViewAt(s.base, s.cache, o).Some?))
    case Spend(o) => Found(SpendOutcome(FetchInto(s.base, s.cache, o), o))
    case Uncache(_) => Silent
    case Flush(_) => Silent
  }

  // ---------------------------------------------------------------------
  // The reference: a plain map from outpoints to coins
  // ---------------------------------------------------------------------

  function PlainGet(m: Store, o: OutPoint): Option<Coin> {
    if o in m then Some(m[o]) else None
  }

  function PlainAddOutcome(m: Store, o: OutPoint, coin: Coin, possibleOverwrite: bool): AddResult {
    if IsSpent(coin) then Panicked
    else if IsUnspendable(coin.txOut.scriptPubkey) then Skipped
    else if o in m && !possibleOverwrite then Panicked
    else Added
  }

  function PlainAdd(m: Store, o: OutPoint, coin: Coin, possibleOverwrite: bool): Store {
    if PlainAddOutcome(m, o, coin, possibleOverwrite) == Added then m[o := coin] else m
  }

  function PlainApply(m: Store, op: Op): Store {
    match op
    case Add(o, coin, possibleOverwrite) => PlainAdd(m, o, coin, possibleOverwrite)
    case AddChecked(o, coin) => PlainAdd(m, o, coin, true)
    case Spend(o) => m - {o}
    case Fetch(_) => m
    case Prefetch(_) => m
    case Uncache(_) => m
    case Flush(_) => m
  }

  function PlainObserve(m: Store, op: Op): Observation {
    match op
    case Fetch(o) => Found(PlainGet(m, o))
    case Add(o, coin, possibleOverwrite) => AddedAs(PlainAddOutcome(m, o, coin, possibleOverwrite))
    case AddChecked(o, coin) => AddedAs(PlainAddOutcome(m, o, coin, true))
    case Spend(o) => Found(PlainGet(m, o))
    case Prefetch(_) => Silent
    case Uncache(_) => Silent
    case Flush(_) => Silent
  }

  /** A raw add must not hide a coin of the base that was never cached; every other operation is unconditional. */
  predicate Safe(s: State, op: Op) {
    op.Add? ==> op.o in s.cache || Lookup(s.base, op.o) == None
  }

  lemma FetchIntoEffect(base: Store, cache: Cache, o: OutPoint)
    requires Coherent(base, cache)
    ensures Coherent(base, FetchInto(base, cache, o))
    ensures View(base, FetchInto(base, cache, o)) == View(base, cache)
    ensures o in FetchInto(base, cache, o) || Lookup(base, o) == None
    ensures ViewAt(base, FetchInto(base, cache, o), o) == ViewAt(base, cache, o)
  {
    if Lookup(base, o).Some? {
      InsertCleanEffect(base, cache, o, Lookup(base, o).value);
    }
  }

  lemma PrefetchIntoEffect(base: Store, cache: Cache, os: seq<OutPoint>)
    requires Coherent(base, cache)
    ensures Coherent(base, PrefetchInto(base, cache, os))
    ensures View(base, PrefetchInto(base, cache, os)) == View(base, cache)
  {
    var found := ReadAll(base, Misses(cache, os));
    ReadAllCurrent(base, Misses(cache, os));
    InsertAllEffect(base, cache, found);
  }

  /** An add that is safe behaves like an add to the plain map, panics included. */
  lemma AddIsPlain(base: Store, cache: Cache, o: OutPoint, coin: Coin, possibleOverwrite: bool)
    requires Coherent(base, cache) && (o in cache || Lookup(base, o) == None)
    ensures Coherent(base, AddStep(cache, o, coin, possibleOverwrite))
    ensures View(base, AddStep(cache, o, coin, possibleOverwrite))
         == PlainAdd(View(base, cache), o, coin, possibleOverwrite)
    ensures AddOutcome(cache, o, coin, possibleOverwrite)
         == PlainAddOutcome(View(base, cache), o, coin, possibleOverwrite)
  {
    AddEffect(base, cache, o, coin, possibleOverwrite);
    ViewLookup(base, cache, o);
  }

  lemma CheckedAddIsPlain(base: Store, cache: Cache, o: OutPoint, coin: Coin)
    requires Coherent(base, cache)
    ensures var fetched := FetchInto(base, cache, o);
            var overwrite := ViewAt(base, cache, o).Some?;
            && Coherent(base, AddStep(fetched, o, coin, overwrite))
            && View(base, AddStep(fetched, o, coin, overwrite)) == PlainAdd(View(base, cache), o, coin, true)
            && AddOutcome(fetched, o, coin, overwrite) == PlainAddOutcome(View(base, cache), o, coin, true)
  {
    FetchIntoEffect(base, cache, o);
    AddIsPlain(base, FetchInto(base, cache, o), o, coin, ViewAt(base, cache, o).Some?);
    ViewLookup(base, cache, o);
  }

  /** One operation of the cache is one operation of the plain map. */
  lemma StepIsPlain(s: State, op: Op)
    requires Coherent(s.base, s.cache) && Safe(s, op)
    ensures Coherent(Apply(s, op).base, Apply(s, op).cache)
    ensures View(Apply(s, op).base, Apply(s, op).cache) == PlainApply(View(s.base, s.cache), op)
    ensures Observe(s, op) == PlainObserve(View(s.base, s.cache), op)
  {
    match op
    case Fetch(o) =>
      FetchIntoEffect(s.base, s.cache, o);
      ViewLookup(s.base, s.cache, o);
    case Prefetch(os) => PrefetchIntoEffect(s.base, s.cache, os);
    case Add(o, coin, possibleOverwrite) => AddIsPlain(s.base, s.cache, o, coin, possibleOverwrite);
    case AddChecked(o, coin) => CheckedAddIsPlain(s.base, s.cache, o, coin);
    case Spend(o) =>
      FetchIntoEffect(s.base, s.cache, o);
      SpendEffect(s.base, FetchInto(s.base, s.cache, o), o);
      ViewLookup(s.base, s.cache, o);
    case Uncache(o) => UncacheEffect(s.base, s.cache, o);
    case Flush(keep) => FlushEffect(s.base, s.cache, keep);
  }

  ghost predicate SafeRun(s: State, ops: seq<Op>)
    decreases |ops|
  {
    ops == [] || (Safe(s, ops[0]) && SafeRun(Apply(s, ops[0]), ops[1..]))
  }

  ghost function Run(s: State, ops: seq<Op>): (State, seq<Observation>)
    decreases |ops|
  {
    if ops == [] then (s, [])
    else
      var (end, seen) := Run(Apply(s, ops[0]), ops[1..]);
      (end, [Observe(s, ops[0])] + seen)
  }

  ghost function PlainRun(m: Store, ops: seq<Op>): (Store, seq<Observation>)
    decreases |ops|
  {
    if ops == [] then (m, [])
    else
      var (end, seen) := PlainRun(PlainApply(m, ops[0]), ops[1..]);
      (end, [PlainObserve(m, ops[0])] + seen)
  }

  /** Over every run the cached view, everything it returns, and what it writes back are those of a plain map. */
  lemma {:induction false} RunIsPlain(s: State, ops: seq<Op>)
    requires Coherent(s.base, s.cache) && SafeRun(s, ops)
    ensures var (end, seen) := Run(s, ops);
            var (plainEnd, plainSeen) := PlainRun(View(s.base, s.cache), ops);
            seen == plainSeen && Coherent(end.base, end.cache) && View(end.base, end.cache) == plainEnd
    decreases |ops|
  {
    if ops != [] {
      StepIsPlain(s, ops[0]);
      RunIsPlain(Apply(s, ops[0]), ops[1..]);
    }
  }

  /** Without raw adds no condition is left. */
  lemma {:induction false} CheckedRunIsSafe(s: State, ops: seq<Op>)
    requires Coherent(s.base, s.cache) && forall i :: 0 <= i < |ops| ==> !ops[i].Add?
    ensures SafeRun(s, ops)
    decreases |ops|
  {
    if ops != [] {
      StepIsPlain(s, ops[0]);
      CheckedRunIsSafe(Apply(s, ops[0]), ops[1..]);
    }
  }

  /** The unsafe case is real: adding over an uncached coin of the base and spending the result brings the old coin
      back. */
  lemma UnsafeAddResurrects(o: OutPoint, earlier: Coin, coin: Coin)
    requires !IsSpent(earlier) && !IsSpent(coin) && !IsUnspendable(coin.txOut.scriptPubkey)
    ensures var s := State(map[o := earlier], map[]);
            var end := Apply(Apply(s, Add(o, coin, true)), Spend(o));
            && Coherent(s.base, s.cache) && !Safe(s, Add(o, coin, true))
            && o !in PlainApply(PlainApply(View(s.base, s.cache), Add(o, coin, true)), Spend(o))
            && ViewAt(end.base, end.cache, o) == Some(earlier)
  {
    var s := State(map[o := earlier], map[]);
    var added := Apply(s, Add(o, coin, true));
    assert added.cache == map[o := Entry(coin, true, true)];
    assert SpendStep(added.cache, o) == map[];
  }

  // ---------------------------------------------------------------------
  // Threads: the base read and the cache insert of a fetch are separate steps, and so are check and add
  // ---------------------------------------------------------------------

  /** A thread between its critical sections. Readers have missed, or have read the base; a thread that checks before it
      adds then also waits to add, with the overwrite flag that the check found. */
  datatype Pending =
    | Missed(os: seq<OutPoint>)
    | Loaded(found: seq<(OutPoint, Coin)>)
    | CheckMissed(o: OutPoint, coin: Coin)
    | CheckLoaded(o: OutPoint, coin: Coin, existing: Coin)
    | Checked(o: OutPoint, coin: Coin, overwrite: bool)

  datatype System = System(base: Store, cache: Cache, pending: map<nat, Pending>)

  datatype Step =
    | BeginRead(t: nat, os: seq<OutPoint>)
    | BeginCheck(t: nat, o: OutPoint, coin: Coin)
    | ReadBase(t: nat)
    | InsertRead(t: nat)
    | AddAfterCheck(t: nat)
    | AtomicAdd(o: OutPoint, coin: Coin, possibleOverwrite: bool)
    | AtomicSpend(o: OutPoint)
    | AtomicUncache(o: OutPoint)
    | AtomicFlush(keep: set<OutPoint>)

  function Misses(cache: Cache, os: seq<OutPoint>): seq<OutPoint> {
    if os == [] then []
    else if os[0] in cache then Misses(cache, os[1..])
    else [os[0]] + Misses(cache, os[1..])
  }

  function ReadAll(base: Store, os: seq<OutPoint>): seq<(OutPoint, Coin)> {
    if os == [] then []
    else match Lookup(base, os[0])
      case None => ReadAll(base, os[1..])
      case Some(coin) => [(os[0], coin)] + ReadAll(base, os[1..])
  }

  function InsertAll(cache: Cache, found: seq<(OutPoint, Coin)>): Cache
    decreases |found|
  {
    if found == [] then cache
    else InsertAll(InsertClean(cache, found[0].0, found[0].1), found[1..])
  }

  /** What a thread holds after reading the base. */
  function AfterBaseRead(base: Store, p: Pending): Pending {
    match p
    case Missed(os) => Loaded(ReadAll(base, os))
    case CheckMissed(o, coin) =>
      (match Lookup(base, o)
       case None => Checked(o, coin, false)
       case Some(existing) => CheckLoaded(o, coin, existing))
    case _ => p
  }

  ghost function Next(sys: System, step: Step): System {
    match step
    case BeginRead(t, os) =>
      if t in sys.pending then sys else sys.(pending := sys.pending[t := Missed(Misses(sys.cache, os))])
    case BeginCheck(t, o, coin) =>
      if t in sys.pending then sys
      else if o in sys.cache then sys.(pending := sys.pending[t := Checked(o, coin, !IsSpent(sys.cache[o].coin))])
      else sys.(pending := sys.pending[t := CheckMissed(o, coin)])
    case ReadBase(t) =>
      if t in sys.pending then sys.(pending := sys.pending[t := AfterBaseRead(sys.base, sys.pending[t])]) else sys
    case InsertRead(t) =>
      if t !in sys.pending then sys
      else
        (match sys.pending[t]
         case Loaded(found) => sys.(cache := InsertAll(sys.cache, found), pending := sys.pending - {t})
         case CheckLoaded(o, coin, existing) =>
           sys.(cache := InsertClean(sys.cache, o, existing), pending := sys.pending[t := Checked(o, coin, true)])
         case _ => sys)
    case AddAfterCheck(t) =>
      if t in sys.pending && sys.pending[t].Checked? then
        var Checked(o, coin, overwrite) := sys.pending[t];
        sys.(cache := AddStep(sys.cache, o, coin, overwrite), pending := sys.pending - {t})
      else sys
    case AtomicAdd(o, coin, possibleOverwrite) => sys.(cache := AddStep(sys.cache, o, coin, possibleOverwrite))
    case AtomicSpend(o) => sys.(cache := SpendStep(sys.cache, o))
    case AtomicUncache(o) => sys.(cache := UncacheStep(sys.cache, o))
    case AtomicFlush(keep) =>
      sys.(base := Flushed(sys.base, sys.cache), cache := Retained(sys.cache, keep))
  }

  /** A coin that an add will store rather than refuse or skip. */
  predicate CanStore(coin: Coin) {
    !IsSpent(coin) && !IsUnspendable(coin.txOut.scriptPubkey)
  }

  /** Thread `t` has checked `o` and will store its coin there. */
  ghost predicate Waits(pending: map<nat, Pending>, t: nat, o: OutPoint) {
    t in pending && pending[t].Checked? && pending[t].o == o && CanStore(pending[t].coin)
  }

  /** A thread waits to overwrite what is cached at `o`: until it has, uncaching `o` would make its add unsafe. */
  ghost predicate Held(pending: map<nat, Pending>, o: OutPoint) {
    exists t :: Waits(pending, t, o) && pending[t].overwrite
  }

  /** The entry at `o` stays cached until the next flush: spends keep it, and uncaching it is ruled out. */
  ghost predicate Shielded(cache: Cache, pending: map<nat, Pending>, o: OutPoint) {
    o in cache && !cache[o].isFresh && (cache[o].isDirty || Held(pending, o))
  }

  /** A coin that was read is what the base still holds, or will find its place taken. */
  ghost predicate ReadOk(base: Store, cache: Cache, pending: map<nat, Pending>, o: OutPoint, coin: Coin) {
    Lookup(base, o) == Some(coin) || Shielded(cache, pending, o)
  }

  /** One unspent coin for each outpoint, as a single read of the base gives. */
  ghost predicate OneCoinEach(found: seq<(OutPoint, Coin)>) {
    && (forall i :: 0 <= i < |found| ==> !IsSpent(found[i].1))
    && forall i, j :: 0 <= i < |found| && 0 <= j < |found| && found[i].0 == found[j].0 ==> found[i].1 == found[j].1
  }

  ghost predicate AllReadOk(base: Store, cache: Cache, pending: map<nat, Pending>, found: seq<(OutPoint, Coin)>) {
    forall i :: 0 <= i < |found| ==> ReadOk(base, cache, pending, found[i].0, found[i].1)
  }

  /** What a thread holds can do no harm: reads are current or find their place taken, and an add that was checked and
      will store its coin is still safe. */
  ghost predicate PendingOk(base: Store, cache: Cache, pending: map<nat, Pending>, p: Pending) {
    match p
    case Loaded(found) => OneCoinEach(found) && AllReadOk(base, cache, pending, found)
    case CheckLoaded(o, _, existing) => !IsSpent(existing) && ReadOk(base, cache, pending, o, existing)
    case Checked(o, coin, _) => CanStore(coin) ==> o in cache || Lookup(base, o) == None
    case _ => true
  }

  ghost predicate Consistent(sys: System) {
    && Coherent(sys.base, sys.cache)
    && forall t :: t in sys.pending ==> PendingOk(sys.base, sys.cache, sys.pending, sys.pending[t])
  }

  /** A coin that was read may stay behind over a flush: it is the one shown, or its place stays taken. */
  ghost predicate ReadSurvives(sys: System, keep: set<OutPoint>, o: OutPoint, coin: Coin) {
    || ViewAt(sys.base, sys.cache, o) == Some(coin)
    || (o in Retained(sys.cache, keep) && Held(sys.pending, o))
  }

  /** What a flush must leave true for a thread; an outpoint checked for an add that will store its coin must stay
      cached or show no coin. */
  ghost predicate FlushLeaves(sys: System, keep: set<OutPoint>, p: Pending) {
    match p
    case Loaded(found) => forall i :: 0 <= i < |found| ==> ReadSurvives(sys, keep, found[i].0, found[i].1)
    case CheckLoaded(o, _, existing) => ReadSurvives(sys, keep, o, existing)
    case Checked(o, coin, _) =>
      CanStore(coin) ==> o in Retained(sys.cache, keep) || ViewAt(sys.base, sys.cache, o) == None
    case _ => true
  }

  /** A thread has checked `o` and will store its coin there. */
  ghost predicate Awaited(pending: map<nat, Pending>, o: OutPoint) {
    exists t :: Waits(pending, t, o)
  }

  /** The steps that can do no harm: all but a flush that makes a read or a check stale, a raw add over an uncached coin
      of the base, and uncaching a clean entry that a thread has checked. */
  ghost predicate Enabled(sys: System, step: Step) {
    match step
    case AtomicFlush(keep) => forall t :: t in sys.pending ==> FlushLeaves(sys, keep, sys.pending[t])
    case AtomicAdd(o, coin, possibleOverwrite) =>
      AddOutcome(sys.cache, o, coin, possibleOverwrite) != Added || o in sys.cache || Lookup(sys.base, o) == None
    case AtomicUncache(o) => Awaited(sys.pending, o) ==> o !in sys.cache || sys.cache[o].isDirty
    case _ => true
  }

  /** The effect of a step on the plain map. Only adds and spends that find their coin cached have one. */
  ghost function PlainNext(sys: System, m: Store, step: Step): Store {
    match step
    case AddAfterCheck(t) =>
      if t in sys.pending && sys.pending[t].Checked?
      then PlainAdd(m, sys.pending[t].o, sys.pending[t].coin, sys.pending[t].overwrite) else m
    case AtomicAdd(o, coin, possibleOverwrite) => PlainAdd(m, o, coin, possibleOverwrite)
    case AtomicSpend(o) => if o in sys.cache then m - {o} else m
    case _ => m
  }

  /** What a reader has loaded is what the base holds. */
  ghost predicate Current(base: Store, found: seq<(OutPoint, Coin)>) {
    forall i :: 0 <= i < |found| ==> Lookup(base, found[i].0) == Some(found[i].1)
  }

  lemma {:induction false} ReadAllCurrent(base: Store, os: seq<OutPoint>)
    ensures Current(base, ReadAll(base, os))
  {
    if os != [] {
      ReadAllCurrent(base, os[1..]);
    }
  }

  /** Inserting coins that are current, or whose place is taken, keeps coherence and the view. */
  lemma {:induction false} InsertAllEffect(base: Store, cache: Cache, found: seq<(OutPoint, Coin)>)
    requires Coherent(base, cache)
    requires forall i :: 0 <= i < |found| ==> found[i].0 in cache || Lookup(base, found[i].0) == Some(found[i].1)
    ensures Coherent(base, InsertAll(cache, found)) && View(base, InsertAll(cache, found)) == View(base, cache)
    ensures Grows(cache, InsertAll(cache, found))
    decreases |found|
  {
    if found != [] {
      var next := InsertClean(cache, found[0].0, found[0].1);
      assert found[0].0 in cache || Lookup(base, found[0].0) == Some(found[0].1);
      InsertCleanEffect(base, cache, found[0].0, found[0].1);
      InsertAllEffect(base, next, found[1..]);
    }
  }

  /** More is cached, and what was cached is as it was. */
  ghost predicate Grows(cache: Cache, cache': Cache) {
    forall o :: o in cache ==> o in cache' && cache'[o] == cache[o]
  }

  /** Entries may also be replaced by dirty ones that are not FRESH, as adds and spends do. */
  ghost predicate Holds(cache: Cache, cache': Cache) {
    forall o :: o in cache && !cache[o].isFresh ==> StillHeld(cache, cache', o)
  }

  ghost predicate StillHeld(cache: Cache, cache': Cache, o: OutPoint)
    requires o in cache
  {
    o in cache' && !cache'[o].isFresh && (cache'[o].isDirty || cache'[o] == cache[o])
  }

  /** All waiting adds are still waiting, or have left a dirty entry that is not FRESH. */
  ghost predicate HoldersKept(cache: Cache, pending: map<nat, Pending>, cache': Cache, pending': map<nat, Pending>) {
    forall o :: o in cache && Held(pending, o) ==>
      Held(pending', o) || (o in cache' ==> cache'[o].isDirty && !cache'[o].isFresh)
  }

  lemma ReadOkSurvives(
      base: Store, cache: Cache, pending: map<nat, Pending>, cache': Cache, pending': map<nat, Pending>,
      o: OutPoint, coin: Coin)
    requires ReadOk(base, cache, pending, o, coin)
    requires Holds(cache, cache') && HoldersKept(cache, pending, cache', pending')
    ensures ReadOk(base, cache', pending', o, coin)
  {
    if Shielded(cache, pending, o) {
      assert StillHeld(cache, cache', o);
    }
  }

  /** A thread that was right stays right while shields hold and no checked outpoint loses its entry. */
  lemma PendingSurvives(
      base: Store, cache: Cache, pending: map<nat, Pending>, cache': Cache, pending': map<nat, Pending>, p: Pending)
    requires PendingOk(base, cache, pending, p) && Holds(cache, cache') && HoldersKept(cache, pending, cache', pending')
    requires p.Checked? && CanStore(p.coin) && p.o in cache ==> p.o in cache' || Lookup(base, p.o) == None
    ensures PendingOk(base, cache', pending', p)
  {
    match p
    case Loaded(found) =>
      forall i | 0 <= i < |found| ensures ReadOk(base, cache', pending', found[i].0, found[i].1) {
        assert ReadOk(base, cache, pending, found[i].0, found[i].1);
        ReadOkSurvives(base, cache, pending, cache', pending', found[i].0, found[i].1);
      }
    case CheckLoaded(o, _, existing) => ReadOkSurvives(base, cache, pending, cache', pending', o, existing);
    case _ =>
  }

  lemma OthersSurvive(sys: System, cache': Cache, pending': map<nat, Pending>)
    requires Consistent(sys) && Holds(sys.cache, cache') && HoldersKept(sys.cache, sys.pending, cache', pending')
    requires forall o :: o in sys.cache ==> o in cache' || Lookup(sys.base, o) == None
    ensures forall t :: t in sys.pending ==> PendingOk(sys.base, cache', pending', sys.pending[t])
  {
    forall t | t in sys.pending ensures PendingOk(sys.base, cache', pending', sys.pending[t]) {
      PendingSurvives(sys.base, sys.cache, sys.pending, cache', pending', sys.pending[t]);
    }
  }

  lemma AddHolds(base: Store, cache: Cache, o: OutPoint, coin: Coin, possibleOverwrite: bool)
    requires Coherent(base, cache)
    ensures Holds(cache, AddStep(cache, o, coin, possibleOverwrite))
    ensures cache.Keys <= AddStep(cache, o, coin, possibleOverwrite).Keys
    ensures o in cache && AddOutcome(cache, o, coin, possibleOverwrite) == Added ==>
              var e := AddStep(cache, o, coin, possibleOverwrite)[o]; e.isDirty && !e.isFresh
  {
    assert o in cache ==> EntryOk(base, o, cache[o]);
    var cache' := AddStep(cache, o, coin, possibleOverwrite);
    forall x | x in cache && !cache[x].isFresh ensures StillHeld(cache, cache', x) {
    }
  }

  /** For a flush the condition is exactly what keeps the system consistent. */
  lemma FlushKeepsConsistentIff(sys: System, keep: set<OutPoint>)
    requires Consistent(sys)
    ensures Consistent(Next(sys, AtomicFlush(keep))) <==> Enabled(sys, AtomicFlush(keep))
  {
    var base', cache' := Flushed(sys.base, sys.cache), Retained(sys.cache, keep);
    FlushEffect(sys.base, sys.cache, keep);
    forall t | t in sys.pending
      ensures PendingOk(base', cache', sys.pending, sys.pending[t]) <==> FlushLeaves(sys, keep, sys.pending[t])
    {
      var p := sys.pending[t];
      assert PendingOk(sys.base, sys.cache, sys.pending, p);
      match p
      case Loaded(found) =>
        forall i | 0 <= i < |found|
          ensures ReadOk(base', cache', sys.pending, found[i].0, found[i].1) <==>
                  ReadSurvives(sys, keep, found[i].0, found[i].1)
        {
          ReadAfterFlush(sys, keep, found[i].0, found[i].1);
        }
      case CheckLoaded(o, _, existing) => ReadAfterFlush(sys, keep, o, existing);
      case Checked(o, _, _) => FlushedLookup(sys.base, sys.cache, o);
      case _ =>
    }
  }

  lemma ReadAfterFlush(sys: System, keep: set<OutPoint>, o: OutPoint, coin: Coin)
    requires Consistent(sys)
    ensures ReadOk(Flushed(sys.base, sys.cache), Retained(sys.cache, keep), sys.pending, o, coin) <==>
            ReadSurvives(sys, keep, o, coin)
  {
    FlushedLookup(sys.base, sys.cache, o);
  }

  lemma UncacheKeepsConsistentIff(sys: System, o: OutPoint)
    requires Consistent(sys)
    ensures Consistent(Next(sys, AtomicUncache(o))) <==> Enabled(sys, AtomicUncache(o))
  {
    UncacheEffect(sys.base, sys.cache, o);
    var cache' := UncacheStep(sys.cache, o);
    assert o in sys.cache ==> EntryOk(sys.base, o, sys.cache[o]);
    if o !in sys.cache || sys.cache[o].isDirty {
      assert cache' == sys.cache;
    } else if Awaited(sys.pending, o) {
      var t :| Waits(sys.pending, t, o);
      assert !PendingOk(sys.base, cache', sys.pending, sys.pending[t]);
    } else {
      forall t | t in sys.pending ensures PendingOk(sys.base, cache', sys.pending, sys.pending[t]) {
        assert !Waits(sys.pending, t, o);
        UncacheLeaves(sys, o, sys.pending[t]);
      }
    }
  }

  lemma UncacheLeaves(sys: System, o: OutPoint, p: Pending)
    requires o in sys.cache && !sys.cache[o].isDirty && !Awaited(sys.pending, o)
    requires PendingOk(sys.base, sys.cache, sys.pending, p) && (p.Checked? && CanStore(p.coin) ==> p.o != o)
    ensures PendingOk(sys.base, sys.cache - {o}, sys.pending, p)
  {
    assert !Held(sys.pending, o);
    match p
    case Loaded(found) =>
      forall i | 0 <= i < |found| ensures ReadOk(sys.base, sys.cache - {o}, sys.pending, found[i].0, found[i].1) {
        assert ReadOk(sys.base, sys.cache, sys.pending, found[i].0, found[i].1);
      }
    case _ =>
  }

  lemma SpendKeepsConsistent(sys: System, o: OutPoint)
    requires Consistent(sys)
    ensures Consistent(Next(sys, AtomicSpend(o)))
  {
    SpendEffect(sys.base, sys.cache, o);
    assert o in sys.cache ==> EntryOk(sys.base, o, sys.cache[o]);
    var cache' := SpendStep(sys.cache, o);
    forall x | x in sys.cache && !sys.cache[x].isFresh ensures StillHeld(sys.cache, cache', x) {
    }
    OthersSurvive(sys, cache', sys.pending);
  }

  lemma AddKeepsConsistentIff(sys: System, o: OutPoint, coin: Coin, possibleOverwrite: bool)
    requires Consistent(sys)
    ensures Consistent(Next(sys, AtomicAdd(o, coin, possibleOverwrite))) <==>
            Enabled(sys, AtomicAdd(o, coin, possibleOverwrite))
  {
    AddEffect(sys.base, sys.cache, o, coin, possibleOverwrite);
    AddHolds(sys.base, sys.cache, o, coin, possibleOverwrite);
    OthersSurvive(sys, AddStep(sys.cache, o, coin, possibleOverwrite), sys.pending);
  }

  /** Threads that begin or read the base: only their own record changes. */
  lemma RecordChangeKeepsConsistent(sys: System, t: nat, p: Pending)
    requires Consistent(sys) && (t in sys.pending ==> !sys.pending[t].Checked?)
    requires PendingOk(sys.base, sys.cache, sys.pending, p)
    ensures Consistent(sys.(pending := sys.pending[t := p]))
  {
    var pending' := sys.pending[t := p];
    forall o | Held(sys.pending, o) ensures Held(pending', o) {
      var u :| Waits(sys.pending, u, o) && sys.pending[u].overwrite;
      assert Waits(pending', u, o) && pending'[u] == sys.pending[u];
    }
    OthersSurvive(sys, sys.cache, pending');
    PendingSurvives(sys.base, sys.cache, sys.pending, sys.cache, pending', p);
  }

  lemma ReadBaseKeepsConsistent(sys: System, t: nat)
    requires Consistent(sys)
    ensures Consistent(Next(sys, ReadBase(t)))
  {
    if t in sys.pending {
      var p := sys.pending[t];
      assert PendingOk(sys.base, sys.cache, sys.pending, p);
      if p.Missed? {
        ReadAllCurrent(sys.base, p.os);
      }
      if p.Checked? {
        assert sys.pending[t := AfterBaseRead(sys.base, p)] == sys.pending;
      } else {
        RecordChangeKeepsConsistent(sys, t, AfterBaseRead(sys.base, p));
      }
    }
  }

  lemma InsertLoadedKeepsConsistent(sys: System, t: nat)
    requires Consistent(sys) && t in sys.pending && sys.pending[t].Loaded?
    ensures Consistent(Next(sys, InsertRead(t)))
    ensures View(sys.base, Next(sys, InsertRead(t)).cache) == View(sys.base, sys.cache)
  {
    var found := sys.pending[t].found;
    assert PendingOk(sys.base, sys.cache, sys.pending, sys.pending[t]);
    forall i | 0 <= i < |found| ensures found[i].0 in sys.cache || Lookup(sys.base, found[i].0) == Some(found[i].1) {
      assert ReadOk(sys.base, sys.cache, sys.pending, found[i].0, found[i].1);
    }
    InsertAllEffect(sys.base, sys.cache, found);
    var cache', pending' := InsertAll(sys.cache, found), sys.pending - {t};
    GrowthHolds(sys.cache, cache');
    HoldersStay(sys.cache, sys.pending, t, cache', pending');
    OthersSurvive(sys, cache', pending');
  }

  lemma GrowthHolds(cache: Cache, cache': Cache)
    requires Grows(cache, cache')
    ensures Holds(cache, cache') && cache.Keys <= cache'.Keys
  {
    forall o | o in cache && !cache[o].isFresh ensures StillHeld(cache, cache', o) {
    }
  }

  /** Removing or replacing a record that holds nothing loses no holder. */
  lemma HoldersStay(
      cache: Cache, pending: map<nat, Pending>, t: nat, cache': Cache, pending': map<nat, Pending>)
    requires t in pending && !pending[t].Checked?
    requires forall u :: u in pending && u != t ==> u in pending' && pending'[u] == pending[u]
    ensures HoldersKept(cache, pending, cache', pending')
  {
    forall o | Held(pending, o) ensures Held(pending', o) {
      var u :| Waits(pending, u, o) && pending[u].overwrite;
      assert Waits(pending', u, o) && pending'[u] == pending[u];
    }
  }

  lemma InsertCheckedKeepsConsistent(sys: System, t: nat)
    requires Consistent(sys) && t in sys.pending && sys.pending[t].CheckLoaded?
    ensures Consistent(Next(sys, InsertRead(t)))
    ensures View(sys.base, Next(sys, InsertRead(t)).cache) == View(sys.base, sys.cache)
  {
    var CheckLoaded(o, coin, existing) := sys.pending[t];
    assert PendingOk(sys.base, sys.cache, sys.pending, sys.pending[t]);
    InsertCleanEffect(sys.base, sys.cache, o, existing);
    var cache', pending' := InsertClean(sys.cache, o, existing), sys.pending[t := Checked(o, coin, true)];
    GrowthHolds(sys.cache, cache');
    HoldersStay(sys.cache, sys.pending, t, cache', pending');
    OthersSurvive(sys, cache', pending');
  }

  lemma AddAfterCheckKeepsConsistent(sys: System, t: nat)
    requires Consistent(sys) && t in sys.pending && sys.pending[t].Checked?
    ensures var p := sys.pending[t];
            && Consistent(Next(sys, AddAfterCheck(t)))
            && View(sys.base, AddStep(sys.cache, p.o, p.coin, p.overwrite))
               == PlainAdd(View(sys.base, sys.cache), p.o, p.coin, p.overwrite)
  {
    var Checked(o, coin, overwrite) := sys.pending[t];
    assert PendingOk(sys.base, sys.cache, sys.pending, sys.pending[t]);
    EnabledAddIsPlain(sys, o, coin, overwrite);
    AddEffect(sys.base, sys.cache, o, coin, overwrite);
    AddHolds(sys.base, sys.cache, o, coin, overwrite);
    var cache', pending' := AddStep(sys.cache, o, coin, overwrite), sys.pending - {t};
    forall x | x in sys.cache && Held(sys.pending, x)
      ensures Held(pending', x) || (x in cache' ==> cache'[x].isDirty && !cache'[x].isFresh)
    {
      HolderDone(sys, t, x);
    }
    OthersSurvive(sys, cache', pending');
  }

  /** A waiting add that runs leaves a dirty entry that is not FRESH. */
  lemma HolderDone(sys: System, t: nat, x: OutPoint)
    requires Consistent(sys) && t in sys.pending && sys.pending[t].Checked? && Held(sys.pending, x)
    ensures var p := sys.pending[t];
            var cache' := AddStep(sys.cache, p.o, p.coin, p.overwrite);
            Held(sys.pending - {t}, x) || (x in sys.cache && x in cache' ==> cache'[x].isDirty && !cache'[x].isFresh)
  {
    var p := sys.pending[t];
    var u :| Waits(sys.pending, u, x) && sys.pending[u].overwrite;
    AddHolds(sys.base, sys.cache, p.o, p.coin, p.overwrite);
    if u != t {
      assert Waits(sys.pending - {t}, u, x) && (sys.pending - {t})[u] == sys.pending[u];
    }
  }

  lemma ThreadKeepsConsistent(sys: System, step: Step)
    requires Consistent(sys) && (step.ReadBase? || step.InsertRead? || step.AddAfterCheck?)
    ensures Consistent(Next(sys, step))
    ensures View(Next(sys, step).base, Next(sys, step).cache) == PlainNext(sys, View(sys.base, sys.cache), step)
  {
    match step
    case ReadBase(t) => ReadBaseKeepsConsistent(sys, t);
    case InsertRead(t) =>
      if t in sys.pending && sys.pending[t].Loaded? {
        InsertLoadedKeepsConsistent(sys, t);
      } else if t in sys.pending && sys.pending[t].CheckLoaded? {
        InsertCheckedKeepsConsistent(sys, t);
      }
    case AddAfterCheck(t) =>
      if t in sys.pending && sys.pending[t].Checked? {
        AddAfterCheckKeepsConsistent(sys, t);
      }
  }

  lemma BeginKeepsConsistent(sys: System, step: Step)
    requires Consistent(sys) && (step.BeginRead? || step.BeginCheck?)
    ensures Consistent(Next(sys, step))
  {
    if step.t !in sys.pending {
      match step
      case BeginRead(t, os) => RecordChangeKeepsConsistent(sys, t, Missed(Misses(sys.cache, os)));
      case BeginCheck(t, o, coin) =>
        var p := if o in sys.cache then Checked(o, coin, !IsSpent(sys.cache[o].coin)) else CheckMissed(o, coin);
        RecordChangeKeepsConsistent(sys, t, p);
    }
  }

  /** A step keeps the system consistent if and only if it is enabled. An add after its check always is. */
  lemma StepKeepsConsistentIff(sys: System, step: Step)
    requires Consistent(sys)
    ensures Consistent(Next(sys, step)) <==> Enabled(sys, step)
  {
    match step
    case BeginRead(_, _) => BeginKeepsConsistent(sys, step);
    case BeginCheck(_, _, _) => BeginKeepsConsistent(sys, step);
    case AtomicAdd(o, coin, possibleOverwrite) => AddKeepsConsistentIff(sys, o, coin, possibleOverwrite);
    case AtomicSpend(o) => SpendKeepsConsistent(sys, o);
    case AtomicUncache(o) => UncacheKeepsConsistentIff(sys, o);
    case AtomicFlush(keep) => FlushKeepsConsistentIff(sys, keep);
    case ReadBase(_) => ThreadKeepsConsistent(sys, step);
    case InsertRead(_) => ThreadKeepsConsistent(sys, step);
    case AddAfterCheck(_) => ThreadKeepsConsistent(sys, step);
  }

  /** Every enabled step keeps the cache coherent with the base and has its effect on the plain map. */
  lemma InterleavedStep(sys: System, step: Step)
    requires Consistent(sys) && Enabled(sys, step)
    ensures Consistent(Next(sys, step))
    ensures View(Next(sys, step).base, Next(sys, step).cache) == PlainNext(sys, View(sys.base, sys.cache), step)
  {
    StepKeepsConsistentIff(sys, step);
    match step
    case BeginRead(_, _) =>
    case BeginCheck(_, _, _) =>
    case AtomicAdd(o, coin, possibleOverwrite) => EnabledAddIsPlain(sys, o, coin, possibleOverwrite);
    case AtomicSpend(o) => SpendEffect(sys.base, sys.cache, o);
    case AtomicUncache(o) => UncacheEffect(sys.base, sys.cache, o);
    case AtomicFlush(keep) => FlushEffect(sys.base, sys.cache, keep);
    case ReadBase(_) => ThreadKeepsConsistent(sys, step);
    case InsertRead(_) => ThreadKeepsConsistent(sys, step);
    case AddAfterCheck(_) => ThreadKeepsConsistent(sys, step);
  }

  lemma EnabledAddIsPlain(sys: System, o: OutPoint, coin: Coin, possibleOverwrite: bool)
    requires Consistent(sys) && Enabled(sys, AtomicAdd(o, coin, possibleOverwrite))
    ensures View(sys.base, AddStep(sys.cache, o, coin, possibleOverwrite))
         == PlainAdd(View(sys.base, sys.cache), o, coin, possibleOverwrite)
  {
    if o in sys.cache || Lookup(sys.base, o) == None {
      AddIsPlain(sys.base, sys.cache, o, coin, possibleOverwrite);
    }
  }

  ghost predicate EnabledTrace(sys: System, steps: seq<Step>)
    decreases |steps|
  {
    steps == [] || (Enabled(sys, steps[0]) && EnabledTrace(Next(sys, steps[0]), steps[1..]))
  }

  ghost function Trace(sys: System, steps: seq<Step>): System
    decreases |steps|
  {
    if steps == [] then sys else Trace(Next(sys, steps[0]), steps[1..])
  }

  ghost function PlainTrace(sys: System, m: Store, steps: seq<Step>): Store
    decreases |steps|
  {
    if steps == [] then m else PlainTrace(Next(sys, steps[0]), PlainNext(sys, m, steps[0]), steps[1..])
  }

  /** Safety over every interleaving of any number of readers and checked adds with adds, spends, uncaching and
      flushes, as long as each step is enabled. */
  lemma {:induction false} EveryInterleavingIsCoherent(sys: System, steps: seq<Step>)
    requires Consistent(sys) && EnabledTrace(sys, steps)
    ensures Consistent(Trace(sys, steps))
    ensures View(Trace(sys, steps).base, Trace(sys, steps).cache) == PlainTrace(sys, View(sys.base, sys.cache), steps)
    decreases |steps|
  {
    if steps != [] {
      InterleavedStep(sys, steps[0]);
      EveryInterleavingIsCoherent(Next(sys, steps[0]), steps[1..]);
    }
  }

  // ---------------------------------------------------------------------
  // A step that is not enabled does harm
  // ---------------------------------------------------------------------

  /** No enabled continuation breaks the cache. */
  ghost predicate Harmless(sys: System) {
    forall more :: EnabledTrace(sys, more) ==> Coherent(Trace(sys, more).base, Trace(sys, more).cache)
  }

  lemma {:induction false} TraceSplit(sys: System, steps: seq<Step>, k: nat)
    requires k <= |steps|
    ensures Trace(sys, steps) == Trace(Trace(sys, steps[..k]), steps[k..])
    ensures EnabledTrace(sys, steps) <==>
            EnabledTrace(sys, steps[..k]) && EnabledTrace(Trace(sys, steps[..k]), steps[k..])
    decreases k
  {
    if k == 0 {
      assert steps[..0] == [] && steps[0..] == steps;
    } else {
      TraceSplit(Next(sys, steps[0]), steps[1..], k - 1);
      assert steps[..k][1..] == steps[1..][..k - 1] && steps[1..][k - 1..] == steps[k..];
    }
  }

  lemma TraceThen(sys: System, steps: seq<Step>, last: Step)
    requires EnabledTrace(sys, steps) && Enabled(Trace(sys, steps), last)
    ensures EnabledTrace(sys, steps + [last]) && Trace(sys, steps + [last]) == Next(Trace(sys, steps), last)
  {
    var all, mid := steps + [last], Trace(sys, steps);
    TraceSplit(sys, all, |steps|);
    assert all[..|steps|] == steps && all[|steps|..] == [last];
    assert [last][1..] == [] && Trace(mid, [last]) == Trace(Next(mid, last), [last][1..]);
    assert EnabledTrace(mid, [last]);
  }

  lemma TraceFirst(sys: System, first: Step, rest: seq<Step>)
    requires Enabled(sys, first) && EnabledTrace(Next(sys, first), rest)
    ensures EnabledTrace(sys, [first] + rest) && Trace(sys, [first] + rest) == Trace(Next(sys, first), rest)
  {
    assert ([first] + rest)[1..] == rest;
  }

  /** Threads that are not waiting to add are as they were. */
  ghost predicate ReadersKept(pending: map<nat, Pending>, pending': map<nat, Pending>) {
    forall t :: t in pending && !pending[t].Checked? ==> t in pending' && pending'[t] == pending[t]
  }

  /** A clean entry that no thread waits to overwrite can always be got out of the cache: adds waiting for the outpoint
      to be free find it taken and stop, and then it can be uncached. */
  lemma {:induction false} ClearEntry(sys: System, o: OutPoint) returns (more: seq<Step>)
    requires o in sys.cache ==> !sys.cache[o].isDirty && !IsSpent(sys.cache[o].coin) && !Held(sys.pending, o)
    ensures EnabledTrace(sys, more)
    ensures var end := Trace(sys, more);
            end.base == sys.base && end.cache == sys.cache - {o} && ReadersKept(sys.pending, end.pending)
    decreases |sys.pending|
  {
    if o !in sys.cache {
      more := [];
      assert sys.cache - {o} == sys.cache;
    } else if !Awaited(sys.pending, o) {
      TraceFirst(sys, AtomicUncache(o), []);
      more := [AtomicUncache(o)] + [];
    } else {
      var t :| Waits(sys.pending, t, o);
      assert !sys.pending[t].overwrite;
      BlockedAddStops(sys, t);
      NotHeldWithout(sys.pending, t, o);
      var rest := ClearEntry(sys.(pending := sys.pending - {t}), o);
      TraceFirst(sys, AddAfterCheck(t), rest);
      more := [AddAfterCheck(t)] + rest;
    }
  }

  lemma NotHeldWithout(pending: map<nat, Pending>, t: nat, o: OutPoint)
    requires !Held(pending, o)
    ensures !Held(pending - {t}, o)
  {
  }

  /** An add that expects its outpoint to be free stops at an unspent entry. */
  lemma BlockedAddStops(sys: System, t: nat)
    requires t in sys.pending && sys.pending[t].Checked? && !sys.pending[t].overwrite && CanStore(sys.pending[t].coin)
    requires sys.pending[t].o in sys.cache && !IsSpent(sys.cache[sys.pending[t].o].coin)
    ensures Next(sys, AddAfterCheck(t)) == sys.(pending := sys.pending - {t})
  {
  }

  lemma {:induction false} InsertAllGrows(cache: Cache, found: seq<(OutPoint, Coin)>)
    ensures Grows(cache, InsertAll(cache, found))
    decreases |found|
  {
    if found != [] {
      InsertAllGrows(InsertClean(cache, found[0].0, found[0].1), found[1..]);
    }
  }

  lemma {:induction false} InsertAllStores(cache: Cache, found: seq<(OutPoint, Coin)>, i: nat)
    requires OneCoinEach(found) && i < |found| && found[i].0 !in cache
    ensures found[i].0 in InsertAll(cache, found)
    ensures InsertAll(cache, found)[found[i].0] == Entry(found[i].1, false, false)
    decreases |found|
  {
    var next := InsertClean(cache, found[0].0, found[0].1);
    if found[0].0 == found[i].0 {
      assert found[0].1 == found[i].1;
      InsertAllGrows(next, found[1..]);
    } else {
      assert found[1..][i - 1] == found[i];
      InsertAllStores(next, found[1..], i - 1);
    }
  }

  /** A stale coin that a reader has loaded gets into the cache once its place is free. */
  lemma StaleReadHarms(sys: System, t: nat, i: nat) returns (more: seq<Step>)
    requires t in sys.pending && sys.pending[t].Loaded? && i < |sys.pending[t].found|
    requires OneCoinEach(sys.pending[t].found)
    requires var (o, coin) := sys.pending[t].found[i];
             && Lookup(sys.base, o) != Some(coin)
             && (o in sys.cache ==> !sys.cache[o].isDirty && !IsSpent(sys.cache[o].coin) && !Held(sys.pending, o))
    ensures EnabledTrace(sys, more) && !Coherent(Trace(sys, more).base, Trace(sys, more).cache)
  {
    var (o, coin) := sys.pending[t].found[i];
    var clear := ClearEntry(sys, o);
    var mid := Trace(sys, clear);
    InsertAllStores(mid.cache, sys.pending[t].found, i);
    TraceThen(sys, clear, InsertRead(t));
    more := clear + [InsertRead(t)];
    var end := Next(mid, InsertRead(t));
    assert !EntryOk(end.base, o, end.cache[o]);
  }

  lemma StaleCheckHarms(sys: System, t: nat) returns (more: seq<Step>)
    requires t in sys.pending && sys.pending[t].CheckLoaded? && !IsSpent(sys.pending[t].existing)
    requires var o := sys.pending[t].o;
             && Lookup(sys.base, o) != Some(sys.pending[t].existing)
             && (o in sys.cache ==> !sys.cache[o].isDirty && !IsSpent(sys.cache[o].coin) && !Held(sys.pending, o))
    ensures EnabledTrace(sys, more) && !Coherent(Trace(sys, more).base, Trace(sys, more).cache)
  {
    var o := sys.pending[t].o;
    var clear := ClearEntry(sys, o);
    var mid := Trace(sys, clear);
    TraceThen(sys, clear, InsertRead(t));
    more := clear + [InsertRead(t)];
    var end := Next(mid, InsertRead(t));
    assert o in end.cache && !EntryOk(end.base, o, end.cache[o]);
  }

  /** An add that was checked marks its coin FRESH over a coin of the base. */
  lemma UnsafeAddHarms(sys: System, t: nat) returns (more: seq<Step>)
    requires t in sys.pending && sys.pending[t].Checked? && CanStore(sys.pending[t].coin)
    requires sys.pending[t].o !in sys.cache && Lookup(sys.base, sys.pending[t].o).Some?
    ensures EnabledTrace(sys, more) && !Coherent(Trace(sys, more).base, Trace(sys, more).cache)
  {
    var o := sys.pending[t].o;
    TraceFirst(sys, AddAfterCheck(t), []);
    more := [AddAfterCheck(t)] + [];
    var end := Next(sys, AddAfterCheck(t));
    assert o in end.cache && !EntryOk(end.base, o, end.cache[o]);
  }

  lemma FlushHarms(sys: System, keep: set<OutPoint>, t: nat) returns (more: seq<Step>)
    requires Consistent(sys) && t in sys.pending && !FlushLeaves(sys, keep, sys.pending[t])
    ensures var next := Next(sys, AtomicFlush(keep));
            EnabledTrace(next, more) && !Coherent(Trace(next, more).base, Trace(next, more).cache)
  {
    var next := Next(sys, AtomicFlush(keep));
    var p := sys.pending[t];
    assert PendingOk(sys.base, sys.cache, sys.pending, p);
    match p
    case Loaded(found) =>
      var i :| 0 <= i < |found| && !ReadSurvives(sys, keep, found[i].0, found[i].1);
      FlushedLookup(sys.base, sys.cache, found[i].0);
      more := StaleReadHarms(next, t, i);
    case CheckLoaded(o, _, existing) =>
      FlushedLookup(sys.base, sys.cache, o);
      more := StaleCheckHarms(next, t);
    case Checked(o, _, _) =>
      FlushedLookup(sys.base, sys.cache, o);
      more := UnsafeAddHarms(next, t);
  }

  lemma DisabledStepHarms(sys: System, step: Step) returns (more: seq<Step>)
    requires Consistent(sys) && !Enabled(sys, step)
    ensures var next := Next(sys, step);
            EnabledTrace(next, more) && !Coherent(Trace(next, more).base, Trace(next, more).cache)
  {
    match step
    case AtomicFlush(keep) =>
      var t :| t in sys.pending && !FlushLeaves(sys, keep, sys.pending[t]);
      more := FlushHarms(sys, keep, t);
    case AtomicUncache(o) =>
      assert EntryOk(sys.base, o, sys.cache[o]);
      var t :| Waits(sys.pending, t, o);
      more := UnsafeAddHarms(Next(sys, step), t);
    case AtomicAdd(o, coin, possibleOverwrite) =>
      AddEffect(sys.base, sys.cache, o, coin, possibleOverwrite);
      more := [];
  }

  /** The condition is exact: from a consistent system a step is enabled if and only if no enabled continuation of it
      breaks the cache. */
  lemma EnabledIffHarmless(sys: System, step: Step)
    requires Consistent(sys)
    ensures Enabled(sys, step) <==> Harmless(Next(sys, step))
  {
    if Enabled(sys, step) {
      StepKeepsConsistentIff(sys, step);
      forall more | EnabledTrace(Next(sys, step), more)
        ensures Coherent(Trace(Next(sys, step), more).base, Trace(Next(sys, step), more).cache)
      {
        EveryInterleavingIsCoherent(Next(sys, step), more);
      }
    } else {
      var more := DisabledStepHarms(sys, step);
      assert EnabledTrace(Next(sys, step), more);
    }
  }

  // ---------------------------------------------------------------------
  // What readers return
  // ---------------------------------------------------------------------

  lemma TraceLast(sys: System, steps: seq<Step>)
    requires steps != []
    ensures var n := |steps| - 1;
            && Trace(sys, steps) == Next(Trace(sys, steps[..n]), steps[n])
            && (EnabledTrace(sys, steps) ==> EnabledTrace(sys, steps[..n]))
  {
    var n := |steps| - 1;
    var before, last := Trace(sys, steps[..n]), steps[n..];
    TraceSplit(sys, steps, n);
    assert last == [steps[n]] && last[1..] == [];
    assert Trace(before, last) == Trace(Next(before, last[0]), last[1..]);
  }

  lemma OnlyFlushesWrite(sys: System, step: Step)
    requires !step.AtomicFlush?
    ensures Next(sys, step).base == sys.base
  {
  }

  /** Whatever happens after a miss, what the base holds was shown at some moment since. */
  lemma {:induction false} BaseWasShown(sys: System, steps: seq<Step>, o: OutPoint) returns (k: nat)
    requires Consistent(sys) && EnabledTrace(sys, steps) && o !in sys.cache
    ensures k <= |steps|
    ensures var moment := Trace(sys, steps[..k]);
            Lookup(Trace(sys, steps).base, o) == ViewAt(moment.base, moment.cache, o)
    decreases |steps|
  {
    if steps == [] {
      k := 0;
    } else {
      var n := |steps| - 1;
      TraceLast(sys, steps);
      var before := Trace(sys, steps[..n]);
      EveryInterleavingIsCoherent(sys, steps[..n]);
      if steps[n].AtomicFlush? {
        k := n;
        FlushedLookup(before.base, before.cache, o);
      } else {
        k := BaseWasShown(sys, steps[..n], o);
        assert steps[..n][..k] == steps[..k];
        OnlyFlushesWrite(before, steps[n]);
      }
    }
  }

  lemma {:induction false} ReadAllMembers(base: Store, os: seq<OutPoint>, o: OutPoint, coin: Coin)
    ensures (o, coin) in ReadAll(base, os) <==> o in os && Lookup(base, o) == Some(coin)
  {
    if os != [] {
      ReadAllMembers(base, os[1..], o, coin);
    }
  }

  lemma {:induction false} MissesAreAbsent(cache: Cache, os: seq<OutPoint>, o: OutPoint)
    ensures o in Misses(cache, os) <==> o in os && o !in cache
  {
    if os != [] {
      MissesAreAbsent(cache, os[1..], o);
    }
  }

  /** A reader that missed an outpoint returns for it what was shown at some moment between the miss and its base read,
      whatever other threads did meanwhile. */
  lemma ReaderReturnsWhatWasShown(start: System, steps: seq<Step>, t: nat, os: seq<OutPoint>, o: OutPoint)
    returns (k: nat)
    requires Consistent(start) && t !in start.pending && o in os && o !in start.cache
    requires EnabledTrace(Next(start, BeginRead(t, os)), steps)
    requires var missed, end := Next(start, BeginRead(t, os)), Trace(Next(start, BeginRead(t, os)), steps);
             t in end.pending && end.pending[t] == missed.pending[t]
    ensures k <= |steps|
    ensures var missed := Next(start, BeginRead(t, os));
            var moment := Trace(missed, steps[..k]);
            var found := Next(Trace(missed, steps), ReadBase(t)).pending[t].found;
            forall coin :: (o, coin) in found <==> ViewAt(moment.base, moment.cache, o) == Some(coin)
  {
    var missed := Next(start, BeginRead(t, os));
    InterleavedStep(start, BeginRead(t, os));
    k := BaseWasShown(missed, steps, o);
    var end := Trace(missed, steps);
    MissesAreAbsent(start.cache, os, o);
    forall coin
      ensures (o, coin) in ReadAll(end.base, Misses(start.cache, os)) <==> Lookup(end.base, o) == Some(coin)
    {
      ReadAllMembers(end.base, Misses(start.cache, os), o, coin);
    }
  }

  // ---------------------------------------------------------------------
  // The conditions are needed
  // ---------------------------------------------------------------------

  /** Two readers of one outpoint, the second done first. */
  ghost function TwoReaders(o: OutPoint): seq<Step> {
    [BeginRead(0, [o]), ReadBase(0), BeginRead(1, [o]), ReadBase(1), InsertRead(1)]
  }

  lemma ReadOne(base: Store, o: OutPoint, coin: Coin)
    requires Lookup(base, o) == Some(coin)
    ensures Misses(map[], [o]) == [o] && ReadAll(base, [o]) == [(o, coin)]
  {
    assert [o][1..] == [];
  }

  /** From an empty cache, two readers leave one of them between its base read and its insert. */
  lemma TwoReadersLeaveOne(o: OutPoint, coin: Coin)
    requires !IsSpent(coin)
    ensures var start := System(map[o := coin], map[], map[]);
            && Consistent(start) && EnabledTrace(start, TwoReaders(o))
            && Trace(start, TwoReaders(o))
               == System(map[o := coin], map[o := Entry(coin, false, false)], map[0 := Loaded([(o, coin)])])
  {
    var base: Store := map[o := coin];
    var read := Loaded([(o, coin)]);
    ReadOne(base, o, coin);
    InsertOne(map[], o, coin);
    var s1 := System(base, map[], map[0 := Missed([o])]);
    var s2 := System(base, map[], map[0 := read]);
    var s3 := System(base, map[], map[0 := read, 1 := Missed([o])]);
    var s4 := System(base, map[], map[0 := read, 1 := read]);
    var s5 := System(base, map[o := Entry(coin, false, false)], map[0 := read]);
    assert Next(s1, ReadBase(0)) == s2 && Next(s2, BeginRead(1, [o])) == s3 && Next(s3, ReadBase(1)) == s4;
    assert map[0 := read, 1 := read] - {1} == map[0 := read];
    assert Next(s4, InsertRead(1)) == s5;
    TraceFirst(s4, InsertRead(1), []);
    TraceFirst(s3, ReadBase(1), [InsertRead(1)]);
    TraceFirst(s2, BeginRead(1, [o]), [ReadBase(1), InsertRead(1)]);
    TraceFirst(s1, ReadBase(0), [BeginRead(1, [o]), ReadBase(1), InsertRead(1)]);
    var s0 := System(base, map[], map[]);
    TraceFirst(s0, BeginRead(0, [o]), [ReadBase(0), BeginRead(1, [o]), ReadBase(1), InsertRead(1)]);
  }

  /** When a flush makes a read stale before its insert, a coin that was spent in between reappears: from an empty
      cache, with two readers of one coin of the base. */
  lemma FlushDuringReadResurrects(o: OutPoint, coin: Coin)
    requires !IsSpent(coin)
    ensures var start := System(map[o := coin], map[], map[]);
            var gap := Trace(start, TwoReaders(o));
            var spent := Next(gap, AtomicSpend(o));
            var flushed := Next(spent, AtomicFlush({}));
            var end := Next(flushed, InsertRead(0));
            && Consistent(start) && EnabledTrace(start, TwoReaders(o)) && Enabled(gap, AtomicSpend(o))
            && !Enabled(spent, AtomicFlush({})) && ViewAt(spent.base, spent.cache, o) == None
            && ViewAt(end.base, end.cache, o) == Some(coin) && !Coherent(end.base, end.cache)
  {
    TwoReadersLeaveOne(o, coin);
    FlushInTheGap(o, coin);
  }

  lemma FlushInTheGap(o: OutPoint, coin: Coin)
    requires !IsSpent(coin)
    ensures var gap := System(map[o := coin], map[o := Entry(coin, false, false)], map[0 := Loaded([(o, coin)])]);
            var spent := Next(gap, AtomicSpend(o));
            var flushed := Next(spent, AtomicFlush({}));
            var end := Next(flushed, InsertRead(0));
            && !Enabled(spent, AtomicFlush({})) && ViewAt(spent.base, spent.cache, o) == None
            && ViewAt(end.base, end.cache, o) == Some(coin) && !Coherent(end.base, end.cache)
  {
    var gap := System(map[o := coin], map[o := Entry(coin, false, false)], map[0 := Loaded([(o, coin)])]);
    var spent := Next(gap, AtomicSpend(o));
    assert spent.cache == map[o := Entry(EMPTY_COIN, true, false)];
    assert !ReadSurvives(spent, {}, spent.pending[0].found[0].0, spent.pending[0].found[0].1);
    var flushed := Next(spent, AtomicFlush({}));
    assert flushed.base == map[] && flushed.cache == map[];
    var end := Next(flushed, InsertRead(0));
    InsertOne(map[], o, coin);
    assert end.cache == map[o := Entry(coin, false, false)];
    assert !EntryOk(end.base, o, end.cache[o]);
  }

  lemma InsertOne(cache: Cache, o: OutPoint, coin: Coin)
    ensures InsertAll(cache, [(o, coin)]) == InsertClean(cache, o, coin)
  {
    var one := [(o, coin)];
    assert one[1..] == [];
    assert InsertAll(cache, one) == InsertAll(InsertClean(cache, o, coin), one[1..]);
  }

  /** When another thread uncaches an outpoint between the check and the add, the add marks its coin FRESH over a coin
      of the base, and a spend then brings the old coin back: from an empty cache. */
  lemma UncacheDuringCheckResurrects(o: OutPoint, earlier: Coin, coin: Coin)
    requires !IsSpent(earlier) && !IsSpent(coin) && !IsUnspendable(coin.txOut.scriptPubkey)
    ensures var start := System(map[o := earlier], map[], map[]);
            var ready := Next(Next(Next(start, BeginCheck(0, o, coin)), ReadBase(0)), InsertRead(0));
            var uncached := Next(ready, AtomicUncache(o));
            var added := Next(uncached, AddAfterCheck(0));
            var end := Next(added, AtomicSpend(o));
            && Consistent(start) && Consistent(ready) && !Enabled(ready, AtomicUncache(o))
            && ViewAt(added.base, added.cache, o) == Some(coin) && !Coherent(added.base, added.cache)
            && ViewAt(end.base, end.cache, o) == Some(earlier)
  {
    var start := System(map[o := earlier], map[], map[]);
    var missed := Next(start, BeginCheck(0, o, coin));
    assert missed.pending == map[0 := CheckMissed(o, coin)];
    var loaded := Next(missed, ReadBase(0));
    assert loaded.pending == map[0 := CheckLoaded(o, coin, earlier)];
    var ready := Next(loaded, InsertRead(0));
    assert ready.cache == map[o := Entry(earlier, false, false)];
    assert ready.pending == map[0 := Checked(o, coin, true)] && Waits(ready.pending, 0, o);
    var uncached := Next(ready, AtomicUncache(o));
    assert uncached.cache == map[] && uncached.pending[0] == Checked(o, coin, true);
    var added := Next(uncached, AddAfterCheck(0));
    assert added.cache == map[o := Entry(coin, true, true)];
    assert !EntryOk(added.base, o, added.cache[o]);
    assert SpendStep(added.cache, o) == map[];
  }
}
