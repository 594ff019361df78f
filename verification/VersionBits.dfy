/** BIP9 deployments: the plain recursion of the "State transitions" section of
    BIP9, and the memoised walk that the node runs instead. */
module VersionBits {
  import opened Wrappers
  import opened Chain
  import opened Arith

  const VERSIONBITS_TOP_BITS: bv32 := 0x2000_0000
  const VERSIONBITS_TOP_MASK: bv32 := 0xE000_0000
  const VERSIONBITS_NUM_BITS: nat := 5
  const ALWAYS_ACTIVE: int := -1
  const NEVER_ACTIVE: int := -2
  const NO_TIMEOUT: int := 0x7FFF_FFFF_FFFF_FFFF

  datatype ThresholdState = Defined | Started | LockedIn | Active | Failed

  datatype Bip9Deployment = Bip9Deployment(
    bit: nat, startTime: int, timeout: int, minActivationHeight: int, period: int, threshold: int)

  datatype ChainParams = ChainParams(
    deployments: seq<Bip9Deployment>,
    minBip9WarningHeight: int,
    isTestChain: bool,
    difficultyAdjustmentInterval: int)

  /** A checker is either one configured deployment or the detector of one unknown version bit. */
  datatype Checker =
    | KnownBits(dep: Bip9Deployment)
    | WarningBits(params: ChainParams, bit: nat)

  datatype Rule = Rule(beginTime: int, endTime: int, minActivationHeight: int, period: int, threshold: int)

  function RuleOf(c: Checker): Rule {
    match c
    case KnownBits(dep) =>
      Rule(dep.startTime, dep.timeout, dep.minActivationHeight, dep.period, dep.threshold)
    case WarningBits(params, _) =>
      if params.isTestChain then
        Rule(0, NO_TIMEOUT, 0, params.difficultyAdjustmentInterval, params.difficultyAdjustmentInterval * 3 / 4)
      else
        Rule(0, NO_TIMEOUT, 0, 2016, 1815)
  }

  /** Periods are positive and version bits fit the version word. */
  predicate DeploymentOk(dep: Bip9Deployment) {
    dep.period > 0 && dep.bit < 32
  }

  predicate ParamsOk(params: ChainParams) {
    && params.difficultyAdjustmentInterval > 0
    && forall d :: 0 <= d < |params.deployments| ==> DeploymentOk(params.deployments[d])
  }

  predicate CheckerOk(c: Checker) {
    match c
    case KnownBits(dep) => DeploymentOk(dep)
    case WarningBits(params, bit) => ParamsOk(params) && bit < 32
  }

  ghost predicate PrevOk(arena: Arena, prev: Option<nat>) {
    prev.Some? ==> prev.value < |arena|
  }

  // ---------------------------------------------------------------------
  // The uncached specification
  // ---------------------------------------------------------------------

  /** Signalling blocks among `idx` and its ancestors, at most `n` of them. */
  ghost function Signalling(arena: Arena, signals: nat -> bool, idx: Option<nat>, n: nat): nat
    decreases n, arena
  {
    if n == 0 || idx.None? || idx.value >= |arena| then 0
    else (if signals(idx.value) then 1 else 0) + Signalling(arena, signals, arena[idx.value].prev, n - 1)
  }

  /** One transition, taken at the last block `p` of a period whose state was `state`. */
  ghost function Transition(
      rule: Rule, arena: Arena, signals: nat -> bool, p: nat, state: ThresholdState): ThresholdState
    requires rule.period > 0 && p < |arena|
  {
    match state
    case Defined => if ComputeMtp(arena, p) >= rule.beginTime then Started else Defined
    case Started =>
      if Signalling(arena, signals, Some(p), rule.period) >= rule.threshold then LockedIn
      else if ComputeMtp(arena, p) >= rule.endTime then Failed
      else Started
    case LockedIn => if arena[p].height + 1 >= rule.minActivationHeight then Active else LockedIn
    case Active => Active
    case Failed => Failed
  }

  /** The last block of the period before the one that ends at `p`. */
  ghost function PeriodParent(arena: Arena, p: nat, period: int): (parent: Option<nat>)
    requires Linked(arena) && p < |arena| && period > 0
    ensures parent == AncestorAt(arena, p, arena[p].height - period)
    ensures parent.Some? ==> parent.value < |arena| && arena[parent.value].height == arena[p].height - period
    ensures parent.Some? <==> arena[p].height >= period
  {
    if arena[p].height >= period then BackInRange(arena, p, period); Back(arena, p, period) else None
  }

  ghost function Steps(arena: Arena, prev: Option<nat>): int {
    if prev.Some? && prev.value < |arena| then arena[prev.value].height + 1 else 0
  }

  /** State of the period that follows block `prev`, by recursion over whole periods. */
  ghost function PeriodState(rule: Rule, arena: Arena, signals: nat -> bool, prev: Option<nat>): ThresholdState
    requires Linked(arena) && rule.period > 0 && PrevOk(arena, prev)
    decreases Steps(arena, prev)
  {
    match prev
    case None => Defined
    case Some(p) =>
      assert LinkedAt(arena, p);
      Transition(rule, arena, signals, p,
                 PeriodState(rule, arena, signals, PeriodParent(arena, p, rule.period)))
  }

  /** The first height of the period that contains height `h`: periods are taken off while a whole one is left. */
  ghost function PeriodStart(h: int, period: int): (start: int)
    requires h >= 0 && period > 0
    ensures 0 <= start <= h < start + period
    decreases h
  {
    if h < period then 0 else PeriodStart(h - period, period) + period
  }

  lemma {:induction false} PeriodStartIs(h: int, period: int)
    requires h >= 0 && period > 0
    ensures PeriodStart(h, period) == h - h % period
    decreases h
  {
    if h < period {
      UniqueModulus(h, 0, h, period);
    } else {
      PeriodStartIs(h - period, period);
      ModulusStep(h, period);
    }
  }

  /** The last block at or below `prev` that ends a period. */
  ghost function AlignedPrev(arena: Arena, prev: Option<nat>, period: int): (aligned: Option<nat>)
    requires Linked(arena) && PrevOk(arena, prev) && period > 0
    ensures PrevOk(arena, aligned)
    ensures aligned.Some? ==>
            var h := if prev.Some? && arena[prev.value].height >= 0 then arena[prev.value].height else 0;
            prev.Some? && arena[aligned.value].height == PeriodStart(h + 1, period) - 1
  {
    match prev
    case None => None
    case Some(p) =>
      assert LinkedAt(arena, p);
      var h := PeriodStart(arena[p].height + 1, period) - 1;
      if h >= 0 then BackInRange(arena, p, arena[p].height - h); AncestorAt(arena, p, h) else None
  }

  ghost function StateUnder(rule: Rule, arena: Arena, signals: nat -> bool, prev: Option<nat>): ThresholdState
    requires Linked(arena) && rule.period > 0 && PrevOk(arena, prev)
  {
    if rule.beginTime == ALWAYS_ACTIVE then Active
    else if rule.beginTime == NEVER_ACTIVE then Failed
    else PeriodState(rule, arena, signals, AlignedPrev(arena, prev, rule.period))
  }

  /** The bit is tested by its mask. */
  predicate MaskSet(version: bv32, bit: nat)
    requires bit < 32
  {
    version & ((1 as bv32) << bit) != 0
  }

  function SetBit(version: bv32, bit: nat): bv32
    requires bit < 32
  {
    version | ((1 as bv32) << bit)
  }

  predicate ConditionVersion(dep: Bip9Deployment, version: bv32)
    requires dep.bit < 32
  {
    version & VERSIONBITS_TOP_MASK == VERSIONBITS_TOP_BITS && MaskSet(version, dep.bit)
  }

  ghost function KnownSignals(dep: Bip9Deployment, arena: Arena): nat -> bool
    requires dep.bit < 32
  {
    (i: nat) => i < |arena| && ConditionVersion(dep, arena[i].version)
  }

  ghost function KnownState(dep: Bip9Deployment, arena: Arena, prev: Option<nat>): ThresholdState
    requires Linked(arena) && DeploymentOk(dep) && PrevOk(arena, prev)
  {
    StateUnder(RuleOf(KnownBits(dep)), arena, KnownSignals(dep, arena), prev)
  }

  /** The version a block on `prev` should carry: one bit per deployment that is being signalled or locked in. */
  ghost function ExpectedVersion(deps: seq<Bip9Deployment>, arena: Arena, prev: Option<nat>): bv32
    requires Linked(arena) && PrevOk(arena, prev)
    requires forall d :: 0 <= d < |deps| ==> DeploymentOk(deps[d])
  {
    if deps == [] then VERSIONBITS_TOP_BITS
    else
      var last := deps[|deps| - 1];
      var rest := ExpectedVersion(deps[..|deps| - 1], arena, prev);
      var state := KnownState(last, arena, prev);
      if state == LockedIn || state == Started then SetBit(rest, last.bit) else rest
  }

  /** The bit is tested by shifting it down. */
  predicate HasBit(version: bv32, bit: nat)
    requires bit < 32
  {
    (version >> bit) & 1 != 0
  }

  /** A block warns about `bit` when it sets it and no known deployment explains it. */
  ghost predicate WarningSignal(params: ChainParams, bit: nat, arena: Arena, i: nat)
    requires Linked(arena) && ParamsOk(params) && bit < 32 && i < |arena|
  {
    && arena[i].height >= params.minBip9WarningHeight
    && arena[i].version & VERSIONBITS_TOP_MASK == VERSIONBITS_TOP_BITS
    && HasBit(arena[i].version, bit)
    && (assert LinkedAt(arena, i);
        !HasBit(ExpectedVersion(params.deployments, arena, arena[i].prev), bit))
  }

  ghost function Signals(c: Checker, arena: Arena): nat -> bool
    requires Linked(arena) && CheckerOk(c)
  {
    match c
    case KnownBits(dep) => KnownSignals(dep, arena)
    case WarningBits(params, bit) => (i: nat) => i < |arena| && WarningSignal(params, bit, arena, i)
  }

  /** The two-level definition: a warning machine whose signal runs the known-deployment machines. */
  ghost function StateOf(c: Checker, arena: Arena, prev: Option<nat>): ThresholdState
    requires Linked(arena) && CheckerOk(c) && PrevOk(arena, prev)
  {
    StateUnder(RuleOf(c), arena, Signals(c, arena), prev)
  }

  // ---------------------------------------------------------------------
  // The memoised walk
  // ---------------------------------------------------------------------

  /** Keyed by the parent of the first block of a period; `None` is the parent of genesis. */
  type Cache = map<Option<nat>, ThresholdState>

  ghost predicate KeyOk(arena: Arena, period: int, key: Option<nat>)
    requires period > 0
  {
    key.None? || (key.value < |arena| && EndsPeriod(arena[key.value].height, period))
  }

  /** The block at height `h` is the last of a period: whole periods lead down to height -1. */
  ghost predicate EndsPeriod(h: int, period: int)
    requires period > 0
    decreases h
  {
    h + 1 >= period && (h + 1 == period || EndsPeriod(h - period, period))
  }

  ghost predicate CacheOk(c: Checker, arena: Arena, cache: Cache)
    requires Linked(arena) && CheckerOk(c)
  {
    forall key :: key in cache ==>
      KeyOk(arena, RuleOf(c).period, key) && cache[key] == PeriodState(RuleOf(c), arena, Signals(c, arena), key)
  }

  ghost predicate KnownCachesOk(deps: seq<Bip9Deployment>, arena: Arena, caches: seq<Cache>)
    requires Linked(arena)
    requires forall d :: 0 <= d < |deps| ==> DeploymentOk(deps[d])
  {
    |caches| == |deps| && forall d :: 0 <= d < |deps| ==> CacheOk(KnownBits(deps[d]), arena, caches[d])
  }

  /** The caches that a checker's signal condition itself consults. */
  ghost predicate AuxOk(c: Checker, arena: Arena, known: seq<Cache>)
    requires Linked(arena) && CheckerOk(c)
  {
    c.WarningBits? ==> KnownCachesOk(c.params.deployments, arena, known)
  }

  /** Before the start time nothing has happened yet: this is what makes the early exit of the walk sound. */
  lemma {:induction false} DefinedBeforeStart(rule: Rule, arena: Arena, signals: nat -> bool, p: nat)
    requires WellFormed(arena) && rule.period > 0 && p < |arena|
    requires ComputeMtp(arena, p) < rule.beginTime
    ensures PeriodState(rule, arena, signals, Some(p)) == Defined
    decreases arena[p].height
  {
    assert LinkedAt(arena, p);
    var parent := PeriodParent(arena, p, rule.period);
    if parent.Some? {
      MtpMonotone(arena, p, rule.period);
      DefinedBeforeStart(rule, arena, signals, parent.value);
    }
  }

  /** `stack` lists period ends downwards from `top`, and `below` is the period end under the last of them. */
  ghost predicate Descent(arena: Arena, period: int, top: Option<nat>, stack: seq<nat>, below: Option<nat>)
    requires Linked(arena) && period > 0
  {
    if stack == [] then below == top
    else
      var p := stack[|stack| - 1];
      && p < |arena|
      && KeyOk(arena, period, Some(p))
      && PeriodParent(arena, p, period) == below
      && Descent(arena, period, top, stack[..|stack| - 1], Some(p))
  }

  lemma DescentStep(arena: Arena, period: int, top: Option<nat>, stack: seq<nat>, p: nat)
    requires Linked(arena) && period > 0 && p < |arena|
    requires KeyOk(arena, period, Some(p)) && Descent(arena, period, top, stack, Some(p))
    ensures KeyOk(arena, period, PeriodParent(arena, p, period))
    ensures Descent(arena, period, top, stack + [p], PeriodParent(arena, p, period))
    ensures Steps(arena, PeriodParent(arena, p, period)) < Steps(arena, Some(p))
  {
    assert LinkedAt(arena, p);
    assert (stack + [p])[..|stack|] == stack;
  }

  /** The block before a period starts ends one. */
  lemma {:induction false} BeforeStartEnds(h: int, period: int)
    requires h >= 0 && period > 0
    ensures PeriodStart(h, period) > 0 ==> EndsPeriod(PeriodStart(h, period) - 1, period)
    ensures PeriodStart(PeriodStart(h, period), period) == PeriodStart(h, period)
    decreases h
  {
    if h >= period {
      BeforeStartEnds(h - period, period);
    }
  }

  lemma {:induction false} EndsPeriodIsStart(h: int, period: int)
    requires h >= 0 && period > 0 && EndsPeriod(h, period)
    ensures PeriodStart(h + 1, period) == h + 1 && PeriodStart(h, period) == h + 1 - period
    decreases h
  {
    if h + 1 > period {
      EndsPeriodIsStart(h - period, period);
    }
  }

  lemma CacheInsert(c: Checker, arena: Arena, cache: Cache, key: Option<nat>)
    requires Linked(arena) && CheckerOk(c) && CacheOk(c, arena, cache)
    requires KeyOk(arena, RuleOf(c).period, key)
    ensures CacheOk(c, arena, cache[key := PeriodState(RuleOf(c), arena, Signals(c, arena), key)])
  {
  }

  /** The block's median time is before the start time. */
  predicate StartsLater(rule: Rule, arena: Arena, p: nat) {
    ComputeMtp(arena, p) < rule.beginTime
  }

  /** What the walk writes when it stops by itself: genesis, and blocks before the start time, are Defined. */
  lemma CacheDefined(c: Checker, arena: Arena, cache: Cache, key: Option<nat>)
    requires WellFormed(arena) && CheckerOk(c) && CacheOk(c, arena, cache) && RuleOf(c).period > 0
    requires KeyOk(arena, RuleOf(c).period, key)
    requires key.None? || StartsLater(RuleOf(c), arena, key.value)
    ensures CacheOk(c, arena, cache[key := Defined])
  {
    if key.Some? {
      DefinedBeforeStart(RuleOf(c), arena, Signals(c, arena), key.value);
    }
    CacheInsert(c, arena, cache, key);
  }

  /** Rank of a checker: the warning machine runs the known machines, never the other way round. */
  function Rank(c: Checker): nat {
    if c.KnownBits? then 0 else 1
  }

  method Condition(c: Checker, arena: Arena, idx: nat, known0: seq<Cache>) returns (signal: bool, known: seq<Cache>)
    requires WellFormed(arena) && CheckerOk(c) && idx < |arena| && AuxOk(c, arena, known0)
    ensures signal == Signals(c, arena)(idx)
    ensures AuxOk(c, arena, known) && (c.KnownBits? ==> known == known0)
    decreases Rank(c), 1
  {
    known := known0;
    match c
    case KnownBits(dep) =>
      signal := ConditionVersion(dep, arena[idx].version);
    case WarningBits(params, bit) =>
      var block := arena[idx];
      if block.height < params.minBip9WarningHeight {
        return false, known;
      }
      if block.version & VERSIONBITS_TOP_MASK != VERSIONBITS_TOP_BITS {
        return false, known;
      }
      if !HasBit(block.version, bit) {
        return false, known;
      }
      assert LinkedAt(arena, idx);
      var expected;
      expected, known := ComputeBlockVersion(params.deployments, arena, block.prev, known);
      signal := !HasBit(expected, bit);
  }

  lemma ExpectedVersionStep(deps: seq<Bip9Deployment>, pos: nat, arena: Arena, prev: Option<nat>)
    requires Linked(arena) && PrevOk(arena, prev) && pos < |deps|
    requires forall d :: 0 <= d < |deps| ==> DeploymentOk(deps[d])
    ensures ExpectedVersion(deps[..pos + 1], arena, prev) ==
            var state := KnownState(deps[pos], arena, prev);
            if state == LockedIn || state == Started then
              SetBit(ExpectedVersion(deps[..pos], arena, prev), deps[pos].bit)
            else ExpectedVersion(deps[..pos], arena, prev)
  {
    assert deps[..pos + 1][..pos] == deps[..pos];
  }

  lemma KnownIsStateOf(dep: Bip9Deployment, arena: Arena, prev: Option<nat>)
    requires Linked(arena) && DeploymentOk(dep) && PrevOk(arena, prev)
    ensures KnownState(dep, arena, prev) == StateOf(KnownBits(dep), arena, prev)
  {
  }

  lemma KnownCacheUpdate(deps: seq<Bip9Deployment>, arena: Arena, caches: seq<Cache>, pos: nat, cache: Cache)
    requires Linked(arena) && pos < |deps|
    requires forall d :: 0 <= d < |deps| ==> DeploymentOk(deps[d])
    requires KnownCachesOk(deps, arena, caches) && CacheOk(KnownBits(deps[pos]), arena, cache)
    ensures KnownCachesOk(deps, arena, caches[pos := cache])
  {
  }

  method ComputeBlockVersion(deps: seq<Bip9Deployment>, arena: Arena, prev: Option<nat>, caches0: seq<Cache>)
    returns (version: bv32, caches: seq<Cache>)
    requires WellFormed(arena) && PrevOk(arena, prev)
    requires forall d :: 0 <= d < |deps| ==> DeploymentOk(deps[d])
    requires KnownCachesOk(deps, arena, caches0)
    ensures version == ExpectedVersion(deps, arena, prev)
    ensures KnownCachesOk(deps, arena, caches)
    decreases 1, 0
  {

    version, caches := VERSIONBITS_TOP_BITS, caches0;
    for pos := 0 to |deps|
      invariant KnownCachesOk(deps, arena, caches)
      invariant version == ExpectedVersion(deps[..pos], arena, prev)
    {
      var checker := KnownBits(deps[pos]);
      var state, cache, _ := GetStateFor(checker, arena, prev, caches[pos], []);
      KnownCacheUpdate(deps, arena, caches, pos, cache);
      caches := caches[pos := cache];
      ExpectedVersionStep(deps, pos, arena, prev);
      KnownIsStateOf(deps[pos], arena, prev);
      if state == LockedIn || state == Started {
        version := SetBit(version, deps[pos].bit);
      }
    }
    assert deps[..|deps|] == deps;
  }

  /** Counts the signalling blocks of the period that ends at `p`. */
  method CountSignals(c: Checker, arena: Arena, p: nat, known0: seq<Cache>) returns (count: nat, known: seq<Cache>)
    requires WellFormed(arena) && CheckerOk(c) && p < |arena| && RuleOf(c).period > 0 && AuxOk(c, arena, known0)
    ensures count == Signalling(arena, Signals(c, arena), Some(p), RuleOf(c).period)
    ensures AuxOk(c, arena, known) && (c.KnownBits? ==> known == known0)
    decreases Rank(c), 2
  {
    var countIdx: Option<nat> := Some(p);
    var period := RuleOf(c).period;
    count, known := 0, known0;
    for n := 0 to period
      invariant PrevOk(arena, countIdx)
      invariant AuxOk(c, arena, known) && (c.KnownBits? ==> known == known0)
      invariant count + Signalling(arena, Signals(c, arena), countIdx, period - n)
             == Signalling(arena, Signals(c, arena), Some(p), period)
    {
      if countIdx.None? {
        return;
      }
      var signal;
      signal, known := Condition(c, arena, countIdx.value, known);
      if signal {
        count := count + 1;
      }
      assert LinkedAt(arena, countIdx.value);
      countIdx := arena[countIdx.value].prev;
    }
  }

  /** One forward step of the walk, at the period end `p`. */
  method Advance(c: Checker, arena: Arena, p: nat, state: ThresholdState, known0: seq<Cache>)
    returns (next: ThresholdState, known: seq<Cache>)
    requires WellFormed(arena) && CheckerOk(c) && p < |arena| && RuleOf(c).period > 0 && AuxOk(c, arena, known0)
    ensures next == Transition(RuleOf(c), arena, Signals(c, arena), p, state)
    ensures AuxOk(c, arena, known) && (c.KnownBits? ==> known == known0)
    decreases Rank(c), 3
  {
    var rule := RuleOf(c);
    next, known := state, known0;
    match state
    case Defined =>
      if ComputeMtp(arena, p) >= rule.beginTime {
        next := Started;
      }
    case Started =>
      var count;
      count, known := CountSignals(c, arena, p, known);
      if count >= rule.threshold {
        next := LockedIn;
      } else if ComputeMtp(arena, p) >= rule.endTime {
        next := Failed;
      }
    case LockedIn =>
      if arena[p].height + 1 >= rule.minActivationHeight {
        next := Active;
      }
    case Failed =>
    case Active =>
  }

  lemma RulePeriod(c: Checker)
    requires CheckerOk(c)
    ensures RuleOf(c).period > 0
  {
  }

  /** Walks back by whole periods to a known state, remembering the period ends passed on the way. */
  method WalkBack(c: Checker, arena: Arena, top: Option<nat>, cache0: Cache)
    returns (prev: Option<nat>, toCompute: seq<nat>, cache: Cache)
    requires WellFormed(arena) && CheckerOk(c) && RuleOf(c).period > 0
    requires PrevOk(arena, top) && KeyOk(arena, RuleOf(c).period, top)
    requires CacheOk(c, arena, cache0)
    ensures CacheOk(c, arena, cache) && prev in cache
    ensures cache0.Keys <= cache.Keys
    ensures PrevOk(arena, prev) && Descent(arena, RuleOf(c).period, top, toCompute, prev)
  {
    var rule := RuleOf(c);
    prev, toCompute, cache := top, [], cache0;
    while prev !in cache
      invariant CacheOk(c, arena, cache) && cache0.Keys <= cache.Keys
      invariant KeyOk(arena, rule.period, prev)
      invariant Descent(arena, rule.period, top, toCompute, prev)
      decreases prev !in cache, Steps(arena, prev)
    {
      if prev.None? || StartsLater(rule, arena, prev.value) {
        CacheDefined(c, arena, cache, prev);
        cache := cache[prev := Defined];
        break;
      }
      var p := prev.value;
      var height := arena[p].height;
      var parent := GetAncestor(arena, p, height - rule.period);
      assert parent == PeriodParent(arena, p, rule.period);
      DescentStep(arena, rule.period, top, toCompute, p);
      toCompute := toCompute + [p];
      prev := parent;
    }
  }

  /** The last block at or below `p` that ends a period, looked up by its height. */
  method LastPeriodEnd(arena: Arena, p: nat, period: int) returns (aligned: Option<nat>)
    requires WellFormed(arena) && p < |arena| && period > 0
    ensures aligned == AlignedPrev(arena, Some(p), period) && KeyOk(arena, period, aligned)
  {
    assert LinkedAt(arena, p);
    var height := arena[p].height;
    PeriodStartIs(height + 1, period);
    AlignedLookup(arena, p, period, height - (height + 1) % period);
    aligned := GetAncestor(arena, p, height - (height + 1) % period);
  }

  lemma {:induction false} AlignedLookup(arena: Arena, p: nat, period: int, h: int)
    requires Linked(arena) && p < |arena| && period > 0
    requires arena[p].height >= 0 && h == PeriodStart(arena[p].height + 1, period) - 1
    ensures AncestorAt(arena, p, h) == AlignedPrev(arena, Some(p), period)
    ensures KeyOk(arena, period, AlignedPrev(arena, Some(p), period))
  {
    BeforeStartEnds(arena[p].height + 1, period);
  }

  /** State of the block whose parent is `prev`. */
  method GetStateFor(c: Checker, arena: Arena, prev: Option<nat>, cache0: Cache, known0: seq<Cache>)
    returns (state: ThresholdState, cache: Cache, known: seq<Cache>)
    requires WellFormed(arena) && CheckerOk(c) && PrevOk(arena, prev)
    requires CacheOk(c, arena, cache0) && AuxOk(c, arena, known0)
    ensures state == StateOf(c, arena, prev)
    ensures CacheOk(c, arena, cache) && cache0.Keys <= cache.Keys
    ensures AuxOk(c, arena, known) && (c.KnownBits? ==> known == known0)
    decreases Rank(c), 4
  {
    var rule := RuleOf(c);
    cache, known := cache0, known0;
    if rule.beginTime == ALWAYS_ACTIVE {
      return Active, cache, known;
    }
    if rule.beginTime == NEVER_ACTIVE {
      return Failed, cache, known;
    }
    RulePeriod(c);
    var top: Option<nat> := None;
    if prev.Some? {
      top := LastPeriodEnd(arena, prev.value, rule.period);
    }
    var below, toCompute;
    below, toCompute, cache := WalkBack(c, arena, top, cache);
    state := cache[below];
    while toCompute != []
      invariant CacheOk(c, arena, cache) && cache0.Keys <= cache.Keys
      invariant AuxOk(c, arena, known) && (c.KnownBits? ==> known == known0)
      invariant PrevOk(arena, below) && Descent(arena, rule.period, top, toCompute, below)
      invariant state == PeriodState(rule, arena, Signals(c, arena), below)
      decreases |toCompute|
    {
      var p := toCompute[|toCompute| - 1];
      toCompute := toCompute[..|toCompute| - 1];
      state, known := Advance(c, arena, p, state, known);
      CacheInsert(c, arena, cache, Some(p));
      cache := cache[Some(p) := state];
      below := Some(p);
    }
  }
}
