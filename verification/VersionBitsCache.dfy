/** The node's deployment caches, and the theorem that no history of block
    insertions and queries can make them observable. */
module VersionBitsCache {
  import opened Wrappers
  import opened Arith
  import opened Chain
  import opened VersionBits
  import opened VersionBitsHistory
  import opened VersionBitsSince
  import opened VersionBitsStats

  datatype Bip9Info = Bip9Info(
    since: int,
    currentState: ThresholdState,
    nextState: ThresholdState,
    stats: Option<Bip9Stats>,
    signallingBlocks: seq<bool>,
    activeSince: Option<int>)

  /** Statistics are given while signalling matters; once locked in, the threshold no longer applies. */
  ghost predicate ReportsStats(c: Checker, arena: Arena, idx: nat, info: Bip9Info)
    requires Linked(arena) && CheckerOk(c) && idx < |arena|
  {
    RulePeriod(c);
    var rule := RuleOf(c);
    match info.currentState
    case Started => info.stats.Some? && IsStats(c, arena, idx, info.stats.value, info.signallingBlocks)
    case LockedIn =>
      info.stats.Some? &&
      var s := info.stats.value;
      && s.threshold == 0 && !s.possible
      && var possible := (rule.period - rule.threshold) % U32 >= s.elapsed - s.count;
         IsStats(c, arena, idx, s.(threshold := rule.threshold, possible := possible), info.signallingBlocks)
    case _ => info.stats.None? && info.signallingBlocks == []
  }

  /** Status of deployment `pos` as of block `idx`, from the uncached definition. */
  ghost predicate IsInfo(c: Checker, arena: Arena, idx: nat, info: Bip9Info)
    requires Linked(arena) && CheckerOk(c) && idx < |arena|
  {
    assert LinkedAt(arena, idx);
    var prev := arena[idx].prev;
    && info.currentState == StateOf(c, arena, prev)
    && info.nextState == StateOf(c, arena, Some(idx))
    && (prev.None? || !Ordinary(c) ==> info.since == 0)
    && (prev.Some? && Ordinary(c) ==> IsSince(c, arena, prev.value, info.since))
    && ReportsStats(c, arena, idx, info)
    && info.activeSince ==
         if info.currentState == Active then Some(info.since)
         else if info.nextState == Active then Some(arena[idx].height + 1)
         else None
  }

  /** Unknown bits that are locked in or active after `index`, paired with whether they are active. */
  ghost function UnknownActivations(params: ChainParams, arena: Arena, index: Option<nat>, bits: nat): seq<(nat, bool)>
    requires Linked(arena) && ParamsOk(params) && PrevOk(arena, index) && bits <= 32
  {
    if bits == 0 then []
    else
      var rest := UnknownActivations(params, arena, index, bits - 1);
      var state := StateOf(WarningBits(params, bits - 1), arena, index);
      if state == Active || state == LockedIn then rest + [(bits - 1, state == Active)] else rest
  }

  /** Deployments by state, for block templates; defined and failed ones are not shown. */
  datatype GbtStatus = GbtStatus(signalling: seq<nat>, lockedIn: seq<nat>, active: seq<nat>)

  /** The deployments among the first `n` that are in `state` for the block after `prev`, in order. */
  ghost function InState(
      deps: seq<Bip9Deployment>, arena: Arena, prev: Option<nat>, state: ThresholdState, n: nat): seq<nat>
    requires Linked(arena) && PrevOk(arena, prev) && n <= |deps|
    requires forall d :: 0 <= d < |deps| ==> DeploymentOk(deps[d])
  {
    if n == 0 then []
    else
      InState(deps, arena, prev, state, n - 1)
      + if StateOf(KnownBits(deps[n - 1]), arena, prev) == state then [n - 1] else []
  }

  ghost function Grouped(deps: seq<Bip9Deployment>, arena: Arena, prev: Option<nat>, n: nat): GbtStatus
    requires Linked(arena) && PrevOk(arena, prev) && n <= |deps|
    requires forall d :: 0 <= d < |deps| ==> DeploymentOk(deps[d])
  {
    GbtStatus(
      InState(deps, arena, prev, Started, n),
      InState(deps, arena, prev, LockedIn, n),
      InState(deps, arena, prev, Active, n))
  }

  class VersionBitsCache {
    const params: ChainParams
    var caches: seq<Cache>
    var warningCaches: seq<Cache>

    /** Every cached state is the state that the uncached definition gives. */
    ghost predicate Valid(arena: Arena)
      reads this
    {
      && Linked(arena) && ParamsOk(params)
      && KnownCachesOk(params.deployments, arena, caches)
      && WarningCachesOk(params, arena, warningCaches)
    }

    constructor (params: ChainParams)
      requires ParamsOk(params)
      ensures this.params == params && Valid([])
    {
      this.params := params;
      caches := seq(|params.deployments|, _ => map[]);
      warningCaches := seq(VERSIONBITS_NUM_BITS, _ => map[]);
    }

    method IsActiveAfter(arena: Arena, prev: Option<nat>, pos: nat) returns (active: bool)
      requires WellFormed(arena) && Valid(arena) && PrevOk(arena, prev) && pos < |params.deployments|
      modifies this
      ensures Valid(arena)
      ensures active <==> StateOf(KnownBits(params.deployments[pos]), arena, prev) == Active
    {
      var state, cache, _ := GetStateFor(KnownBits(params.deployments[pos]), arena, prev, caches[pos], []);
      KnownCacheUpdate(params.deployments, arena, caches, pos, cache);
      caches := caches[pos := cache];
      return state == Active;
    }

    method BlockVersion(arena: Arena, prev: Option<nat>) returns (version: bv32)
      requires WellFormed(arena) && Valid(arena) && PrevOk(arena, prev)
      modifies this
      ensures Valid(arena)
      ensures version == ExpectedVersion(params.deployments, arena, prev)
    {
      var known;
      version, known := ComputeBlockVersion(params.deployments, arena, prev, caches);
      caches := known;
    }

    method Info(arena: Arena, idx: nat, pos: nat) returns (info: Bip9Info)
      requires WellFormed(arena) && Valid(arena) && idx < |arena| && pos < |params.deployments|
      requires FitsU32(RuleOf(KnownBits(params.deployments[pos])))
      modifies this
      ensures Valid(arena)
      ensures IsInfo(KnownBits(params.deployments[pos]), arena, idx, info)
    {
      var checker := KnownBits(params.deployments[pos]);
      assert LinkedAt(arena, idx);
      var prev := arena[idx].prev;
      var current, cache, _ := GetStateFor(checker, arena, prev, caches[pos], []);
      var next, cache', _ := GetStateFor(checker, arena, Some(idx), cache, []);
      var since, cache'', _ := GetStateSinceHeightFor(checker, arena, prev, cache', []);
      KnownCacheUpdate(params.deployments, arena, caches, pos, cache'');
      caches := caches[pos := cache''];
      var stats: Option<Bip9Stats>, signallingBlocks := None, [];
      if current == Started || current == LockedIn {
        var s, signalling, _ := GetStateStatisticsFor(checker, arena, Some(idx), []);
        if current == LockedIn {
          s := s.(threshold := 0, possible := false);
        }
        stats, signallingBlocks := Some(s), signalling;
      }
      var activeSince :=
        if current == Active then Some(since)
        else if next == Active then Some(arena[idx].height + 1)
        else None;
      info := Bip9Info(since, current, next, stats, signallingBlocks, activeSince);
    }

    method GetGbtStatus(arena: Arena, idx: nat) returns (status: GbtStatus)
      requires WellFormed(arena) && Valid(arena) && idx < |arena|
      modifies this
      ensures Valid(arena)
      ensures status == Grouped(params.deployments, arena, Some(idx), |params.deployments|)
    {
      status := GbtStatus([], [], []);
      for pos := 0 to |params.deployments|
        invariant Valid(arena)
        invariant status == Grouped(params.deployments, arena, Some(idx), pos)
      {
        var state, cache, _ := GetStateFor(KnownBits(params.deployments[pos]), arena, Some(idx), caches[pos], []);
        KnownCacheUpdate(params.deployments, arena, caches, pos, cache);
        caches := caches[pos := cache];
        match state
        case Started => status := status.(signalling := status.signalling + [pos]);
        case LockedIn => status := status.(lockedIn := status.lockedIn + [pos]);
        case Active => status := status.(active := status.active + [pos]);
        case _ =>
      }
    }

    method CheckUnknownActivations(arena: Arena, index: Option<nat>) returns (result: seq<(nat, bool)>)
      requires WellFormed(arena) && Valid(arena) && PrevOk(arena, index)
      modifies this
      ensures Valid(arena)
      ensures result == UnknownActivations(params, arena, index, VERSIONBITS_NUM_BITS)
    {
      result := [];
      for bit := 0 to VERSIONBITS_NUM_BITS
        invariant Valid(arena)
        invariant result == UnknownActivations(params, arena, index, bit)
      {
        WarningCacheAt(params, arena, warningCaches, bit);
        var state, cache, known := GetStateFor(WarningBits(params, bit), arena, index, warningCaches[bit], caches);
        WarningCacheUpdate(params, arena, warningCaches, bit, cache);
        caches, warningCaches := known, warningCaches[bit := cache];
        if state == Active || state == LockedIn {
          result := result + [(bit, state == Active)];
        }
      }
    }

    /** Appending blocks leaves every cache valid. */
    lemma ValidSurvivesGrowth(arena: Arena, more: Arena)
      requires Valid(arena) && Linked(arena + more)
      ensures Valid(arena + more)
    {
      forall d | 0 <= d < |params.deployments|
        ensures CacheOk(KnownBits(params.deployments[d]), arena + more, caches[d])
      {
        CacheSurvivesGrowth(KnownBits(params.deployments[d]), arena, more, caches[d]);
      }
      forall bit | 0 <= bit < VERSIONBITS_NUM_BITS
        ensures CacheOk(WarningBits(params, bit), arena + more, warningCaches[bit])
      {
        WarningCacheAt(params, arena, warningCaches, bit);
        CacheSurvivesGrowth(WarningBits(params, bit), arena, more, warningCaches[bit]);
      }
    }

    method Clear(ghost arena: Arena)
      requires Linked(arena) && ParamsOk(params)
      modifies this
      ensures Valid(arena)
    {
      caches := seq(|params.deployments|, _ => map[]);
      warningCaches := seq(VERSIONBITS_NUM_BITS, _ => map[]);
    }
  }

  ghost predicate WarningCachesOk(params: ChainParams, arena: Arena, caches: seq<Cache>)
    requires Linked(arena) && ParamsOk(params)
  {
    && |caches| == VERSIONBITS_NUM_BITS
    && forall bit :: 0 <= bit < VERSIONBITS_NUM_BITS ==> CacheOk(WarningBits(params, bit), arena, caches[bit])
  }

  lemma WarningCacheAt(params: ChainParams, arena: Arena, caches: seq<Cache>, bit: nat)
    requires Linked(arena) && ParamsOk(params) && bit < VERSIONBITS_NUM_BITS
    requires WarningCachesOk(params, arena, caches)
    ensures bit < |caches| && CheckerOk(WarningBits(params, bit))
    ensures CacheOk(WarningBits(params, bit), arena, caches[bit])
  {
  }

  lemma WarningCacheUpdate(params: ChainParams, arena: Arena, caches: seq<Cache>, bit: nat, cache: Cache)
    requires Linked(arena) && ParamsOk(params) && bit < VERSIONBITS_NUM_BITS
    requires WarningCachesOk(params, arena, caches) && CacheOk(WarningBits(params, bit), arena, cache)
    ensures WarningCachesOk(params, arena, caches[bit := cache])
  {
  }

  // ---------------------------------------------------------------------
  // Every interleaving of block insertions and queries
  // ---------------------------------------------------------------------

  datatype Op =
    | Append(version: bv32, time: nat, prev: Option<nat>)
    | AskActive(pos: nat, prev: Option<nat>)
    | AskVersion(prev: Option<nat>)
    | AskInfo(pos: nat, idx: nat)
    | AskGbt(idx: nat)
    | AskUnknown(index: Option<nat>)
    | Forget

  datatype Answer =
    | Nothing
    | IsActive(active: bool)
    | Version(version: bv32)
    | Status(info: Bip9Info)
    | Groups(status: GbtStatus)
    | Unknown(bits: seq<(nat, bool)>)

  /** The header rule and the bounds under which an operation is carried out; otherwise it is refused. */
  predicate Accepted(params: ChainParams, arena: Arena, op: Op) {
    match op
    case Append(_, time, prev) => prev.Some? ==> prev.value < |arena| && time >= ComputeMtp(arena, prev.value)
    case AskActive(pos, prev) => pos < |params.deployments| && (prev.Some? ==> prev.value < |arena|)
    case AskVersion(prev) => prev.Some? ==> prev.value < |arena|
    case AskInfo(pos, idx) =>
      pos < |params.deployments| && idx < |arena| && FitsU32(RuleOf(KnownBits(params.deployments[pos])))
    case AskGbt(idx) => idx < |arena|
    case AskUnknown(index) => index.Some? ==> index.value < |arena|
    case Forget => true
  }

  /** The block tree after an operation: only insertions change it. */
  ghost function Grow(params: ChainParams, arena: Arena, op: Op): Arena {
    if op.Append? && Accepted(params, arena, op) then arena + [NewBlock(arena, op.version, op.time, op.prev)] else arena
  }

  /** The answer of the uncached definition on the tree as it stands. */
  ghost predicate RightAnswer(params: ChainParams, arena: Arena, op: Op, answer: Answer)
    requires Linked(arena) && ParamsOk(params)
  {
    if !Accepted(params, arena, op) then answer == Nothing
    else match op
      case Append(_, _, _) => answer == Nothing
      case AskActive(pos, prev) =>
        answer == IsActive(StateOf(KnownBits(params.deployments[pos]), arena, prev) == Active)
      case AskVersion(prev) => answer == Version(ExpectedVersion(params.deployments, arena, prev))
      case AskInfo(pos, idx) => answer.Status? && IsInfo(KnownBits(params.deployments[pos]), arena, idx, answer.info)
      case AskGbt(idx) => answer == Groups(Grouped(params.deployments, arena, Some(idx), |params.deployments|))
      case AskUnknown(index) => answer == Unknown(UnknownActivations(params, arena, index, VERSIONBITS_NUM_BITS))
      case Forget => answer == Nothing
  }

  ghost function TreeAfter(params: ChainParams, ops: seq<Op>): Arena {
    if ops == [] then []
    else Grow(params, TreeAfter(params, ops[..|ops| - 1]), ops[|ops| - 1])
  }

  method Perform(cache: VersionBitsCache, arena: Arena, op: Op) returns (answer: Answer, grown: Arena)
    requires WellFormed(arena) && cache.Valid(arena)
    modifies cache
    ensures grown == Grow(cache.params, arena, op) && WellFormed(grown) && cache.Valid(grown)
    ensures RightAnswer(cache.params, arena, op, answer)
  {
    answer, grown := Nothing, arena;
    if !Accepted(cache.params, arena, op) {
      return;
    }
    match op
    case Append(version, time, prev) =>
      grown := AppendBlock(arena, version, time, prev);
      cache.ValidSurvivesGrowth(arena, [NewBlock(arena, version, time, prev)]);
    case AskActive(pos, prev) =>
      var active := cache.IsActiveAfter(arena, prev, pos);
      answer := IsActive(active);
    case AskVersion(prev) =>
      var version := cache.BlockVersion(arena, prev);
      answer := Version(version);
    case AskInfo(pos, idx) =>
      var info := cache.Info(arena, idx, pos);
      answer := Status(info);
    case AskGbt(idx) =>
      var status := cache.GetGbtStatus(arena, idx);
      answer := Groups(status);
    case AskUnknown(index) =>
      var bits := cache.CheckUnknownActivations(arena, index);
      answer := Unknown(bits);
    case Forget =>
      cache.Clear(arena);
  }

  /** The answer to operation `n` is that of the uncached definition on the tree built by the operations before it. */
  ghost predicate Correct(params: ChainParams, ops: seq<Op>, n: nat, answer: Answer)
    requires n < |ops|
  {
    var tree := TreeAfter(params, ops[..n]);
    ParamsOk(params) && Linked(tree) && RightAnswer(params, tree, ops[n], answer)
  }

  /** Runs any sequence of insertions (with forks) and queries from an empty tree: every answer is
      the one the uncached definition gives on the tree at that moment. */
  method Replay(params: ChainParams, ops: seq<Op>) returns (answers: seq<Answer>)
    requires ParamsOk(params)
    ensures |answers| == |ops|
    ensures forall n :: 0 <= n < |ops| ==> Correct(params, ops, n, answers[n])
  {
    var cache := new VersionBitsCache(params);
    var arena: Arena := [];
    answers := [];
    for n := 0 to |ops|
      invariant cache.params == params && |answers| == n
      invariant fresh(cache)
      invariant WellFormed(arena) && cache.Valid(arena)
      invariant arena == TreeAfter(params, ops[..n])
      invariant forall k :: 0 <= k < n ==> Correct(params, ops, k, answers[k])
    {
      var answer, grown := Perform(cache, arena, ops[n]);
      assert Correct(params, ops, n, answer);
      assert ops[..n + 1][..n] == ops[..n];
      answers, arena := answers + [answer], grown;
    }
  }
}
